/** Machine words as the bit-array code sees them.

    A byte or word is its list of bits, least significant first, so C's `&`, `|`, `~`, `<<` and
    `>>` are the pointwise and index-shifting operations below.  Memory is a list of bytes, and
    a multi-byte access is little-endian: the low bits come from the lowest address. */
module Machine {

  type Octet = b: seq<bool> | |b| == 8 witness [false, false, false, false, false, false, false, false]
  type Word = w: seq<bool> | |w| == 64 witness Repeat(64, false)

  const SIZE_MODULUS: int := 0x1_0000_0000_0000_0000
  const SSIZE_LIMIT: int := 0x8000_0000_0000_0000

  /** How a call ends.  `Undefined` stands for every step C gives no meaning to: an access or a
      pointer outside the allocated buffer, a shift count outside 0..63, a signed overflow. */
  datatype Outcome = Refused | Undefined | Done

  function Repeat(width: nat, bit: bool): (w: seq<bool>)
    ensures |w| == width && forall k | 0 <= k < width :: w[k] == bit
  {
    if width == 0 then [] else Repeat(width - 1, bit) + [bit]
  }

  function Not(w: seq<bool>): (r: seq<bool>)
    ensures |r| == |w| && forall k | 0 <= k < |w| :: r[k] == !w[k]
  {
    if w == [] then [] else Not(w[..|w| - 1]) + [!w[|w| - 1]]
  }

  function And(v: seq<bool>, w: seq<bool>): (r: seq<bool>)
    requires |v| == |w|
    ensures |r| == |w| && forall k | 0 <= k < |w| :: r[k] == (v[k] && w[k])
  {
    if w == [] then [] else And(v[..|w| - 1], w[..|w| - 1]) + [v[|w| - 1] && w[|w| - 1]]
  }

  function Or(v: seq<bool>, w: seq<bool>): (r: seq<bool>)
    requires |v| == |w|
    ensures |r| == |w| && forall k | 0 <= k < |w| :: r[k] == (v[k] || w[k])
  {
    if w == [] then [] else Or(v[..|w| - 1], w[..|w| - 1]) + [v[|w| - 1] || w[|w| - 1]]
  }

  /** Right shift; `fill` is what comes in at the top: false for unsigned operands, the sign bit
      for signed ones. */
  function ShiftRight(w: seq<bool>, count: nat, fill: bool): (r: seq<bool>)
    requires count <= |w|
    ensures |r| == |w| && forall k | 0 <= k < |w| :: r[k] == if k + count < |w| then w[k + count] else fill
  {
    w[count..] + Repeat(count, fill)
  }

  function ShiftLeft(w: seq<bool>, count: nat): (r: seq<bool>)
    requires count <= |w|
    ensures |r| == |w| && forall k | 0 <= k < |w| :: r[k] == if count <= k then w[k - count] else false
  {
    Repeat(count, false) + w[..|w| - count]
  }

  /** `ffsll (w) - 1`: the lowest set bit, or -1. */
  function LowestSet(w: seq<bool>): (r: int)
    ensures r == -1 <==> true !in w
    ensures r != -1 ==> 0 <= r < |w| && w[r] && true !in w[..r]
  {
    if w == [] then -1
    else if w[0] then 0
    else
      var tail := LowestSet(w[1..]);
      assert forall k | 0 < k < |w| :: w[k] == w[1..][k - 1];
      if tail == -1 then -1 else assert w[..tail + 1] == [w[0]] + w[1..][..tail]; tail + 1
  }

  /** A memory as one list of bits: its bytes, lowest address first. */
  function Bits(mem: seq<Octet>): (b: seq<bool>)
    ensures |b| == 8 * |mem|
  {
    if mem == [] then [] else mem[0] + Bits(mem[1..])
  }

  lemma {:induction false} BitsAppend(m: seq<Octet>, n: seq<Octet>)
    ensures Bits(m + n) == Bits(m) + Bits(n)
  {
    if m == [] {
      assert m + n == n;
    } else {
      BitsAppend(m[1..], n);
      assert (m + n)[0] == m[0] && (m + n)[1..] == m[1..] + n;
      Reassociate(m[0], Bits(m[1..]), Bits(n));
    }
  }

  lemma {:induction false} Reassociate(a: seq<bool>, b: seq<bool>, c: seq<bool>)
    ensures a + (b + c) == (a + b) + c
  {
  }

  lemma {:induction false} BitsAppend3(low: seq<Octet>, mid: seq<Octet>, high: seq<Octet>)
    ensures Bits(low + mid + high) == Bits(low) + Bits(mid) + Bits(high)
  {
    hide *;
    BitsAppend(low + mid, high);
    BitsAppend(low, mid);
  }

  /** Bit k of a memory is bit k % 8 of byte k / 8. */
  lemma {:induction false} BitOfByte(mem: seq<Octet>, k: nat)
    requires k < 8 * |mem|
    ensures Bits(mem)[k] == mem[k / 8][k % 8]
  {
    if k >= 8 {
      BitOfByte(mem[1..], k - 8);
      assert (k - 8) / 8 == k / 8 - 1 && (k - 8) % 8 == k % 8;
    }
  }

  /** The little-endian value of the `count` bytes at byte address `at`. */
  function Load(mem: seq<Octet>, at: nat, count: nat): (w: seq<bool>)
    requires at + count <= |mem|
    ensures |w| == 8 * count
  {
    Bits(mem[at..at + count])
  }

  lemma {:induction false} LoadBits(mem: seq<Octet>, at: nat, count: nat)
    requires at + count <= |mem|
    ensures Load(mem, at, count) == Bits(mem)[8 * at..8 * at + 8 * count]
  {
    hide Bits;
    var low, mid, high := mem[..at], mem[at..at + count], mem[at + count..];
    assert mem == low + mid + high;
    BitsAppend3(low, mid, high);
    MiddleSlice(Bits(low), Bits(mid), Bits(high));
  }

  lemma {:induction false} MiddleSlice(a: seq<bool>, b: seq<bool>, c: seq<bool>)
    ensures (a + b + c)[|a|..|a| + |b|] == b
  {
  }

  /** The same list seen through 64-bit loads: bit k is bit k % 64 of word k / 64. */
  lemma {:induction false} BitOfWord(mem: seq<Octet>, k: nat)
    requires 8 * (k / 64) + 8 <= |mem|
    ensures Bits(mem)[k] == Load(mem, 8 * (k / 64), 8)[k % 64]
  {
    hide *;
    LoadBits(mem, 8 * (k / 64), 8);
    assert k == 64 * (k / 64) + k % 64;
  }

  /** A list of bits with `w` written over it from position `from`. */
  function Splice(bits: seq<bool>, from: nat, w: seq<bool>): (r: seq<bool>)
    requires from + |w| <= |bits|
    ensures |r| == |bits|
  {
    bits[..from] + w + bits[from + |w|..]
  }

  lemma {:induction false} SpliceBytes(low: seq<Octet>, was: seq<Octet>, now: seq<Octet>, high: seq<Octet>)
    requires |was| == |now|
    ensures Bits(low + now + high) == Splice(Bits(low + was + high), 8 * |low|, Bits(now))
  {
    hide *;
    BitsAppend3(low, was, high);
    BitsAppend3(low, now, high);
    SpliceMiddle(Bits(low), Bits(was), Bits(now), Bits(high));
  }

  lemma {:induction false} SpliceMiddle(a: seq<bool>, was: seq<bool>, now: seq<bool>, c: seq<bool>)
    requires |was| == |now|
    ensures Splice(a + was + c, |a|, now) == a + now + c
  {
  }

  /** Writing next to the last write is one longer write; rewriting part of a stretch is a write
      to the list itself; what lies outside a write is as it was. */
  lemma {:induction false} SpliceSplice(bits: seq<bool>, from: nat, v: seq<bool>, w: seq<bool>)
    requires from + |v| + |w| <= |bits|
    ensures Splice(Splice(bits, from, v), from + |v|, w) == Splice(bits, from, v + w)
  {
  }

  lemma {:induction false} SpliceWithin(bits: seq<bool>, at: nat, width: nat, from: nat, w: seq<bool>)
    requires at + width <= |bits| && from + |w| <= width
    ensures Splice(bits, at, Splice(bits[at..at + width], from, w)) == Splice(bits, at + from, w)
  {
  }

  lemma {:induction false} SpliceAt(bits: seq<bool>, from: nat, w: seq<bool>, k: nat)
    requires from + |w| <= |bits| && k < |bits|
    ensures Splice(bits, from, w)[k] == if from <= k < from + |w| then w[k - from] else bits[k]
  {
  }

  lemma {:induction false} SpliceOne(bits: seq<bool>, k: nat, v: bool)
    requires k < |bits|
    ensures Splice(bits, k, [v]) == bits[k := v]
  {
  }

  lemma {:induction false} SpliceNothing(bits: seq<bool>, from: nat, v: bool)
    requires from <= |bits|
    ensures Repeat(0, v) == [] && Splice(bits, from, []) == bits
  {
  }

  lemma {:induction false} SpliceRepeat(bits: seq<bool>, begin: nat, a: nat, b: nat, v: bool)
    requires begin + a + b <= |bits|
    ensures Splice(Splice(bits, begin, Repeat(a, v)), begin + a, Repeat(b, v))
            == Splice(bits, begin, Repeat(a + b, v))
  {
    hide *;
    SpliceSplice(bits, begin, Repeat(a, v), Repeat(b, v));
    assert Repeat(a, v) + Repeat(b, v) == Repeat(a + b, v);
  }

  /** Words q up to r of a list of bits, and the list with other words put there. */
  function WordsAt(bits: seq<bool>, q: nat, r: nat): (w: seq<bool>)
    requires q <= r && 64 * r <= |bits|
    ensures |w| == 64 * (r - q)
  {
    bits[64 * q..64 * r]
  }

  function WithWords(bits: seq<bool>, q: nat, w: seq<bool>): (r: seq<bool>)
    requires 64 * q + |w| <= |bits|
    ensures |r| == |bits|
  {
    Splice(bits, 64 * q, w)
  }

  /** The bytes that spell the bits `w`. */
  function Bytes(w: seq<bool>, count: nat): (b: seq<Octet>)
    requires |w| == 8 * count
    ensures |b| == count && Bits(b) == w
  {
    if count == 0 then [] else [w[..8]] + Bytes(w[8..], count - 1)
  }

  /** Memory that bytes and words are read from and written to; `Content` is all of it. */
  class Memory {
    const bytes: array<Octet>

    ghost function Content(): (b: seq<bool>)
      reads bytes
      ensures |b| == 8 * bytes.Length
    {
      Bits(bytes[..])
    }

    /** `calloc`: zeroed. */
    constructor (size: nat)
      ensures fresh(bytes) && bytes.Length == size && Content() == Repeat(8 * size, false)
    {
      bytes := new Octet[size](_ => Repeat(8, false));
      new;
      ZeroBits(bytes[..]);
    }

    static lemma {:induction false} ZeroBits(mem: seq<Octet>)
      requires forall j | 0 <= j < |mem| :: mem[j] == Repeat(8, false)
      ensures Bits(mem) == Repeat(8 * |mem|, false)
    {
      if mem != [] {
        ZeroBits(mem[1..]);
        assert Repeat(8, false) + Repeat(8 * (|mem| - 1), false) == Repeat(8 * |mem|, false);
      }
    }

    /** `*(uintN_t*) (bytes + at)`. */
    method Read(at: nat, count: nat) returns (w: seq<bool>)
      requires at + count <= bytes.Length
      ensures w == Content()[8 * at..8 * at + 8 * count] && |w| == 8 * count
    {
      hide Bits;
      LoadBits(bytes[..], at, count);
      w := Load(bytes[..], at, count);
    }

    /** `*(uintN_t*) (bytes + at) = w`: exactly the addressed bits change. */
    method Write(at: nat, count: nat, w: seq<bool>)
      requires |w| == 8 * count && at + count <= bytes.Length
      modifies bytes
      ensures Content() == Splice(old(Content()), 8 * at, w)
    {
      hide Bits, Splice, Bytes;
      var spelled := Bytes(w, count);
      ghost var before := bytes[..];
      Store(at, spelled);
      assert before == before[..at] + before[at..at + count] + before[at + count..];
      SpliceBytes(before[..at], before[at..at + count], spelled, before[at + count..]);
    }

    method Store(at: nat, spelled: seq<Octet>)
      requires at + |spelled| <= bytes.Length
      modifies bytes
      ensures bytes[..] == old(bytes[..at]) + spelled + old(bytes[at + |spelled|..])
    {
      for j := 0 to |spelled|
        invariant forall i | 0 <= i < bytes.Length ::
                    bytes[i] == if at <= i < at + j then spelled[i - at] else old(bytes[i])
      {
        bytes[at + j] := spelled[j];
      }
    }

    /** `((uint64_t*) bytes)[q]`. */
    method ReadWord(q: nat) returns (w: Word)
      requires 8 * (q + 1) <= bytes.Length
      ensures w == WordsAt(Content(), q, q + 1)
    {
      hide Content;
      w := Read(8 * q, 8);
    }

    method WriteWord(q: nat, w: Word)
      requires 8 * (q + 1) <= bytes.Length
      modifies bytes
      ensures Content() == WithWords(old(Content()), q, w)
    {
      hide Content;
      Write(8 * q, 8, w);
    }

    /** `memset`. */
    method Set(at: nat, v: bool, count: nat)
      requires at + count <= bytes.Length
      modifies bytes
      ensures Content() == Splice(old(Content()), 8 * at, Repeat(8 * count, v))
    {
      hide *;
      ghost var bits := Content();
      SpliceNothing(bits, 8 * at, v);
      for j := 0 to count
        invariant Content() == Splice(bits, 8 * at, Repeat(8 * j, v))
      {
        SpliceRepeat(bits, 8 * at, 8 * j, 8, v);
        Write(at + j, 1, Repeat(8, v));
      }
    }
  }
}
