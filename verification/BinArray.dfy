/** The packed bit array: word- and byte-level code proved against a plain list of bits. */
module BinArrays {
  import opened Machine
  import opened BitRanges

  const MAX_BITS: nat := 0x1000_0000_0000_0000

  class BinArray {
    const buf: Memory
    const numBits: nat

    /** What `baCreate` sets up. */
    ghost predicate Valid()
    {
      0 < numBits < MAX_BITS && buf.bytes.Length == 8 * Units(numBits, 64)
    }

    /** The bits behind the array are clear. */
    ghost predicate Clean()
      reads buf.bytes
    {
      ClearFrom(buf.Content(), numBits)
    }

    /** When `baCreate` gets an array: not for 0 bits, not when `calloc` fails, which it does beyond
        the 2^57 bytes an address space has. */
    static predicate Obtains(bits: int, granted: bool)
    {
      granted && 0 < bits < MAX_BITS
    }

    /** `baCreate`; `granted` is whether the memory is there. */
    static method Create(bits: nat, granted: bool) returns (arr: BinArray?)
      ensures arr != null <==> granted && 0 < bits < 0x1000_0000_0000_0000
      ensures arr != null ==>
        && fresh(arr) && fresh(arr.buf) && fresh(arr.buf.bytes) && arr.Valid() && arr.numBits == bits
        && arr.buf.Content() == Repeat(8 * arr.buf.bytes.Length, false) && arr.Clean()
    {
      if bits == 0 { return null; }
      if !granted || bits >= MAX_BITS { return null; }
      arr := new BinArray(bits);
      ClearZeros(arr.buf.Content(), bits);
    }

    constructor (bits: nat)
      requires 0 < bits < MAX_BITS
      ensures Valid() && numBits == bits && fresh(buf) && fresh(buf.bytes)
      ensures buf.Content() == Repeat(8 * buf.bytes.Length, false)
    {
      numBits := bits;
      buf := new Memory(8 * Units(bits, 64));
    }

    /** The ranges the interface promises to accept: -1 means "to the end". */
    ghost predicate InRange(begin: nat, len: int)
    {
      if len == -1 then begin < numBits else len >= 0 && begin + len <= numBits
    }

    /** A range whose end overflows `size_t` and comes back below the array's length. */
    ghost predicate WrapsAround(begin: nat, len: int)
    {
      len >= 0 && 0 <= begin + len - SIZE_MODULUS <= numBits
    }

    ghost function Length(begin: nat, len: int): int { if len == -1 then numBits - begin else len }

    ghost predicate Arguments(begin: nat, len: int)
    {
      Valid() && begin < SIZE_MODULUS && -SSIZE_LIMIT <= len < SSIZE_LIMIT
    }

    /** `baCheckCalcArg`, and the pointer `buf_ + begin / 64` every range function forms next. */
    method CheckRange(begin: nat, len: int) returns (verdict: Outcome, n: int)
      requires Arguments(begin, len)
      ensures verdict.Done? <==> InRange(begin, len)
      ensures verdict.Undefined? <==> WrapsAround(begin, len)
      ensures verdict.Undefined? <==> len >= 0 && 0 <= begin + len - 0x1_0000_0000_0000_0000 <= numBits
      ensures !verdict.Refused? ==> n == Length(begin, len) >= 0
      ensures verdict.Done? ==> begin + n <= numBits
    {
      n := len;
      if len == -1 {
        if begin < numBits { n := numBits - begin; } else { return Refused, n; }
      } else if len >= 0 {
        if !((begin + len) % SIZE_MODULUS < numBits + 1) { return Refused, n; }
      } else {
        return Refused, n;
      }
      verdict := if 8 * (begin / 64) > buf.bytes.Length then Undefined else Done;
    }

    /** A range in terms of the words it covers: from bit `rshift` of word `q`, `words` whole words
        between the first and the last one. */
    static lemma {:induction false} RangeFits(bits: nat, begin: nat, n: nat)
      requires begin + n <= bits
      ensures var q, rshift, words := begin / 64, begin % 64, InnerWords(begin, n);
        && begin == 64 * q + rshift && rshift < 64
        && (rshift + n <= 64 ==> words == 0 && (n > 0 ==> q + 1 <= Units(bits, 64)))
        && (rshift + n > 64 ==>
              && words == Units(n - (64 - rshift), 64) - 1
              && 64 * words < rshift + n - 64 <= 64 * words + 64
              && q + words + 2 <= Units(bits, 64))
        && Units(begin, 64) == (if rshift == 0 then q else q + 1)
        && (rshift > 0 ==> q + 1 <= Units(bits, 64))
        && Units(begin + n, 64) <= Units(bits, 64)
    {
    }

    /** The words strictly between the first and the last word of a range. */
    static ghost function InnerWords(begin: nat, n: nat): nat
    {
      if begin % 64 + n <= 64 then 0 else Units(begin % 64 + n - 64, 64) - 1
    }

    // ---------------------------------------------------------------- single bits

    /** `baGetValue`.  The guard lets `bit == numBits` through. */
    method GetValue(bit: nat) returns (o: Outcome, v: bool)
      requires Valid()
      ensures o.Done? <==> bit < numBits || (bit == numBits && bit % 64 != 0)
      ensures o.Undefined? <==> bit == numBits && bit % 64 == 0
      ensures o.Done? ==> bit < 8 * buf.bytes.Length && v == buf.Content()[bit]
    {
      v := false;
      if bit > numBits { return Refused, v; }
      if bit / 8 >= buf.bytes.Length { return Undefined, v; }
      var byte := buf.Read(bit / 8, 1);
      assert bit == 8 * (bit / 8) + bit % 8;
      return Done, byte[bit % 8];
    }

    /** `_baSetOne` and `_baSetZero`. */
    method Poke(bit: nat, v: bool)
      requires bit / 8 < buf.bytes.Length
      modifies buf.bytes
      ensures buf.Content() == old(buf.Content())[bit := v]
    {
      hide *;
      var j, k := bit / 8, bit % 8;
      var byte := buf.Read(j, 1);
      PokedBits(buf.Content(), j, k, v);
      buf.Write(j, 1, Poked(byte, k, v));
    }

    /** `baSetValue`, which is `baSetOne` or `baSetZero`. */
    method SetValue(bit: nat, v: bool) returns (o: Outcome)
      requires Valid()
      modifies buf.bytes
      ensures o.Done? <==> bit < numBits || (bit == numBits && bit % 64 != 0)
      ensures o.Undefined? <==> bit == numBits && bit % 64 == 0
      ensures buf.Content() == if o.Done? then old(buf.Content())[bit := v] else old(buf.Content())
      ensures o.Done? && old(Clean()) ==> (Clean() <==> bit < numBits || !v)
    {
      if bit > numBits { return Refused; }
      if bit / 8 >= buf.bytes.Length { return Undefined; }
      Poke(bit, v);
      if old(Clean()) { ClearSet(old(buf.Content()), bit, v, numBits); }
      return Done;
    }

    // ---------------------------------------------------------------- fill

    /** `*word |= mask` or `*word &= ~mask` with the mask for bits [rshift, rshift + len) of word q;
        false when the mask's shift count is out of range. */
    method Blend(q: nat, rshift: nat, len: nat, v: bool) returns (defined: bool)
      requires rshift + len <= 64 && (len != 0 ==> 8 * (q + 1) <= buf.bytes.Length)
      modifies buf.bytes
      ensures defined <==> len != 0
      ensures defined ==> buf.Content() == Splice(old(buf.Content()), 64 * q + rshift, Repeat(len, v))
      ensures !defined ==> buf.Content() == old(buf.Content())
    {
      hide *;
      WholeMask(len);
      if !MaskDefined(len) { return false; }
      var word := buf.ReadWord(q);
      BlendedBits(buf.Content(), q, rshift, len, v);
      buf.WriteWord(q, Blended(word, Mask(rshift, len), v));
      return true;
    }

    /** The whole words between the first and the last one. */
    method FillWords(q: nat, words: nat, v: bool)
      requires 8 * (q + words) <= buf.bytes.Length
      modifies buf.bytes
      ensures buf.Content() == Splice(old(buf.Content()), 64 * q, Repeat(64 * words, v))
    {
      hide *;
      SpliceNothing(buf.Content(), 64 * q, v);
      if words > 0 { buf.Set(8 * q, v, 8 * words); }
    }

    /** Filling a range that leaves its first word. */
    method FillMany(q: nat, rshift: nat, words: nat, tail: nat, v: bool)
      requires rshift < 64 && 1 <= tail <= 64 && 8 * (q + words + 2) <= buf.bytes.Length
      modifies buf.bytes
      ensures buf.Content() == Splice(old(buf.Content()), 64 * q + rshift, Repeat(64 - rshift + 64 * words + tail, v))
    {
      hide *;
      FilledInThree(buf.Content(), q, rshift, words, tail, v);
      var _ := Blend(q, rshift, 64 - rshift, v);
      FillWords(q + 1, words, v);
      var _ := Blend(q + 1 + words, 0, tail, v);
    }

    /** `baFillOne` (v) and `baFillZero` (!v): an empty range shifts by 64, every other accepted
        range is filled exactly, padding bits included. */
    method Fill(begin: nat, len: int, v: bool) returns (o: Outcome)
      requires Arguments(begin, len)
      modifies buf.bytes
      ensures o.Done? <==> InRange(begin, len) && len != 0
      ensures o.Undefined? <==> WrapsAround(begin, len) || (InRange(begin, len) && len == 0)
      ensures buf.Content() == if o.Done? then Splice(old(buf.Content()), begin, Repeat(Length(begin, len), v))
                               else old(buf.Content())
      ensures old(Clean()) ==> Clean()
    {
      hide Splice, Repeat, Units, WrapsAround, InnerWords, ClearFrom;
      var n;
      o, n := CheckRange(begin, len);
      if !o.Done? { return; }
      RangeFits(numBits, begin, n);
      var q, rshift, defined := begin / 64, begin % 64, true;
      if rshift + n <= 64 {
        defined := Blend(q, rshift, n, v);
      } else {
        n := n - (64 - rshift);
        var words := Units(n, 64) - 1;
        FillMany(q, rshift, words, n - 64 * words, v);
      }
      if defined && old(Clean()) {
        ClearWithin(old(buf.Content()), begin, Repeat(Length(begin, len), v), numBits);
      }
      return if defined then Done else Undefined;
    }

    // ---------------------------------------------------------------- search

    /** `baFindOne` (v) and `baFindZero` (!v). */
    method Find(begin: nat, len: int, v: bool) returns (o: Outcome, pos: int)
      requires Arguments(begin, len)
      ensures o.Done? <==> InRange(begin, len)
      ensures o.Undefined? <==> WrapsAround(begin, len)
      ensures o.Done? ==>
        && Length(begin, len) >= 0
        && 64 * Units(begin + Length(begin, len), 64) <= 8 * buf.bytes.Length
        && pos == FindAnswer(buf.Content(), v, begin, Length(begin, len))
    {
      hide Units, WrapsAround, FindAnswer;
      var n;
      o, n := CheckRange(begin, len);
      pos := -1;
      if !o.Done? { return; }
      RangeFits(numBits, begin, n);
      pos := FindIn(begin / 64, begin % 64, n, v);
    }

    method FindIn(q: nat, rshift: nat, n: nat, v: bool) returns (pos: int)
      requires rshift < 64 && 8 * Units(64 * q + rshift + n, 64) <= buf.bytes.Length
      requires rshift > 0 ==> 8 * (q + 1) <= buf.bytes.Length
      ensures pos == FindAnswer(buf.Content(), v, 64 * q + rshift, n)
    {
      hide *;
      if rshift != 0 {
        FindInHead(buf.Content(), v, q, rshift, n);
        var word := buf.ReadWord(q);
        pos := LowestSet(Wanted(word, rshift, v));
        if rshift + n <= 64 {
          pos := if pos != -1 && pos < n then 64 * q + rshift + pos else -1;
        } else if pos != -1 {
          pos := 64 * q + rshift + pos;
        } else {
          pos := FindFrom(q + 1, n - (64 - rshift), v);
        }
      } else {
        FindAligned(buf.Content(), v, q, n);
        pos := FindFrom(q, n, v);
      }
    }

    /** The loop over whole words from word `a`. */
    method FindFrom(a: nat, rest: nat, v: bool) returns (pos: int)
      requires 8 * (a + Visited(rest)) <= buf.bytes.Length
      ensures pos == var hit := First(buf.Content(), v, 64 * a, 64 * (a + Visited(rest)));
                     if hit == -1 then -1 else Reported(a, rest, hit)
    {
      hide *;
      var num, i, addPos := Visited(rest), 0, -1;
      ghost var bits := buf.Content();
      FirstNothing(bits, v, 64 * a);
      while i < num && addPos == -1
        invariant i <= num && -1 <= addPos < 64 && (addPos != -1 ==> i < num)
        invariant First(bits, v, 64 * a, 64 * (a + i)) == -1
        invariant addPos != -1 ==> First(bits, v, 64 * a, 64 * (a + num)) == 64 * (a + i) + addPos
        decreases num - i, addPos == -1
      {
        FirstNextWord(bits, v, a, a + i, a + num);
        var word := buf.ReadWord(a + i);
        addPos := LowestSet(Wanted(word, 0, v));
        if addPos == -1 { i := i + 1; }
      }
      if addPos != -1 { ReportedAs(a, rest, i, addPos); }
      pos := if addPos != -1 && addPos < rest then (64 * i) % 0x1_0000_0000 + 64 * a + addPos else -1;
    }

    // ---------------------------------------------------------------- invert

    /** `*word = ~(*word & mask) & mask` on word q; false when the mask's shift count is out of
        range. */
    method InvertMasked(q: nat, rshift: nat, len: int) returns (defined: bool)
      requires MaskDefined(len) ==> 8 * (q + 1) <= buf.bytes.Length && rshift + Low8(len) <= 64
      modifies buf.bytes
      ensures defined <==> MaskDefined(len)
      ensures defined ==> buf.Content() == WithWords(old(buf.Content()), q,
                            MaskedNot(WordsAt(old(buf.Content()), q, q + 1), rshift, Low8(len)))
    {
      hide *;
      if !MaskDefined(len) { return false; }
      var mask := Mask(rshift, len);
      var word := buf.ReadWord(q);
      MaskedNotIs(word, rshift, len);
      buf.WriteWord(q, And(Not(And(word, mask)), mask));
      return true;
    }

    /** Whether the length that `baInvert` is left with after its loop over the inner words still
        yields a mask.  The loop subtracts 64 * words once a word, so `words` times too often. */
    static ghost predicate SurvivesLoop(words: nat, n: int)
    {
      (words % 4 == 0 || words % 4 == 1) && FitsSsize(n - 64 * (words * words))
    }

    /** The length left of `n` after `times` rounds of the loop. */
    static ghost function Left(words: nat, n: int, times: nat): int
    {
      if times == 0 then n else Left(words, n, times - 1) - 64 * words
    }

    static lemma {:induction false} LeftShrinks(words: nat, n: int, few: nat, many: nat)
      requires few <= many
      ensures Left(words, n, many) <= Left(words, n, few)
      ensures Left(words, n, 0) == n && Left(words, n, few + 1) == Left(words, n, few) - 64 * words
    {
      if few < many { LeftShrinks(words, n, few, many - 1); }
    }

    static lemma {:induction false} LeftClosed(words: nat, n: int, times: nat)
      ensures Left(words, n, times) == n - 64 * (words * times)
    {
      if times > 0 {
        LeftClosed(words, n, times - 1);
        assert words * times == words * (times - 1) + words;
      }
    }

    /** Modulo 256 a round takes off 64 times the remainder of `words` modulo 4. */
    static lemma {:induction false} LeftSplit(q: nat, r: nat, n: int, times: nat) returns (t: int)
      ensures Left(4 * q + r, n, times) == n - 64 * (r * times) - 256 * t
    {
      t := 0;
      if times > 0 {
        t := LeftSplit(q, r, n, times - 1);
        t := t + q;
      }
    }

    /** The length left over, as the `uint8_t` the mask receives. */
    static lemma {:induction false} LeftOver(words: nat, tail: nat)
      requires 1 <= tail <= 64
      ensures var left := Left(words, 64 * words + tail, words);
        && (SurvivesLoop(words, 64 * words + tail) <==> FitsSsize(left) && MaskDefined(left))
        && (SurvivesLoop(words, 64 * words + tail) ==> Low8(left) == tail)
    {
      hide Left;
      LeftClosed(words, 64 * words + tail, words);
      var q, r := words / 4, words % 4;
      var t := LeftSplit(q, r, 64 * words + tail, words);
      Rotate(tail, r, q - t - r * q);
    }

    static lemma {:induction false} Rotate(rest: nat, r: nat, t: int)
      requires 1 <= rest <= 64 && r < 4
      ensures (rest + 64 * (r - r * r) + 256 * t) % 256 == if r < 2 then rest else rest + 128
    {
    }

    method InvertWord(q: nat)
      requires 8 * (q + 1) <= buf.bytes.Length
      modifies buf.bytes
      ensures buf.Content() == WithWords(old(buf.Content()), q, Not(WordsAt(old(buf.Content()), q, q + 1)))
    {
      hide *;
      var word := buf.ReadWord(q);
      buf.WriteWord(q, Not(word));
    }

    /** `baInvert`'s loop over the inner words, each word read before the pointer moves on. */
    method InvertWords(q: nat, words: nat, n: int) returns (defined: bool, left: int)
      requires 8 * (q + words) <= buf.bytes.Length && FitsSsize(n)
      modifies buf.bytes
      ensures defined <==> FitsSsize(Left(words, n, words))
      ensures defined ==> left == Left(words, n, words)
      ensures defined ==>
        buf.Content() == WithWords(old(buf.Content()), q, Not(WordsAt(old(buf.Content()), q, q + words)))
    {
      hide *;
      ghost var bits := buf.Content();
      InvertedNothing(bits, q);
      LeftShrinks(words, n, 0, words);
      left := n;
      for i := 0 to words
        invariant left == Left(words, n, i) && FitsSsize(left)
        invariant buf.Content() == WithWords(bits, q, Not(WordsAt(bits, q, q + i)))
      {
        InvertedSoFar(bits, q, q + i);
        LeftShrinks(words, n, i, words);
        LeftShrinks(words, n, i + 1, words);
        InvertWord(q + i);
        left := left - 64 * words;
        FitsSsizeMonotone(Left(words, n, words), left);
        if !FitsSsize(left) { return false, left; }
      }
      return true, left;
    }

    /** `baInvert` on a range that leaves its first word. */
    method InvertMany(q: nat, rshift: nat, n: nat, words: nat, ghost tail: nat) returns (defined: bool)
      requires rshift < 64 && 1 <= tail <= 64 && n == 64 * words + tail && 8 * (q + words + 2) <= buf.bytes.Length
      requires Units(64 + n, 64) == words + 2
      modifies buf.bytes
      ensures defined <==> SurvivesLoop(words, n)
      ensures defined ==> buf.Content() == InvertedBits(old(buf.Content()), q, rshift, 64 - rshift + n)
    {
      hide *;
      ghost var bits := buf.Content();
      var rlen := 64 - rshift;
      LeftOver(words, tail);
      WholeMask(rlen);
      FitsSsizeMonotone(0, n);
      defined := InvertMasked(q, rshift, rlen);
      ghost var one := buf.Content();
      var left;
      defined, left := InvertWords(q + 1, words, n);
      if defined {
        ghost var two := buf.Content();
        MaskFits(left);
        defined := InvertMasked(q + 1 + words, 0, left);
        assert defined ==> Low8(left) == tail;
        if defined { InvertedInThree(bits, q, rshift, words, tail, one, two, buf.Content()); }
      }
    }

    /** The ranges `baInvert` handles: accepted, not empty, and surviving its word loop. */
    ghost predicate Invertible(begin: nat, len: int)
    {
      InRange(begin, len) && len != 0 &&
      var n := Length(begin, len);
      SurvivesLoop(InnerWords(begin, n), n - (64 - begin % 64))
    }

    /** `baInvert`. */
    method Invert(begin: nat, len: int) returns (o: Outcome)
      requires Arguments(begin, len)
      modifies buf.bytes
      ensures o.Refused? <==> !InRange(begin, len) && !WrapsAround(begin, len)
      ensures o.Done? <==> Invertible(begin, len)
      ensures o.Done? ==>
        && 64 * (begin / 64 + Units(begin % 64 + Length(begin, len), 64)) <= 8 * buf.bytes.Length
        && buf.Content() == InvertedBits(old(buf.Content()), begin / 64, begin % 64, Length(begin, len))
      ensures o.Done? && old(Clean()) ==> Clean()
    {
      hide InvertedBits, Units, InnerWords, SurvivesLoop, WrapsAround, ClearFrom;
      var n;
      o, n := CheckRange(begin, len);
      if !o.Done? { return; }
      RangeFits(numBits, begin, n);
      var defined := InvertRange(begin, n);
      if defined && old(Clean()) {
        ClearInverted(old(buf.Content()), begin / 64, begin % 64, n, numBits);
      }
      return if defined then Done else Undefined;
    }

    method InvertRange(begin: nat, n0: nat) returns (defined: bool)
      requires Valid() && begin + n0 <= numBits
      modifies buf.bytes
      ensures defined <==> n0 > 0 && SurvivesLoop(InnerWords(begin, n0), n0 - (64 - begin % 64))
      ensures defined ==>
        && 64 * (begin / 64 + Units(begin % 64 + n0, 64)) <= 8 * buf.bytes.Length
        && buf.Content() == InvertedBits(old(buf.Content()), begin / 64, begin % 64, n0)
    {
      hide MaskDefined, Low8, InvertedBits, MaskedNot, WithWords, WordsAt, Units, InnerWords, SurvivesLoop, FitsSsize;
      RangeFits(numBits, begin, n0);
      var q, rshift, n: int := begin / 64, begin % 64, n0;
      if rshift + n <= 64 {
        WholeMask(n);
        SmallSurvives(n - (64 - rshift));
        if n > 0 { InvertedInOne(buf.Content(), q, rshift, n); }
        defined := InvertMasked(q, rshift, n);
      } else {
        n := n - (64 - rshift);
        var words := Units(n, 64) - 1;
        InvertedSpan(rshift, n);
        defined := InvertMany(q, rshift, n, words, n - 64 * words);
      }
    }

    static lemma {:induction false} SmallSurvives(n: int)
      requires -64 <= n
      ensures SurvivesLoop(0, n)
    {
    }

    static lemma {:induction false} InvertedSpan(rshift: nat, n: nat)
      requires rshift < 64 && n > 0
      ensures Units(64 + n, 64) == Units(n, 64) + 1 && rshift + (64 - rshift + n) == 64 + n
    {
    }

    // ---------------------------------------------------------------- copies

    /** When `baGetSubArray` leaves a buffer: the shifted range needs one more byte than its copy,
        the copy is a multiple of 7 bytes so the 7-byte steps already reach its end, and the last
        byte is then written behind the copy or read behind the source. */
    ghost predicate Overruns(begin: nat, n: nat)
    {
      begin % 8 != 0 && n > 0 &&
      var p := PlanOf(n, begin % 8);
      p.over != p.size && p.size >= 8 && p.size % 7 == 0 &&
      (p.size % 8 == 0 || begin / 8 + p.over >= buf.bytes.Length)
    }

    /** `baGetSubArray`; `granted` is whether the memory for the copy is there. */
    method SubArray(begin: nat, len: int, granted: bool) returns (o: Outcome, sub: BinArray?)
      requires Arguments(begin, len)
      ensures o.Done? <==>
        InRange(begin, len) && Obtains(Length(begin, len), granted) && !Overruns(begin, Length(begin, len))
      ensures o.Undefined? <==>
        && Obtains(Length(begin, len), granted)
        && (WrapsAround(begin, len) || (InRange(begin, len) && Overruns(begin, Length(begin, len))))
      ensures o.Done? ==>
        sub != null && fresh(sub) && fresh(sub.buf.bytes) && sub.Valid() && sub.numBits == Length(begin, len)
      ensures o.Done? ==>
        && sub.numBits <= Extent(sub.numBits, begin % 8)
        && Arrived(sub, begin, Extent(sub.numBits, begin % 8), Extent(sub.numBits, begin % 8))
        && (sub.Clean() <==>
              forall k | begin + sub.numBits <= k < begin + Extent(sub.numBits, begin % 8) :: !buf.Content()[k])
    {
      hide Units, PlanOf, WrapsAround, Copied, Repeat, ClearFrom, LastByte;
      var n;
      o, n := CheckRange(begin, len);
      sub := null;
      if o.Refused? { return; }
      sub := Create(n, granted);
      if sub == null { return Refused, sub; }
      if o.Undefined? { return; }
      ClearZeros(sub.buf.Content(), 0);
      ExtentFacts(n, begin % 8);
      RangeInBytes(numBits, begin / 8, begin % 8, n);
      BytesInWords(n);
      FullWords(n);
      var defined := true;
      if begin % 8 == 0 {
        CopyAligned(sub, begin / 8, n);
      } else {
        PlanFacts(n, begin % 8);
        defined := CopyShifted(sub, begin / 8, begin % 8, n);
      }
      if defined { ClearCopy(sub.buf.Content(), buf.Content(), begin, n, Extent(n, begin % 8)); }
      o := if defined then Done else Undefined;
    }

    /** A range that begins at bit r of byte q, seen in bytes. */
    static lemma {:induction false} RangeInBytes(bits: nat, q: nat, r: nat, n: nat)
      requires 8 * q + r + n <= bits && n > 0
      ensures 8 * (q + Units(n + r, 8)) <= 64 * Units(bits, 64)
    {
      hide Units;
      var u, v := Units(n + r, 8), Units(bits, 64);
      assert 8 * (u - 1) < n + r && bits <= 64 * v;
      Rounded(q + u, 8 * v);
    }

    static lemma {:induction false} BytesInWords(n: nat)
      ensures Units(n, 8) <= 8 * Units(n, 64)
    {
      hide Units;
      var u, v := Units(n, 8), Units(n, 64);
      assert u > 0 ==> 8 * (u - 1) < n <= 64 * v;
      if u > 0 { Rounded(u, 8 * v); }
    }

    static lemma Rounded(x: int, y: int)
      requires 8 * (x - 1) < 8 * y
      ensures x <= y
    {
    }

    static lemma {:induction false} FullWords(n: nat)
      ensures Units(n, 8) == 8 * Units(n, 64) <==> Units(n, 8) % 8 == 0
    {
      hide Units;
      var k := Units(n, 8) / 8;
      assert Units(n, 8) % 8 == 0 <==> Units(n, 8) == 8 * k;
      Multiple8(Units(n, 64), k, Units(n, 8));
    }

    static lemma Multiple8(words: nat, k: nat, bytes: nat)
      requires k == bytes / 8
      ensures bytes == 8 * words ==> k == words
    {
    }

    /** `memcpy`, for a range that begins with a byte. */
    method CopyAligned(sub: BinArray, from: nat, n: nat)
      requires sub.buf.bytes != buf.bytes
      requires Units(n, 8) <= sub.buf.bytes.Length && from + Units(n, 8) <= buf.bytes.Length
      requires ClearFrom(sub.buf.Content(), 0)
      modifies sub.buf.bytes
      ensures Arrived(sub, 8 * from, 8 * Units(n, 8), 8 * Units(n, 8))
    {
      hide Splice, Copied, ClearFrom;
      var size := Units(n, 8);
      CopiedAligned(sub.buf.Content(), buf.Content(), from, size);
      var w := buf.Read(from, size);
      sub.buf.Write(0, size, w);
    }

    /** `*(uintN_t*) (sub + at) = *(uintN_t*) (buf + from + at) >> rshift`, or its low `keep` bytes;
        false when either access leaves its buffer. */
    method CopyUnit(sub: BinArray, from: nat, rshift: nat, at: nat, count: nat, keep: nat) returns (defined: bool)
      requires sub.buf.bytes != buf.bytes && rshift <= 8 * count && keep <= count
      modifies sub.buf.bytes
      ensures defined <==> from + at + count <= buf.bytes.Length && at + keep <= sub.buf.bytes.Length
      ensures defined ==> sub.buf.Content() == Splice(old(sub.buf.Content()), 8 * at,
        ShiftRight(buf.Content()[8 * (from + at)..8 * (from + at) + 8 * count], rshift, false)[..8 * keep])
    {
      hide *;
      defined := from + at + count <= buf.bytes.Length && at + keep <= sub.buf.bytes.Length;
      if defined {
        var read := buf.Read(from + at, count);
        var shifted := ShiftRight(read, rshift, false);
        sub.buf.Write(at, keep, shifted[..8 * keep]);
      }
    }

    /** What has arrived in a copy: the first m bits, and nothing is set from bit c on. */
    ghost predicate Arrived(sub: BinArray, begin: nat, m: nat, c: nat)
      reads sub.buf.bytes, buf.bytes
    {
      Copied(sub.buf.Content(), buf.Content(), begin, m) && ClearFrom(sub.buf.Content(), c)
    }

    /** `steps` accesses of `count` bytes, each `stride` bytes after the last. */
    method CopySteps(sub: BinArray, from: nat, rshift: nat, start: nat, steps: nat, count: nat, stride: nat)
      returns (defined: bool)
      requires sub.buf.bytes != buf.bytes && 1 <= rshift < 8 && count == stride + 1
      requires Arrived(sub, 8 * from + rshift, 8 * start, 8 * (start + 1))
      requires steps > 0 ==> from + Reach(start, stride, steps - 1) + count <= buf.bytes.Length
      modifies sub.buf.bytes
      ensures defined <==> (steps > 0 ==> Reach(start, stride, steps - 1) + count <= sub.buf.bytes.Length)
      ensures defined ==>
        var end := Reach(start, stride, steps);
        Arrived(sub, 8 * from + rshift, 8 * end, 8 * (end + 1))
    {
      hide *;
      var at := start;
      ReachStart(start, stride);
      for i := 0 to steps
        invariant at == Reach(start, stride, i)
        invariant i > 0 ==> Reach(start, stride, i - 1) + count <= sub.buf.bytes.Length
        invariant Arrived(sub, 8 * from + rshift, 8 * at, 8 * (at + 1))
      {
        ReachNext(start, stride, i);
        ReachGrows(start, stride, i, steps - 1);
        defined := CopyStep(sub, from, rshift, at, stride);
        if !defined { return; }
        at := at + stride;
      }
      return true;
    }

    /** One of them; all but the last byte's worth of bits arrives. */
    method CopyStep(sub: BinArray, from: nat, rshift: nat, at: nat, stride: nat) returns (defined: bool)
      requires sub.buf.bytes != buf.bytes && 1 <= rshift < 8
      requires Arrived(sub, 8 * from + rshift, 8 * at, 8 * (at + 1))
      modifies sub.buf.bytes
      ensures defined <==> from + at + stride + 1 <= buf.bytes.Length && at + stride + 1 <= sub.buf.bytes.Length
      ensures defined ==> Arrived(sub, 8 * from + rshift, 8 * (at + stride), 8 * (at + stride + 1))
    {
      hide Copied, ClearFrom, Splice, ShiftRight, Memory.Content;
      ghost var s, bits := sub.buf.Content(), buf.Content();
      var count := stride + 1;
      defined := CopyUnit(sub, from, rshift, at, count, count);
      if defined {
        CopiedUnit(s, bits, from, rshift, at, count, count, 8 * stride);
        ClearUnit(s, bits[8 * (from + at)..8 * (from + at) + 8 * count], rshift, at, count, count, 8 * count);
      }
    }

    /** The copy of a range that begins inside a byte. */
    method CopyShifted(sub: BinArray, from: nat, rshift: nat, n: nat) returns (defined: bool)
      requires sub.buf.bytes != buf.bytes && 1 <= rshift < 8 && n > 0 && ClearFrom(sub.buf.Content(), 0)
      requires var p := PlanOf(n, rshift); from + p.over <= buf.bytes.Length && p.size <= sub.buf.bytes.Length
      modifies sub.buf.bytes
      ensures var p := PlanOf(n, rshift);
        defined <==> !(p.over != p.size && p.size >= 8 && p.size % 7 == 0 &&
                       (p.size == sub.buf.bytes.Length || from + p.over >= buf.bytes.Length))
      ensures defined ==> Arrived(sub, 8 * from + rshift, Extent(n, rshift), Extent(n, rshift))
    {
      hide *;
      var p := PlanOf(n, rshift);
      PlanFacts(n, rshift);
      ExtentIs(n, rshift);
      NothingArrived(sub, 8 * from + rshift);
      ReachLiteral(0, p.wide);
      defined := CopySteps(sub, from, rshift, 0, p.wide, 8, 7);
      if !defined { return; }
      var at := 7 * p.wide;
      if p.narrow > 0 {
        ReachLiteral(at, p.narrow);
        defined := CopySteps(sub, from, rshift, at, p.narrow, 2, 1);
        if !defined { return; }
        at := at + p.narrow;
      }
      defined := CopyLast(sub, from, rshift, at, p.over != p.size);
    }

    lemma {:induction false} NothingArrived(sub: BinArray, begin: nat)
      requires ClearFrom(sub.buf.Content(), 0) && begin <= 8 * buf.bytes.Length
      ensures Arrived(sub, begin, 0, 8)
    {
    }

    static lemma {:induction false} ExtentIs(n: nat, rshift: nat)
      requires 1 <= n && 1 <= rshift < 8
      ensures var p := PlanOf(n, rshift);
        Extent(n, rshift) == 8 * (7 * p.wide + if p.narrow > 0 then p.narrow else 0)
                             + if p.over != p.size then 8 else 8 - rshift
    {
      hide PlanOf;
    }

    /** The last byte, put together from two source bytes or taken from one. */
    method CopyLast(sub: BinArray, from: nat, rshift: nat, at: nat, state: bool) returns (defined: bool)
      requires sub.buf.bytes != buf.bytes && 1 <= rshift < 8
      requires Arrived(sub, 8 * from + rshift, 8 * at, 8 * (at + 1))
      modifies sub.buf.bytes
      ensures defined <==> from + at + (if state then 2 else 1) <= buf.bytes.Length && at + 1 <= sub.buf.bytes.Length
      ensures defined ==>
        var m := 8 * at + if state then 8 else 8 - rshift;
        Arrived(sub, 8 * from + rshift, m, m)
    {
      hide Copied, ClearFrom, Splice, ShiftRight, Memory.Content;
      ghost var s, bits := sub.buf.Content(), buf.Content();
      var count := if state then 2 else 1;
      ghost var m := if state then 8 else 8 - rshift;
      defined := CopyUnit(sub, from, rshift, at, count, 1);
      if defined {
        CopiedUnit(s, bits, from, rshift, at, count, 1, m);
        ClearUnit(s, bits[8 * (from + at)..8 * (from + at) + 8 * count], rshift, at, count, 1, m);
      }
    }

    /** `baGetInvert`: whole words first, then the bytes of the last, partial word. */
    method GetInvert(granted: bool) returns (inv: BinArray?)
      requires Valid()
      ensures inv != null <==> granted
      ensures inv != null ==> fresh(inv) && fresh(inv.buf.bytes) && inv.Valid() && inv.numBits == numBits
      ensures 8 * Units(numBits, 8) <= 8 * buf.bytes.Length
      ensures inv != null ==> inv.buf.Content() == Inverse(buf.Content(), 8 * Units(numBits, 8))
      ensures inv != null && Clean() ==> (inv.Clean() <==> numBits % 8 == 0)
    {
      hide Units, Splice, Not, Repeat, ClearFrom;
      inv := Create(numBits, granted);
      WholeWordsFit(numBits);
      if inv == null { return; }
      ghost var zeros, bits := inv.buf.Content(), buf.Content();
      InverseNothing(zeros, bits);
      CopyInverted(inv, zeros, numBits / 64, Units(numBits % 64, 8));
      WholeBytes(numBits);
      if Clean() { ClearInverse(bits, 8 * Units(numBits, 8), numBits); }
    }

    static lemma {:induction false} WholeBytes(bits: nat)
      ensures bits == 8 * Units(bits, 8) <==> bits % 8 == 0
    {
    }

    static lemma {:induction false} WholeWordsFit(bits: nat)
      ensures Units(bits, 8) == 8 * (bits / 64) + Units(bits % 64, 8) <= 8 * Units(bits, 64)
    {
    }

    method CopyInverted(inv: BinArray, ghost zeros: seq<bool>, words: nat, rest: nat)
      requires inv.buf.bytes != buf.bytes && inv.buf.bytes.Length == buf.bytes.Length >= 8 * words + rest
      requires zeros == inv.buf.Content() == Splice(zeros, 0, Not(buf.Content()[..0]))
      modifies inv.buf.bytes
      ensures inv.buf.Content() == Splice(zeros, 0, Not(buf.Content()[..8 * (8 * words + rest)]))
    {
      hide *;
      ghost var bits := buf.Content();
      for i := 0 to words
        invariant inv.buf.Content() == Splice(zeros, 0, Not(bits[..64 * i]))
      {
        InverseSoFar(zeros, bits, 64 * i, 64 * (i + 1));
        var word := buf.Read(8 * i, 8);
        inv.buf.Write(8 * i, 8, Not(word));
      }
      var at := 8 * words;
      for i := 0 to rest
        invariant inv.buf.Content() == Splice(zeros, 0, Not(bits[..8 * (at + i)]))
      {
        InverseSoFar(zeros, bits, 8 * (at + i), 8 * (at + i + 1));
        var byte := buf.Read(at + i, 1);
        inv.buf.Write(at + i, 1, Not(byte));
      }
    }
  }

  /** `baGetInvert (arr)` and `baInvert (arr, 0, -1)` flip every bit of the array, and agree on it;
      inverting in place twice brings every bit of the array back. */
  lemma {:induction false} InversionsAgree(bits: seq<bool>, numBits: nat, k: nat)
    requires k < numBits && |bits| == 64 * Units(numBits, 64) && 8 * Units(numBits, 8) <= |bits|
    ensures
      var copy := Inverse(bits, 8 * Units(numBits, 8));
      var inPlace := InvertedWhole(bits, numBits);
      copy[k] == inPlace[k] == !bits[k] && InvertedWhole(inPlace, numBits)[k] == bits[k]
  {
    hide InvertedBits, Inverse, Units;
    InvertedAt(bits, 0, 0, numBits, k);
    InvertedTwice(bits, 0, 0, numBits, k);
    InverseAt(bits, 8 * Units(numBits, 8), k);
  }

  lemma {:induction false} InverseAt(bits: seq<bool>, size: nat, k: nat)
    requires k < size <= |bits|
    ensures Inverse(bits, size)[k] == !bits[k]
  {
    hide Splice, Repeat, Not;
    var taken := bits[..size];
    assert taken[k] == bits[k] && Not(taken)[k] == !taken[k];
    SpliceAt(Repeat(|bits|, false), 0, Not(taken), k);
  }

  /** An inversion is defined exactly when the range is not empty and the number of 64-bit words it
      touches is at most 1, or leaves remainder 2 or 3 modulo 4 and is not so large that the length
      underflows. */
  lemma {:induction false} InvertibleRanges(arr: BinArray, begin: nat, len: int)
    requires arr.InRange(begin, len)
    ensures arr.Invertible(begin, len) <==>
            var n := if len == -1 then arr.numBits - begin else len;
            var words := Units(begin % 64 + n, 64);
            n > 0 && (words <= 1
                      || (words % 4 in {2, 3}
                          && 64 * ((words - 2) * (words - 2)) - (begin % 64 + n - 64) <= 0x8000_0000_0000_0000))
  {
    hide Units;
    var n := arr.Length(begin, len);
    if n > 0 {
      OneWordLess(begin % 64 + n);
      TwoLess(Units(begin % 64 + n, 64));
    }
  }

  /** A whole-array inversion is defined exactly when the number of 64-bit words is at most 2, or
      leaves remainder 2 or 3 modulo 4 and is not so large that the length underflows. */
  lemma {:induction false} WholeInversion(arr: BinArray)
    requires arr.Valid()
    ensures arr.Invertible(0, -1) <==>
            var words := Units(arr.numBits, 64);
            words <= 2
            || (words % 4 in {2, 3}
                && 64 * ((words - 2) * (words - 2)) - (arr.numBits - 64) <= 0x8000_0000_0000_0000)
  {
    hide Units;
    OneWordLess(arr.numBits);
    TwoLess(Units(arr.numBits, 64));
  }

  /** Four words, or 200 bits, are such a size: the loop over the two inner words takes 256 off a
      length of 136. */
  lemma {:induction false} NoWholeInversion(arr: BinArray)
    requires arr.Valid() && arr.numBits == 200
    ensures !arr.Invertible(0, -1)
  {
    WholeInversion(arr);
  }

  /** A copy overruns exactly when its bits fill whole sevens of bytes, at least 14, spread over one byte
      more in the source, and either leave no spare byte in the copy's last word or end in the source's
      last one. */
  lemma {:induction false} OverrunningRanges(arr: BinArray, begin: nat, n: nat)
    requires arr.Valid() && begin + n <= arr.numBits
    ensures arr.Overruns(begin, n) <==>
            var size := (n + 7) / 8;
            && size >= 14 && size % 7 == 0 && begin % 8 + (n - 1) % 8 >= 8
            && (size % 8 == 0 || begin / 8 + size + 1 == 8 * ((arr.numBits + 63) / 64))
  {
    if n > 0 && begin % 8 > 0 {
      hide Units, PlanOf;
      PlanFacts(n, begin % 8);
      SpreadOver(n, begin % 8);
      BinArray.RangeInBytes(arr.numBits, begin / 8, begin % 8, n);
      RoundedUp(n, 8);
      RoundedUp(arr.numBits, 64);
    }
  }

  lemma {:induction false} RoundedUp(n: nat, unit: nat)
    requires unit in {8, 64}
    ensures Units(n, unit) == (n + unit - 1) / unit
  {
  }

  lemma {:induction false} SpreadOver(n: nat, r: nat)
    requires 1 <= n && 1 <= r < 8
    ensures Units(n + r, 8) == Units(n, 8) + if r + (n - 1) % 8 >= 8 then 1 else 0
  {
  }

  /** A range that overruns: 112 bits from bit 9 of two words; the copy takes 14 bytes, twice 7, and
      the two bytes loaded for the last one begin with the source's last byte. */
  lemma {:induction false} OverrunningRange(arr: BinArray)
    requires arr.Valid() && arr.numBits == 128
    ensures arr.InRange(9, 112) && arr.Overruns(9, 112)
  {
  }

  lemma {:induction false} OneWordLess(n: nat)
    requires n > 0
    ensures Units(n, 64) >= 1 && (n <= 64 <==> Units(n, 64) == 1)
    ensures n > 64 ==> Units(n - 64, 64) == Units(n, 64) - 1
  {
  }

  lemma TwoLess(words: int)
    ensures (words - 2) % 4 in {0, 1} <==> words % 4 in {2, 3}
  {
  }

  /** The clean case the interface advertises: with the bits behind the array all clear and at most
      2^32 bits, searching the rest of the array for ones is exact. */
  lemma {:induction false} FindOneToTheEnd(bits: seq<bool>, begin: nat, numBits: nat)
    requires begin < numBits <= 0x1_0000_0000 && 64 * Units(numBits, 64) == |bits|
    requires ClearFrom(bits, numBits)
    ensures FindAnswer(bits, true, begin, numBits - begin) == First(bits, true, begin, numBits)
  {
    hide First, FindAnswer, Reported, Units, Visited;
    FindExact(bits, true, begin, numBits - begin);
    if 64 * Units(begin, 64) < numBits { VisitedFits(begin, numBits - begin); }
  }

  /** The stray answer: ones sought in bits 0..64 of a 128-bit buffer whose only one is bit 66. */
  lemma {:induction false} FindStray()
    ensures var bits := Repeat(128, false)[66 := true];
      && First(bits, true, 0, 65) == -1 && FindAnswer(bits, true, 0, 65) == 66
  {
    hide Repeat, First;
    var bits := Repeat(128, false)[66 := true];
    assert Visited(65) == 2 && bits[66];
    assert First(bits, true, 0, 128) == 66;
  }
}
