/** What the bit array's range operations mean on a plain list of bits, and the word-level steps
    that compute it: masks, inversion, search and shifted copies. */
module BitRanges {
  import opened Common
  import opened Machine

  /** `baGetSizeArrayIn8Byte` and `baBits2Bytes`: how many units of `unit` bits hold `bits` bits. */
  function Units(bits: nat, unit: nat): (n: nat)
    requires unit > 0
    ensures unit * n >= bits && (n > 0 ==> unit * (n - 1) < bits)
  {
    bits / unit + if bits % unit != 0 then 1 else 0
  }

  // ------------------------------------------------------------------ masks

  /** A length as the `uint8_t` a mask helper receives, and whether its shift count 64 - len is
      one C defines. */
  function Low8(len: int): (r: nat)
    ensures r < 256
  {
    len % 256
  }

  predicate MaskDefined(len: int) { 1 <= Low8(len) <= 64 }

  lemma {:induction false} WholeMask(len: int)
    requires 0 <= len <= 64
    ensures Low8(len) == len && (MaskDefined(len) <==> len > 0)
  {
  }

  lemma {:induction false} MaskFits(len: int)
    ensures MaskDefined(len) ==> Low8(len) <= 64
  {
  }

  /** `_baGetMaskFirtsQWord (rshift, len)`, and with rshift 0 `_baGetMaskLastQWord (len)`. */
  function Mask(rshift: nat, len: int): (m: Word)
    requires MaskDefined(len) && rshift <= 64
    ensures forall k | 0 <= k < 64 :: m[k] <==> rshift <= k < rshift + Low8(len)
  {
    ShiftLeft(ShiftRight(Repeat(64, true), 64 - Low8(len), false), rshift)
  }

  /** `word | mask` or `word & ~mask`. */
  function Blended(word: Word, mask: Word, v: bool): (r: Word)
  {
    if v then Or(word, mask) else And(word, Not(mask))
  }

  lemma {:induction false} BlendedWord(word: Word, rshift: nat, len: nat, v: bool)
    requires 1 <= len && rshift + len <= 64 && MaskDefined(len)
    ensures Blended(word, Mask(rshift, len), v) == Splice(word, rshift, Repeat(len, v))
  {
    hide Mask, Low8, MaskDefined, Or, And, Not, Repeat;
    var mask := Mask(rshift, len);
    WholeMask(len);
    forall k | 0 <= k < 64 ensures Blended(word, mask, v)[k] == Splice(word, rshift, Repeat(len, v))[k] {
      assert mask[k] <==> rshift <= k < rshift + len;
    }
  }

  lemma {:induction false} BlendedBits(bits: seq<bool>, q: nat, rshift: nat, len: nat, v: bool)
    requires 64 * (q + 1) <= |bits| && 1 <= len && rshift + len <= 64 && MaskDefined(len)
    ensures WithWords(bits, q, Blended(WordsAt(bits, q, q + 1), Mask(rshift, len), v))
         == Splice(bits, 64 * q + rshift, Repeat(len, v))
  {
    hide Blended, Mask, Splice, Repeat, Low8, MaskDefined;
    BlendedWord(WordsAt(bits, q, q + 1), rshift, len, v);
    SpliceWithin(bits, 64 * q, 64, rshift, Repeat(len, v));
  }

  lemma {:induction false} FilledInThree(bits: seq<bool>, q: nat, rshift: nat, words: nat, tail: nat, v: bool)
    requires rshift < 64 && 64 * (q + 1 + words) + tail <= |bits|
    ensures
      Splice(Splice(Splice(bits, 64 * q + rshift, Repeat(64 - rshift, v)),
                    64 * (q + 1), Repeat(64 * words, v)),
             64 * (q + 1 + words) + 0, Repeat(tail, v))
      == Splice(bits, 64 * q + rshift, Repeat(64 - rshift + 64 * words + tail, v))
  {
    hide *;
    SpliceRepeat(bits, 64 * q + rshift, 64 - rshift, 64 * words, v);
    SpliceRepeat(bits, 64 * q + rshift, 64 - rshift + 64 * words, tail, v);
  }

  /** `*obj |= mask` or `*obj &= ~mask` with the mask for one bit of a byte. */
  function Poked(byte: Octet, k: nat, v: bool): (r: Octet)
    requires k < 8
  {
    var mask := ShiftLeft([true] + Repeat(7, false), k);
    if v then Or(byte, mask) else And(byte, Not(mask))
  }

  lemma {:induction false} PokedIs(byte: Octet, k: nat, v: bool)
    requires k < 8
    ensures Poked(byte, k, v) == Splice(byte, k, [v])
  {
    hide ShiftLeft, Repeat, Or, And, Not;
    var mask := ShiftLeft([true] + Repeat(7, false), k);
    assert forall j | 0 <= j < 8 :: mask[j] == (j == k);
    forall j | 0 <= j < 8 ensures Splice(byte, k, [v])[j] == if j == k then v else byte[j] {}
  }

  lemma {:induction false} PokedBits(bits: seq<bool>, j: nat, k: nat, v: bool)
    requires 8 * (j + 1) <= |bits| && k < 8
    ensures Splice(bits, 8 * j, Poked(bits[8 * j..8 * j + 8], k, v)) == bits[8 * j + k := v]
  {
    hide Poked, Splice;
    PokedIs(bits[8 * j..8 * j + 8], k, v);
    SpliceWithin(bits, 8 * j, 8, k, [v]);
    SpliceOne(bits, 8 * j + k, v);
  }

  // ------------------------------------------------------------------ inversion

  /** What `baInvert` leaves behind for a non-empty range that starts at bit `rshift` of word `q`:
      the range flipped, the rest of its first and last word cleared, all other words kept. */
  function InvertedBits(bits: seq<bool>, q: nat, rshift: nat, n: nat): (r: seq<bool>)
    requires rshift < 64 && 64 * (q + Units(rshift + n, 64)) <= |bits|
    ensures |r| == |bits|
  {
    var begin := 64 * q + rshift;
    Splice(bits, 64 * q,
           Repeat(rshift, false) + Not(bits[begin..begin + n])
           + Repeat(64 * Units(rshift + n, 64) - rshift - n, false))
  }

  /** The same for a whole array of n bits. */
  function InvertedWhole(bits: seq<bool>, n: nat): (r: seq<bool>)
    requires 64 * Units(n, 64) <= |bits|
    ensures |r| == |bits|
  {
    InvertedBits(bits, 0, 0, n)
  }

  /** `~(word & mask) & mask` for a mask of `len` bits from `rshift`. */
  function MaskedNot(word: seq<bool>, rshift: nat, len: nat): (r: Word)
    requires |word| == 64 && rshift + len <= 64
  {
    Repeat(rshift, false) + Not(word[rshift..rshift + len]) + Repeat(64 - rshift - len, false)
  }

  lemma {:induction false} MaskedNotIs(word: Word, rshift: nat, len: int)
    requires MaskDefined(len) && rshift + Low8(len) <= 64
    ensures And(Not(And(word, Mask(rshift, len))), Mask(rshift, len)) == MaskedNot(word, rshift, Low8(len))
  {
    hide Mask, Low8, MaskDefined, And, Not, Repeat;
    var mask, n := Mask(rshift, len), Low8(len);
    var flipped := MaskedNot(word, rshift, n);
    forall k | 0 <= k < 64 ensures flipped[k] == (mask[k] && !word[k]) {
      if rshift <= k < rshift + n { assert flipped[k] == !word[rshift..rshift + n][k - rshift]; }
    }
  }

  lemma {:induction false} InvertedInOne(bits: seq<bool>, q: nat, rshift: nat, n: nat)
    requires 1 <= n && rshift + n <= 64 && 64 * (q + 1) <= |bits|
    ensures Units(rshift + n, 64) == 1
    ensures WithWords(bits, q, MaskedNot(WordsAt(bits, q, q + 1), rshift, n)) == InvertedBits(bits, q, rshift, n)
  {
    hide Splice, Repeat, Not, Units;
    SliceSlice(bits, 64 * q, 64 * (q + 1), rshift, rshift + n);
  }

  lemma {:induction false} InvertedInThree(bits: seq<bool>, q: nat, rshift: nat, words: nat, tail: nat,
                        one: seq<bool>, two: seq<bool>, three: seq<bool>)
    requires rshift < 64 && 1 <= tail <= 64
    requires 64 * (q + words + 2) <= |bits|
    requires one == WithWords(bits, q, MaskedNot(WordsAt(bits, q, q + 1), rshift, 64 - rshift))
    requires two == WithWords(one, q + 1, Not(WordsAt(one, q + 1, q + 1 + words)))
    requires three == WithWords(two, q + 1 + words,
                                MaskedNot(WordsAt(two, q + 1 + words, q + 1 + words + 1), 0, tail))
    ensures Units(64 + 64 * words + tail, 64) == words + 2
    ensures three == InvertedBits(bits, q, rshift, 64 - rshift + 64 * words + tail)
  {
    hide Splice, Repeat, Not;
    var last := q + 1 + words;
    var low, mid := bits[64 * q + rshift..64 * (q + 1)], WordsAt(bits, q + 1, last);
    var high := bits[64 * last..64 * last + tail];
    var a, c := Repeat(rshift, false) + Not(low), Not(high) + Repeat(64 - tail, false);
    SliceSlice(bits, 64 * q, 64 * (q + 1), rshift, 64);
    assert MaskedNot(WordsAt(bits, q, q + 1), rshift, 64 - rshift) == a;
    SliceKept(bits, 64 * q, a, 64 * (q + 1), 64 * last);
    SliceKept(bits, 64 * q, a, 64 * last, 64 * (last + 1));
    SliceKept(one, 64 * (q + 1), Not(mid), 64 * last, 64 * (last + 1));
    SliceSlice(bits, 64 * last, 64 * (last + 1), 0, tail);
    assert MaskedNot(WordsAt(two, last, last + 1), 0, tail) == c;
    SpliceThree(bits, 64 * q, a, Not(mid), c);
    ThreeSlices(bits, 64 * q + rshift, 64 * (q + 1), 64 * last, 64 * last + tail);
    NotAppend(low, mid);
    NotAppend(low + mid, high);
    Reassociate(Repeat(rshift, false), Not(low), Not(mid), Not(high), Repeat(64 - tail, false));
  }

  lemma {:induction false} Reassociate(s: seq<bool>, t: seq<bool>, u: seq<bool>, v: seq<bool>, w: seq<bool>)
    ensures (s + t) + u + (v + w) == s + (t + u + v) + w
  {
  }

  lemma {:induction false} ThreeSlices(bits: seq<bool>, a: nat, b: nat, c: nat, d: nat)
    requires a <= b <= c <= d <= |bits|
    ensures bits[a..d] == bits[a..b] + bits[b..c] + bits[c..d]
  {
  }

  lemma {:induction false} SliceSlice(bits: seq<bool>, lo: nat, hi: nat, from: nat, to: nat)
    requires lo <= hi <= |bits| && from <= to <= hi - lo
    ensures bits[lo..hi][from..to] == bits[lo + from..lo + to]
  {
    forall k | 0 <= k < to - from ensures bits[lo..hi][from..to][k] == bits[lo + from..lo + to][k] {}
  }

  lemma {:induction false} SliceKept(bits: seq<bool>, from: nat, w: seq<bool>, lo: nat, hi: nat)
    requires from + |w| <= lo <= hi <= |bits|
    ensures Splice(bits, from, w)[lo..hi] == bits[lo..hi]
  {
  }

  lemma {:induction false} NotAppend(v: seq<bool>, w: seq<bool>)
    ensures Not(v + w) == Not(v) + Not(w)
  {
  }

  lemma {:induction false} SpliceThree(bits: seq<bool>, from: nat, u: seq<bool>, v: seq<bool>, w: seq<bool>)
    requires from + |u| + |v| + |w| <= |bits|
    ensures Splice(Splice(Splice(bits, from, u), from + |u|, v), from + |u| + |v|, w) == Splice(bits, from, u + v + w)
  {
    SpliceSplice(bits, from, u, v);
    SpliceSplice(bits, from, u + v, w);
  }

  lemma {:induction false} InvertedNothing(bits: seq<bool>, q: nat)
    requires 64 * q <= |bits|
    ensures WithWords(bits, q, Not(WordsAt(bits, q, q))) == bits
  {
  }

  lemma {:induction false} InvertedSoFar(bits: seq<bool>, q: nat, r: nat)
    requires q <= r && 64 * (r + 1) <= |bits|
    ensures var now := WithWords(bits, q, Not(WordsAt(bits, q, r)));
      WithWords(now, r, Not(WordsAt(now, r, r + 1))) == WithWords(bits, q, Not(WordsAt(bits, q, r + 1)))
  {
    hide Splice, Not;
    SliceKept(bits, 64 * q, Not(WordsAt(bits, q, r)), 64 * r, 64 * (r + 1));
    assert WordsAt(bits, q, r + 1) == WordsAt(bits, q, r) + WordsAt(bits, r, r + 1);
    NotAppend(WordsAt(bits, q, r), WordsAt(bits, r, r + 1));
    SpliceSplice(bits, 64 * q, Not(WordsAt(bits, q, r)), Not(WordsAt(bits, r, r + 1)));
  }

  /** Bit by bit: only the range and its two boundary words can change. */
  lemma {:induction false} InvertedAt(bits: seq<bool>, q: nat, rshift: nat, n: nat, k: nat)
    requires rshift < 64 && n > 0 && 64 * (q + Units(rshift + n, 64)) <= |bits| && k < |bits|
    ensures InvertedBits(bits, q, rshift, n)[k] ==
            if 64 * q + rshift <= k < 64 * q + rshift + n then !bits[k]
            else bits[k] && !(64 * q <= k < 64 * (q + Units(rshift + n, 64)))
  {
    var begin := 64 * q + rshift;
    if begin <= k < begin + n { assert bits[begin..begin + n][k - begin] == bits[k]; }
  }

  /** Inverting twice restores the range and leaves the rest of the boundary words cleared. */
  lemma {:induction false} InvertedTwice(bits: seq<bool>, q: nat, rshift: nat, n: nat, k: nat)
    requires rshift < 64 && n > 0 && 64 * (q + Units(rshift + n, 64)) <= |bits| && k < |bits|
    ensures InvertedBits(InvertedBits(bits, q, rshift, n), q, rshift, n)[k] ==
            (bits[k] && (64 * q + rshift <= k < 64 * q + rshift + n
                         || !(64 * q <= k < 64 * (q + Units(rshift + n, 64)))))
  {
    InvertedAt(bits, q, rshift, n, k);
    InvertedAt(InvertedBits(bits, q, rshift, n), q, rshift, n, k);
  }

  /** No signed overflow of an `ssize_t` that only shrinks. */
  predicate FitsSsize(n: int) { -SSIZE_LIMIT <= n }

  lemma {:induction false} FitsSsizeMonotone(n: int, m: int)
    requires n <= m
    ensures FitsSsize(n) ==> FitsSsize(m)
    ensures 0 <= n ==> FitsSsize(n)
  {
  }

  // ------------------------------------------------------------------ search

  /** The least index in [lo, hi) whose bit is `v`, or -1. */
  function First(bits: seq<bool>, v: bool, lo: nat, hi: nat): (p: int)
    requires hi <= |bits|
    ensures p == -1 <==> forall k | lo <= k < hi :: bits[k] != v
    ensures p != -1 ==> lo <= p < hi && bits[p] == v && forall k | lo <= k < p :: bits[k] != v
    decreases hi - lo
  {
    if lo >= hi then -1 else if bits[lo] == v then lo else First(bits, v, lo + 1, hi)
  }

  /** The words a search visits after its partial first word: a `uint32_t`, so the word count is
      taken modulo 2^32. */
  function Visited(rest: nat): nat { Units(rest, 64) % 0x1_0000_0000 }

  /** What `baFindOne` and `baFindZero` answer for an accepted range of `n` bits.  A search that
      leaves its first word goes on to the end of a whole word, compares the hit's offset inside
      its word with the bits left, and computes 64 * i in 32 bits. */
  function FindAnswer(bits: seq<bool>, v: bool, begin: nat, n: nat): (p: int)
    requires 64 * Units(begin + n, 64) <= |bits|
  {
    var aligned := 64 * Units(begin, 64);
    if begin + n <= aligned then First(bits, v, begin, begin + n)
    else
      var head := First(bits, v, begin, aligned);
      if head != -1 then head
      else
        var rest := begin + n - aligned;
        VisitedFits(begin, n);
        var hit := First(bits, v, aligned, 64 * (Units(begin, 64) + Visited(rest)));
        if hit == -1 then -1 else Reported(Units(begin, 64), rest, hit)
  }

  /** What the search makes of a hit in its whole words, which begin at word `a`. */
  function Reported(a: nat, rest: nat, hit: nat): (p: int)
  {
    if hit % 64 >= rest then -1 else 64 * a + 64 * ((hit - 64 * a) / 64) % 0x1_0000_0000 + hit % 64
  }

  lemma {:induction false} ReportedAs(a: nat, rest: nat, i: nat, offset: nat)
    requires offset < 64
    ensures Reported(a, rest, 64 * (a + i) + offset) ==
            if offset < rest then (64 * i) % 0x1_0000_0000 + 64 * a + offset else -1
  {
    assert (64 * (a + i) + offset) % 64 == offset;
  }

  lemma {:induction false} ReportedIs(a: nat, rest: nat, hit: nat)
    requires 64 * a <= hit
    ensures hit < 64 * a + rest ==> (Reported(a, rest, hit) == hit <==> (hit - 64 * a) / 64 < 0x400_0000)
    ensures 64 * a + rest <= hit ==> (Reported(a, rest, hit) != -1 <==> hit % 64 < rest)
    ensures 64 * a + rest <= hit && rest > 64 ==> Reported(a, rest, hit) != -1
    ensures 64 * a + rest <= hit < 64 * a + 64 ==> Reported(a, rest, hit) == -1
  {
    var j := (hit - 64 * a) / 64;
    assert hit == 64 * a + 64 * j + hit % 64;
    assert 64 * j % 0x1_0000_0000 == 64 * j <==> j < 0x400_0000;
  }

  lemma {:induction false} VisitedFits(begin: nat, n: nat)
    requires 64 * Units(begin, 64) < begin + n
    ensures var a, rest := Units(begin, 64), begin + n - 64 * Units(begin, 64);
      && Units(begin + n, 64) == a + Units(rest, 64)
      && Visited(rest) <= Units(rest, 64)
      && (Units(rest, 64) < 0x1_0000_0000 ==> Visited(rest) == Units(rest, 64))
      && (Units(rest, 64) >= 0x1_0000_0000 ==> 64 * Visited(rest) < rest)
      && (rest <= 64 ==> Visited(rest) == 1)
  {
  }

  /** When the search is right, in terms of the range and of the bits behind it: a hit must lie in
      the first word or among the first 2^26 visited ones; without a hit, the bits behind the
      range in its last word must hold none, unless that word is the search's first or second. */
  predicate FindsRight(bits: seq<bool>, v: bool, begin: nat, n: nat)
    requires 64 * Units(begin + n, 64) <= |bits|
  {
    var aligned := 64 * Units(begin, 64);
    var wanted := First(bits, v, begin, begin + n);
    if wanted != -1 then
      wanted < aligned || (wanted - aligned) / 64 < Least(Visited(begin + n - aligned), 0x400_0000)
    else
      begin + n <= aligned + 64 || Units(begin + n - aligned, 64) >= 0x1_0000_0000
      || First(bits, v, begin + n, 64 * Units(begin + n, 64)) == -1
  }

  /** The search answers the least index of the wanted bit in the range, and -1 exactly when there
      is none, if and only if `FindsRight`. */
  lemma {:induction false} FindExact(bits: seq<bool>, v: bool, begin: nat, n: nat)
    requires 64 * Units(begin + n, 64) <= |bits|
    ensures FindAnswer(bits, v, begin, n) == First(bits, v, begin, begin + n) <==> FindsRight(bits, v, begin, n)
  {
    if begin + n <= 64 * Units(begin, 64) || First(bits, v, begin, 64 * Units(begin, 64)) != -1 {
    } else if First(bits, v, begin, begin + n) != -1 {
      FindHit(bits, v, begin, n);
    } else {
      FindMiss(bits, v, begin, n);
    }
  }

  /** For callers: in a range of at most 2^32 bits a wanted bit is always found, and the first one. */
  lemma {:induction false} FindsWhatIsThere(bits: seq<bool>, v: bool, begin: nat, n: nat)
    requires 64 * Units(begin + n, 64) <= |bits| && n <= 0x1_0000_0000
    requires First(bits, v, begin, begin + n) != -1
    ensures FindAnswer(bits, v, begin, n) == First(bits, v, begin, begin + n)
  {
    hide First, FindAnswer, Units, Visited;
    FindExact(bits, v, begin, n);
    var aligned, wanted := 64 * Units(begin, 64), First(bits, v, begin, begin + n);
    if aligned <= wanted {
      VisitedFits(begin, n);
      FewWords(begin + n - aligned);
      InWords(Units(begin, 64), Units(begin + n - aligned, 64), wanted);
    }
  }

  lemma {:induction false} FewWords(rest: nat)
    requires rest <= 0x1_0000_0000
    ensures Units(rest, 64) <= 0x400_0000
  {
  }

  /** The answer once the first word is behind: it depends on the first hit in the whole words. */
  lemma {:induction false} AnswerBehindHead(bits: seq<bool>, v: bool, begin: nat, n: nat)
    requires 64 * Units(begin, 64) < begin + n && 64 * Units(begin + n, 64) <= |bits|
    requires First(bits, v, begin, 64 * Units(begin, 64)) == -1
    ensures var a, rest := Units(begin, 64), begin + n - 64 * Units(begin, 64);
            && a + Visited(rest) <= Units(begin + n, 64)
            && var hit := First(bits, v, 64 * a, 64 * (a + Visited(rest)));
               FindAnswer(bits, v, begin, n) == if hit == -1 then -1 else Reported(a, rest, hit)
  {
    hide Units, Visited, Reported, First;
    VisitedFits(begin, n);
  }

  lemma {:induction false} FindHit(bits: seq<bool>, v: bool, begin: nat, n: nat)
    requires 64 * Units(begin, 64) < begin + n && 64 * Units(begin + n, 64) <= |bits|
    requires First(bits, v, begin, 64 * Units(begin, 64)) == -1 && First(bits, v, begin, begin + n) != -1
    ensures FindAnswer(bits, v, begin, n) == First(bits, v, begin, begin + n) <==> FindsRight(bits, v, begin, n)
  {
    hide Units, Visited, Reported, First, FindAnswer;
    var a, wanted := Units(begin, 64), First(bits, v, begin, begin + n);
    var rest := begin + n - 64 * a;
    AnswerBehindHead(bits, v, begin, n);
    var hit := First(bits, v, 64 * a, 64 * (a + Visited(rest)));
    InWords(a, Visited(rest), wanted);
    if wanted < 64 * (a + Visited(rest)) {
      assert hit == wanted;
      ReportedIs(a, rest, hit);
    } else {
      assert hit == -1;
    }
  }

  lemma {:induction false} FindMiss(bits: seq<bool>, v: bool, begin: nat, n: nat)
    requires 64 * Units(begin, 64) < begin + n && 64 * Units(begin + n, 64) <= |bits|
    requires First(bits, v, begin, 64 * Units(begin, 64)) == -1 && First(bits, v, begin, begin + n) == -1
    ensures FindAnswer(bits, v, begin, n) == -1 <==> FindsRight(bits, v, begin, n)
  {
    hide Units, Visited, Reported, First, FindAnswer;
    var rest := begin + n - 64 * Units(begin, 64);
    if rest > 64 && Units(rest, 64) < 0x1_0000_0000 {
      MissBehind(bits, v, begin, n);
    } else {
      MissNothing(bits, v, begin, n);
    }
  }

  /** Without a wanted bit in the range, and its last word being neither the first nor the second:
      the answer is right exactly if that word has none behind the range. */
  lemma {:induction false} MissBehind(bits: seq<bool>, v: bool, begin: nat, n: nat)
    requires 64 * Units(begin, 64) + 64 < begin + n && 64 * Units(begin + n, 64) <= |bits|
    requires Units(begin + n - 64 * Units(begin, 64), 64) < 0x1_0000_0000
    requires First(bits, v, begin, 64 * Units(begin, 64)) == -1 && First(bits, v, begin, begin + n) == -1
    ensures FindAnswer(bits, v, begin, n) == -1 <==> First(bits, v, begin + n, 64 * Units(begin + n, 64)) == -1
  {
    hide Units, Visited, Reported, First, FindAnswer, FindsRight;
    var a := Units(begin, 64);
    var end, rest := 64 * Units(begin + n, 64), begin + n - 64 * a;
    VisitedFits(begin, n);
    AnswerBehindHead(bits, v, begin, n);
    FirstSplit(bits, v, 64 * a, begin + n, end);
    var hit := First(bits, v, 64 * a, end);
    if hit != -1 { ReportedIs(a, rest, hit); }
  }

  lemma {:induction false} MissNothing(bits: seq<bool>, v: bool, begin: nat, n: nat)
    requires 64 * Units(begin, 64) < begin + n && 64 * Units(begin + n, 64) <= |bits|
    requires begin + n <= 64 * Units(begin, 64) + 64 || Units(begin + n - 64 * Units(begin, 64), 64) >= 0x1_0000_0000
    requires First(bits, v, begin, 64 * Units(begin, 64)) == -1 && First(bits, v, begin, begin + n) == -1
    ensures FindAnswer(bits, v, begin, n) == -1
  {
    hide Units, Visited, Reported, First, FindAnswer, FindsRight;
    var a := Units(begin, 64);
    var rest := begin + n - 64 * a;
    VisitedFits(begin, n);
    AnswerBehindHead(bits, v, begin, n);
    var hit := First(bits, v, 64 * a, 64 * (a + Visited(rest)));
    if hit != -1 {
      assert begin + n <= hit;
      ReportedIs(a, rest, hit);
    }
  }

  lemma {:induction false} InWords(a: nat, words: nat, p: nat)
    requires 64 * a <= p
    ensures p < 64 * (a + words) <==> (p - 64 * a) / 64 < words
  {
  }

  // ------------------------------------------------------------------ copying

  /** The first `m` bits of `s` are those of `bits` from `begin` on. */
  predicate Copied(s: seq<bool>, bits: seq<bool>, begin: nat, m: int)
  {
    m <= |s| && begin + m <= |bits| && forall k | 0 <= k < m :: s[k] == bits[begin + k]
  }

  /** One shifted access: `count` bytes read at `from + at`, shifted right by `rshift`, and the low
      `keep` bytes of the result written at `at`.  All but the top `rshift` bits arrive. */
  lemma {:induction false} CopiedUnit(s: seq<bool>, bits: seq<bool>, from: nat, rshift: nat, at: nat, count: nat,
          keep: nat, m: nat)
    requires rshift <= 8 * count && keep <= count && m <= 8 * keep && m + rshift <= 8 * count
    requires 8 * (at + keep) <= |s| && 8 * (from + at + count) <= |bits|
    requires Copied(s, bits, 8 * from + rshift, 8 * at)
    ensures Copied(Splice(s, 8 * at,
                          ShiftRight(bits[8 * (from + at)..8 * (from + at) + 8 * count], rshift, false)[..8 * keep]),
                   bits, 8 * from + rshift, 8 * at + m)
  {
    hide ShiftRight;
    var begin, read := 8 * from + rshift, bits[8 * (from + at)..8 * (from + at) + 8 * count];
    var w := ShiftRight(read, rshift, false)[..8 * keep];
    forall j | 0 <= j < m ensures w[j] == bits[begin + 8 * at + j] {
      assert w[j] == read[j + rshift];
    }
  }

  lemma {:induction false} CopiedLess(s: seq<bool>, bits: seq<bool>, begin: nat, m: int, less: int)
    requires less <= m
    ensures Copied(s, bits, begin, m) ==> Copied(s, bits, begin, less)
    ensures begin <= |bits| ==> Copied(s, bits, begin, 0)
  {
  }

  /** No bit is set from bit `from` on. */
  ghost predicate ClearFrom(bits: seq<bool>, from: nat)
  {
    forall k | from <= k < |bits| :: !bits[k]
  }

  /** Writing over the end of what may be set: what is set then ends with the write. */
  lemma {:induction false} ClearBehind(bits: seq<bool>, from: nat, w: seq<bool>, m: nat, c: nat)
    requires from + |w| <= |bits| && m <= |w| && c <= from + |w| && ClearFrom(bits, c)
    requires forall j | m <= j < |w| :: !w[j]
    ensures ClearFrom(Splice(bits, from, w), from + m)
  {
  }

  lemma {:induction false} ClearWithin(bits: seq<bool>, from: nat, w: seq<bool>, c: nat)
    requires from + |w| <= c <= |bits| && ClearFrom(bits, c)
    ensures ClearFrom(Splice(bits, from, w), c)
  {
  }

  lemma {:induction false} ClearSet(bits: seq<bool>, k: nat, v: bool, c: nat)
    requires k < |bits| && ClearFrom(bits, c)
    ensures ClearFrom(bits[k := v], c) <==> k < c || !v
  {
    assert bits[k := v][k] == v;
  }

  lemma {:induction false} ClearInverted(bits: seq<bool>, q: nat, rshift: nat, n: nat, c: nat)
    requires rshift < 64 && n > 0 && 64 * (q + Units(rshift + n, 64)) <= |bits| && 64 * q + rshift + n <= c
    requires ClearFrom(bits, c)
    ensures ClearFrom(InvertedBits(bits, q, rshift, n), c)
  {
    hide InvertedBits, Units;
    forall k | c <= k < |bits| ensures !InvertedBits(bits, q, rshift, n)[k] { InvertedAt(bits, q, rshift, n, k); }
  }

  lemma {:induction false} ClearInverse(bits: seq<bool>, size: nat, c: nat)
    requires c <= size <= |bits| && ClearFrom(bits, c)
    ensures ClearFrom(Inverse(bits, size), c) <==> c == size
  {
    hide Splice, Not, Repeat;
    var taken := Not(bits[..size]);
    forall k | 0 <= k < |bits| ensures Inverse(bits, size)[k] == if k < size then !bits[k] else false {
      SpliceAt(Repeat(|bits|, false), 0, taken, k);
    }
    if c < size { assert Inverse(bits, size)[c]; }
  }

  /** What was copied behind the range is what makes the copy unclean. */
  lemma {:induction false} ClearCopy(s: seq<bool>, bits: seq<bool>, begin: nat, n: nat, m: nat)
    requires n <= m && Copied(s, bits, begin, m) && ClearFrom(s, m)
    ensures ClearFrom(s, n) <==> forall k | begin + n <= k < begin + m :: !bits[k]
  {
    forall j | 0 <= j < m ensures s[j] == bits[begin + j] {}
    if ClearFrom(s, n) {
      forall k | begin + n <= k < begin + m ensures !bits[k] { assert s[k - begin] == bits[k]; }
    }
  }

  lemma {:induction false} ClearZeros(bits: seq<bool>, c: nat)
    requires bits == Repeat(|bits|, false)
    ensures ClearFrom(bits, c)
  {
  }

  /** One shifted access reaches `keep` bytes far, a single byte only as far as its own bits. */
  lemma {:induction false} ClearUnit(s: seq<bool>, read: seq<bool>, rshift: nat, at: nat, count: nat, keep: nat, m: nat)
    requires |read| == 8 * count && rshift <= 8 * count && 1 <= keep <= count && m <= 8 * keep
    requires 8 * (at + keep) <= |s| && ClearFrom(s, 8 * (at + 1))
    requires m < 8 * keep ==> keep == count && m + rshift == 8 * count
    ensures ClearFrom(Splice(s, 8 * at, ShiftRight(read, rshift, false)[..8 * keep]), 8 * at + m)
  {
    hide Splice, ClearFrom;
    var w := ShiftRight(read, rshift, false)[..8 * keep];
    ClearBehind(s, 8 * at, w, m, 8 * (at + 1));
  }

  lemma {:induction false} CopiedAligned(s: seq<bool>, bits: seq<bool>, from: nat, size: nat)
    requires 8 * size <= |s| && 8 * (from + size) <= |bits| && ClearFrom(s, 0)
    ensures Copied(Splice(s, 8 * 0, bits[8 * from..8 * from + 8 * size]), bits, 8 * from, 8 * size)
    ensures ClearFrom(Splice(s, 8 * 0, bits[8 * from..8 * from + 8 * size]), 8 * size)
  {
  }

  /** The byte counts of `baGetSubArray`: `over` source bytes hold the shifted range, `size` bytes
      its copy; `wide` 7-byte steps and `narrow` 1-byte steps come before the last byte. */
  datatype Plan = Plan(size: nat, over: nat, wide: nat, narrow: int)

  function PlanOf(n: nat, rshift: nat): (p: Plan)
    requires 1 <= n && 1 <= rshift < 8
  {
    var size, over := Units(n, 8), Units(n + rshift, 8);
    var wide := if size < 8 then 0 else (over - 1) / 7;
    Plan(size, over, wide, over - 7 * wide - 1 - if over != size then 1 else 0)
  }

  /** How many bits the copy of n bits takes along: whole bytes, whatever is in them behind the range. */
  function Extent(n: nat, rshift: nat): (m: nat)
    requires 1 <= n && rshift < 8
  {
    if rshift == 0 then 8 * Units(n, 8)
    else
      var p := PlanOf(n, rshift);
      8 * LastByte(p) + if p.over != p.size then 8 else 8 - rshift
  }

  /** Where the last byte goes. */
  function LastByte(p: Plan): (at: nat)
  {
    7 * p.wide + if p.narrow > 0 then p.narrow else 0
  }

  lemma {:induction false} ExtentFacts(n: nat, rshift: nat)
    requires 1 <= n && rshift < 8
    ensures n <= Extent(n, rshift)
  {
    hide Units, PlanOf;
    if rshift > 0 { PlanFacts(n, rshift); }
  }

  lemma {:induction false} PlanFacts(n: nat, rshift: nat)
    requires 1 <= n && 1 <= rshift < 8
    ensures var p := PlanOf(n, rshift);
      && p.size == Units(n, 8) && p.over == Units(n + rshift, 8)
      && 1 <= p.size <= p.over <= p.size + 1
      && 8 * (p.size - 1) < n <= 8 * p.size && 8 * (p.over - 1) < n + rshift <= 8 * p.over
      && 7 * p.wide + 1 <= p.over
      && p.narrow == p.size - 1 - 7 * p.wide
      && (p.narrow < 0 <==> p.over != p.size && p.size >= 8 && p.size % 7 == 0)
      && (p.narrow < 0 ==> 7 * p.wide == p.size)
  {
  }

  /** Where step k of a copy is. */
  function Reach(start: nat, stride: nat, k: nat): (at: nat)
  {
    start + stride * k
  }

  lemma {:induction false} ReachStart(start: nat, stride: nat)
    ensures Reach(start, stride, 0) == start
  {
  }

  lemma {:induction false} ReachNext(start: nat, stride: nat, k: nat)
    ensures Reach(start, stride, k + 1) == Reach(start, stride, k) + stride
  {
    assert stride * (k + 1) == stride * k + stride;
  }

  lemma {:induction false} ReachGrows(start: nat, stride: nat, j: nat, k: nat)
    requires j <= k
    ensures Reach(start, stride, j) <= Reach(start, stride, k)
  {
    hide Reach;
    if j < k {
      ReachGrows(start, stride, j, k - 1);
      ReachNext(start, stride, k - 1);
    }
  }

  lemma {:induction false} ReachLiteral(start: nat, k: nat)
    ensures Reach(start, 7, k) == start + 7 * k && Reach(start, 1, k) == start + k
    ensures k > 0 ==> Reach(start, 7, k - 1) == start + 7 * k - 7 && Reach(start, 1, k - 1) == start + k - 1
  {
  }

  lemma {:induction false} InverseSoFar(zeros: seq<bool>, bits: seq<bool>, a: nat, b: nat)
    requires a <= b <= |bits| == |zeros|
    ensures Splice(Splice(zeros, 0, Not(bits[..a])), a, Not(bits[a..b])) == Splice(zeros, 0, Not(bits[..b]))
  {
    hide Splice, Not;
    NotAppend(bits[..a], bits[a..b]);
    assert bits[..b] == bits[..a] + bits[a..b];
    SpliceSplice(zeros, 0, Not(bits[..a]), Not(bits[a..b]));
  }

  /** The first `size` bits flipped, the rest cleared. */
  function Inverse(bits: seq<bool>, size: nat): (r: seq<bool>)
    requires size <= |bits|
    ensures |r| == |bits|
  {
    Splice(Repeat(|bits|, false), 0, Not(bits[..size]))
  }

  lemma {:induction false} InverseNothing(zeros: seq<bool>, bits: seq<bool>)
    requires |bits| == |zeros|
    ensures Splice(zeros, 0, Not(bits[..0])) == zeros
  {
  }

  /** Shifted so that bit 0 is the range's first bit: the lowest wanted bit is the first one in the
      range's first word.  A search for zeros shifts a signed word and looks at its complement;
      the copies of the sign bit that come in never matter. */
  function Wanted(word: Word, rshift: nat, v: bool): (w: Word)
    requires rshift <= 64
  {
    if v then ShiftRight(word, rshift, false) else Not(ShiftRight(word, rshift, word[63]))
  }

  lemma {:induction false} WantedBits(bits: seq<bool>, v: bool, q: nat, rshift: nat)
    requires rshift < 64 && 64 * (q + 1) <= |bits|
    ensures var wanted := Wanted(WordsAt(bits, q, q + 1), rshift, v);
      && (forall k | 0 <= k < 64 - rshift :: wanted[k] <==> bits[64 * q + rshift + k] == v)
      && (forall k | 64 - rshift <= k < 64 :: wanted[k] ==> wanted[63 - rshift])
  {
    hide ShiftRight, Not;
  }

  lemma {:induction false} FirstInWord(bits: seq<bool>, v: bool, q: nat, rshift: nat)
    requires rshift < 64 && 64 * (q + 1) <= |bits|
    ensures var pos := LowestSet(Wanted(WordsAt(bits, q, q + 1), rshift, v));
      && pos < 64 - rshift
      && First(bits, v, 64 * q + rshift, 64 * (q + 1)) == if pos == -1 then -1 else 64 * q + rshift + pos
  {
    hide LowestSet, Wanted, WordsAt, First;
    var wanted := Wanted(WordsAt(bits, q, q + 1), rshift, v);
    WantedBits(bits, v, q, rshift);
    var pos := LowestSet(wanted);
    if pos == -1 {
      forall k | 64 * q + rshift <= k < 64 * (q + 1) ensures bits[k] != v {
        assert !wanted[k - (64 * q + rshift)];
      }
    } else {
      assert forall k | 0 <= k < pos :: wanted[..pos][k] == wanted[k];
      forall k | 64 * q + rshift <= k < 64 * q + rshift + pos ensures bits[k] != v {
        assert !wanted[k - (64 * q + rshift)];
      }
    }
  }

  /** Looking at a stretch and then at what follows is looking at both. */
  lemma {:induction false} FirstSplit(bits: seq<bool>, v: bool, lo: nat, mid: nat, hi: nat)
    requires lo <= mid <= hi <= |bits|
    ensures var p := First(bits, v, lo, mid);
      First(bits, v, lo, hi) == if p != -1 then p else First(bits, v, mid, hi)
  {
  }

  /** What looking at one more of the words from a to b tells. */
  lemma {:induction false} FirstNextWord(bits: seq<bool>, v: bool, a: nat, q: nat, b: nat)
    requires a <= q < b && 64 * b <= |bits| && First(bits, v, 64 * a, 64 * q) == -1
    ensures var pos := LowestSet(Wanted(WordsAt(bits, q, q + 1), 0, v));
            && -1 <= pos < 64
            && (pos == -1 ==> First(bits, v, 64 * a, 64 * (q + 1)) == -1)
            && (pos != -1 ==> First(bits, v, 64 * a, 64 * b) == 64 * q + pos)
  {
    hide *;
    FirstInWord(bits, v, q, 0);
    FirstSplit(bits, v, 64 * a, 64 * q, 64 * (q + 1));
    FirstSplit(bits, v, 64 * a, 64 * (q + 1), 64 * b);
  }

  lemma {:induction false} FirstNothing(bits: seq<bool>, v: bool, at: nat)
    requires at <= |bits|
    ensures First(bits, v, at, at) == -1
  {
  }

  /** `FindAnswer` for a range that begins inside a word, and for one that begins with a word. */
  lemma {:induction false} FindInHead(bits: seq<bool>, v: bool, q: nat, rshift: nat, n: nat)
    requires 0 < rshift < 64 && 64 * (q + 1) <= |bits| && 64 * Units(64 * q + rshift + n, 64) <= |bits|
    ensures var begin, pos := 64 * q + rshift, LowestSet(Wanted(WordsAt(bits, q, q + 1), rshift, v));
      && (rshift + n <= 64 ==> FindAnswer(bits, v, begin, n) == if pos != -1 && pos < n then begin + pos else -1)
      && (rshift + n > 64 && pos != -1 ==> FindAnswer(bits, v, begin, n) == begin + pos)
      && (rshift + n > 64 && pos == -1 ==>
            var rest := n - (64 - rshift);
            && q + 1 + Visited(rest) <= q + 1 + Units(rest, 64) == Units(begin + n, 64)
            && FindAnswer(bits, v, begin, n) ==
               var hit := First(bits, v, 64 * (q + 1), 64 * (q + 1 + Visited(rest)));
               if hit == -1 then -1 else Reported(q + 1, rest, hit))
  {
    hide First, LowestSet, Wanted, WordsAt, Reported, Visited;
    FirstInWord(bits, v, q, rshift);
    var begin := 64 * q + rshift;
    assert Units(begin, 64) == q + 1;
    if rshift + n > 64 {
      VisitedFits(begin, n);
    } else {
      FirstSplit(bits, v, begin, begin + n, 64 * (q + 1));
    }
  }

  lemma {:induction false} FindAligned(bits: seq<bool>, v: bool, q: nat, n: nat)
    requires 64 * Units(64 * q + n, 64) <= |bits|
    ensures q + Visited(n) <= q + Units(n, 64) == Units(64 * q + n, 64)
    ensures FindAnswer(bits, v, 64 * q, n) ==
            var hit := First(bits, v, 64 * q, 64 * (q + Visited(n)));
            if hit == -1 then -1 else Reported(q, n, hit)
  {
    hide First, Reported, Visited;
    assert Units(64 * q, 64) == q;
    FirstNothing(bits, v, 64 * q);
    if n > 0 { VisitedFits(64 * q, n); } else { NothingVisited(); }
  }

  lemma {:induction false} NothingVisited()
    ensures Visited(0) == 0
  {
  }
}
