/** What several of the programs share. */
module Common {

  /** A byte of a file or a stream, where only its identity matters. */
  type Byte = char

  function Least(a: nat, b: nat): (m: nat)
    ensures m <= a && m <= b && (m == a || m == b)
  {
    if a < b then a else b
  }

  // ------------------------------------------------------------------ dealing out

  /** t threads dealt out to n places in turn: every place gets `Full`, the first `Extra` one more. */
  function Full(t: nat, n: nat): (q: nat)
    requires n > 0
  {
    t / n
  }

  function Extra(t: nat, n: nat): (r: nat)
    requires n > 0
    ensures r < n
  {
    t % n
  }

  lemma {:induction false} Dealt(t: nat, n: nat)
    requires n > 0
    ensures t == Full(t, n) * n + Extra(t, n)
  {
  }

  lemma {:induction false} DealtAs(t: nat, n: nat, q: nat, r: nat)
    requires n > 0 && t == q * n + r && r < n
    ensures Full(t, n) == q && Extra(t, n) == r
  {
    hide Full, Extra;
    Dealt(t, n);
    var d := Full(t, n) - q;
    assert d * n == r - Extra(t, n) by { assert d * n == Full(t, n) * n - q * n; }
    Multiple(d, n);
  }

  lemma {:induction false} Multiple(d: int, n: int)
    requires n >= 0
    ensures d > 0 ==> d * n >= n
    ensures d < 0 ==> d * n <= -n
  {
    if d > 0 { assert (d - 1) * n >= 0; } else if d < 0 { assert (-d - 1) * n >= 0; }
  }

  /** One more goes to the next place, and after the last place to the first again. */
  lemma {:induction false} DealtNext(t: nat, n: nat)
    requires n > 0
    ensures Extra(t, n) + 1 < n ==> Full(t + 1, n) == Full(t, n) && Extra(t + 1, n) == Extra(t, n) + 1
    ensures Extra(t, n) + 1 == n ==> Full(t + 1, n) == Full(t, n) + 1 && Extra(t + 1, n) == 0
  {
    hide Full, Extra;
    var q, r := Full(t, n), Extra(t, n);
    Dealt(t, n);
    if r + 1 < n {
      DealtAs(t + 1, n, q, r + 1);
    } else {
      assert (q + 1) * n == q * n + n;
      DealtAs(t + 1, n, q + 1, 0);
    }
  }

  lemma {:induction false} DealtFew(t: nat, n: nat)
    requires n > 0
    ensures t < n ==> Full(t, n) == 0 && Extra(t, n) == t
    ensures t >= n ==> Full(t, n) > 0
  {
    hide Full, Extra;
    if t < n {
      DealtAs(t, n, 0, t);
    } else {
      Dealt(t, n);
      if Full(t, n) == 0 { assert false; }
    }
  }
}
