/** Left-point sums: the single loop, the loop split over threads, and when the two agree.  Floating
    point is modelled by exact reals. */
module Integral {

  // ------------------------------------------------------------------ a grid of points

  /** a + k * dx. */
  function At(a: real, dx: real, k: int): (x: real)
  {
    a + k as real * dx
  }

  lemma AtStart(a: real, dx: real)
    ensures At(a, dx, 0) == a
  {
  }

  lemma {:induction false} AtNext(a: real, dx: real, k: int)
    ensures At(a, dx, k + 1) == At(a, dx, k) + dx
  {
    assert (k + 1) as real == k as real + 1.0;
    assert (k as real + 1.0) * dx == k as real * dx + dx;
  }

  lemma {:induction false} AtMoved(a: real, c: real, dx: real, k: int)
    ensures At(a + c, dx, k) == At(a, dx, k) + c
  {
  }

  lemma {:induction false} AtAdd(a: real, dx: real, m: int, n: nat)
    ensures At(At(a, dx, m), dx, n) == At(a, dx, m + n)
  {
    hide At;
    AtStart(At(a, dx, m), dx);
    if n > 0 {
      AtAdd(a, dx, m, n - 1);
      AtNext(At(a, dx, m), dx, n - 1);
      AtNext(a, dx, m + n - 1);
    }
  }

  lemma {:induction false} AtGrows(a: real, dx: real, m: int, n: int)
    requires dx > 0.0
    ensures m < n <==> At(a, dx, m) < At(a, dx, n)
  {
    hide At;
    if m < n { AtRises(a, dx, m, n - m); } else if n < m { AtRises(a, dx, n, m - n); }
  }

  lemma {:induction false} AtRises(a: real, dx: real, m: int, d: nat)
    requires dx > 0.0
    ensures At(a, dx, m + d) >= At(a, dx, m) + if d > 0 then dx else 0.0
  {
    hide At;
    if d > 0 {
      AtRises(a, dx, m, d - 1);
      AtNext(a, dx, m + d - 1);
    }
  }

  /** How many points of the grid lie before b: how often `a += dx` happens. */
  function Steps(a: real, b: real, dx: real): (n: int)
    requires dx > 0.0
  {
    -((a - b) / dx).Floor
  }

  lemma {:induction false} StepsReach(a: real, b: real, dx: real)
    requires dx > 0.0
    ensures At(a, dx, Steps(a, b, dx) - 1) < b <= At(a, dx, Steps(a, b, dx))
  {
    var q, n := (a - b) / dx, Steps(a, b, dx);
    var over := q + n as real;
    assert q * dx == a - b && over * dx == q * dx + n as real * dx;
    assert 0.0 <= over < 1.0;
    assert 0.0 <= over * dx < dx;
    assert At(a, dx, n) == b + over * dx;
    AtNext(a, dx, n - 1);
  }

  /** A point of the grid is before b exactly when its number is below `Steps`. */
  lemma {:induction false} Before(a: real, b: real, dx: real, k: int)
    requires dx > 0.0
    ensures At(a, dx, k) < b <==> k < Steps(a, b, dx)
  {
    hide At, Steps;
    var n := Steps(a, b, dx);
    StepsReach(a, b, dx);
    AtGrows(a, dx, n - 1, k);
    AtGrows(a, dx, k, n);
  }

  lemma {:induction false} StepsPositive(a: real, b: real, dx: real)
    requires dx > 0.0 && a < b
    ensures Steps(a, b, dx) > 0
  {
    hide Steps;
    AtStart(a, dx);
    Before(a, b, dx, 0);
  }

  lemma {:induction false} StepsExact(a: real, dx: real, n: int)
    requires dx > 0.0
    ensures Steps(a, At(a, dx, n), dx) == n
  {
    hide At, Steps;
    Before(a, At(a, dx, n), dx, n);
    Before(a, At(a, dx, n), dx, n - 1);
    AtNext(a, dx, n - 1);
  }

  // ------------------------------------------------------------------ the loop

  /** f (a) + f (a + dx) + ... , n terms. */
  function Samples(f: real -> real, a: real, dx: real, n: nat): (s: real)
  {
    if n == 0 then 0.0 else Samples(f, a, dx, n - 1) + f(At(a, dx, n - 1))
  }

  /** What the `while (a < b)` loop adds up. */
  function Sum(f: real -> real, a: real, b: real, dx: real): (s: real)
    requires dx > 0.0 || b <= a
  {
    if a < b then StepsPositive(a, b, dx); Samples(f, a, dx, Steps(a, b, dx)) else 0.0
  }

  /** The loop takes every sample before b and no other, whether dx divides the interval or not. */
  lemma {:induction false} SumIs(f: real -> real, a: real, b: real, dx: real, n: nat)
    requires dx > 0.0 && At(a, dx, n - 1) < b <= At(a, dx, n)
    ensures Sum(f, a, b, dx) == Samples(f, a, dx, n)
  {
    hide At, Steps;
    Before(a, b, dx, n);
    Before(a, b, dx, n - 1);
    AtStart(a, dx);
    AtGrows(a, dx, 0, n - 1);
    AtGrows(a, dx, 0, n);
  }

  /** A step that is not positive never gets from a to b: the loop goes on for ever. */
  lemma {:induction false} NeverReaches(a: real, b: real, dx: real, k: nat)
    requires a < b && dx <= 0.0
    ensures At(a, dx, k) < b
  {
    hide At;
    AtStart(a, dx);
    if k > 0 {
      AtFalls(a, dx, k - 1);
      AtNext(a, dx, k - 1);
    }
  }

  lemma {:induction false} AtFalls(a: real, dx: real, k: nat)
    requires dx <= 0.0
    ensures At(a, dx, k) <= a
  {
    hide At;
    AtStart(a, dx);
    if k > 0 {
      AtFalls(a, dx, k - 1);
      AtNext(a, dx, k - 1);
    }
  }

  /** `_pthread_calc_integral`, and the loop of `hpcSimpleIntegral`; `ends` is false where the loop
      goes on for ever. */
  method CalcLoop(f: real -> real, a: real, b: real, dx: real) returns (ends: bool, result: real)
    ensures ends <==> dx > 0.0 || b <= a
    ensures ends ==> result == Sum(f, a, b, dx)
    ensures dx > 0.0 ==> forall n: nat | At(a, dx, n - 1) < b <= At(a, dx, n) :: result == Samples(f, a, dx, n)
  {
    hide Steps, At;
    AtStart(a, dx);
    var x, k := a, 0;
    ends, result := true, 0.0;
    if a < b && dx <= 0.0 { return false, result; }
    if a < b { Before(a, b, dx, 0); }
    while x < b
      invariant k >= 0 && x == At(a, dx, k) && result == Samples(f, a, dx, k)
      invariant if a < b then k <= Steps(a, b, dx) else k == 0
      decreases if a < b then Steps(a, b, dx) - k else 0
    {
      Before(a, b, dx, k);
      AtNext(a, dx, k);
      result := result + f(x);
      x := x + dx;
      k := k + 1;
    }
    if a < b { Before(a, b, dx, k); }
    if dx > 0.0 {
      forall n: nat | At(a, dx, n - 1) < b <= At(a, dx, n) ensures result == Samples(f, a, dx, n) {
        SumIs(f, a, b, dx, n);
      }
    }
  }

  lemma {:induction false} SamplesSplit(f: real -> real, a: real, dx: real, m: nat, n: nat)
    ensures Samples(f, a, dx, m + n) == Samples(f, a, dx, m) + Samples(f, At(a, dx, m), dx, n)
  {
    hide At;
    if n > 0 {
      SamplesSplit(f, a, dx, m, n - 1);
      AtAdd(a, dx, m, n - 1);
    }
  }

  // ------------------------------------------------------------------ one loop, many threads

  /** The step the sources compute from an interval of length d. */
  function Dx(d: real, eps: real): (dx: real)
    requires d >= 0.0
    ensures d > 0.0 ==> (dx > 0.0 <==> eps > 0.0)
    ensures d == 0.0 ==> dx == 0.0
  {
    d * eps
  }

  /** What `hpcSimpleIntegral` returns. */
  function Simple(f: real -> real, a: real, b: real, eps: real): (r: real)
    requires eps > 0.0 || a == b
  {
    if a <= b then Sum(f, a, b, Dx(b - a, eps)) * Dx(b - a, eps) else -Sum(f, b, a, Dx(a - b, eps)) * Dx(a - b, eps)
  }

  /** What the first i threads add up: thread t works from a + t * len up to a + (t + 1) * len. */
  function Parts(f: real -> real, a: real, len: real, dx: real, i: nat): (s: real)
    requires dx > 0.0 || len <= 0.0
  {
    if i == 0 then 0.0
    else Parts(f, a, len, dx, i - 1) + Sum(f, At(a, len, i - 1), At(a, len, i - 1) + len, dx)
  }

  lemma {:induction false} SamplesOfOne(f: real -> real, a: real, dx: real, n: nat)
    requires forall x :: f(x) == 1.0
    ensures Samples(f, a, dx, n) == n as real
  {
    if n > 0 { SamplesOfOne(f, a, dx, n - 1); }
  }

  lemma {:induction false} SumOfPart(f: real -> real, a: real, len: real, dx: real, n: int)
    requires dx > 0.0 && len > 0.0 && n == -(-len / dx).Floor
    ensures n > 0 && Sum(f, a, a + len, dx) == Samples(f, a, dx, n)
  {
    assert a - (a + len) == -len && Steps(a, a + len, dx) == n;
    StepsPositive(a, a + len, dx);
  }

  lemma {:induction false} StepsOfPart(d: real, len: real, eps: real, parts: real)
    requires d > 0.0 && eps > 0.0 && parts > 0.0 && len * parts == d
    ensures len > 0.0 && Dx(d, eps) > 0.0 && eps * parts > 0.0 && -len / Dx(d, eps) == -1.0 / (eps * parts)
  {
    assert len > 0.0 && eps * parts > 0.0;
    Quotient(-len, len, eps * parts);
    Regrouped(len, eps, parts);
  }

  lemma Regrouped(x: real, y: real, z: real)
    ensures x * (y * z) == (x * z) * y
  {
  }

  /** ceil (1 / eps). */
  function Ceiling(eps: real): (n: int)
    requires eps > 0.0
  {
    -(-1.0 / eps).Floor
  }

  /** The loop makes exactly ceil (1 / eps) evaluations, at a and each (b - a) * eps further on. */
  lemma {:induction false} Evaluations(f: real -> real, a: real, b: real, eps: real)
    requires a < b && eps > 0.0
    ensures Ceiling(eps) > 0 && Sum(f, a, b, Dx(b - a, eps)) == Samples(f, a, (b - a) * eps, Ceiling(eps))
    ensures (forall x :: f(x) == 1.0) ==> Sum(f, a, b, Dx(b - a, eps)) == Ceiling(eps) as real
  {
    hide Sum, At;
    StepsOfPart(b - a, b - a, eps, 1.0);
    assert a + (b - a) == b && eps * 1.0 == eps;
    SumOfPart(f, a, b - a, Dx(b - a, eps), Ceiling(eps));
    if forall x :: f(x) == 1.0 { SamplesOfOne(f, a, Dx(b - a, eps), Ceiling(eps)); }
  }

  lemma OneTimesMore(i: int, x: real)
    ensures (i + 1) as real * x == i as real * x + x
  {
    assert (i + 1) as real == i as real + 1.0;
  }

  /** Each of the threads makes ceil (1 / (eps * threads)) from its own first point on; together that
      may be more. */
  lemma {:induction false} ThreadEvaluations(f: real -> real, a: real, b: real, eps: real, threads: nat, i: nat)
    requires a < b && eps > 0.0 && threads > 0
    ensures eps * threads as real > 0.0 && Ceiling(eps * threads as real) > 0
    ensures var first := At(a, (b - a) / threads as real, i);
            Sum(f, first, first + Share(b - a, threads), Dx(b - a, eps))
            == Samples(f, first, (b - a) * eps, Ceiling(eps * threads as real))
    ensures (forall x :: f(x) == 1.0) ==>
              Parts(f, a, Share(b - a, threads), Dx(b - a, eps), i)
              == i as real * Ceiling(eps * threads as real) as real
  {
    hide Sum, At, Ceiling;
    var len, dx := Share(b - a, threads), Dx(b - a, eps);
    PartIs(f, At(a, len, i), b - a, eps, threads);
    var each := Ceiling(eps * threads as real);
    if i == 0 {
      assert Parts(f, a, len, dx, 0) == 0.0;
    } else if forall x :: f(x) == 1.0 {
      ThreadEvaluations(f, a, b, eps, threads, i - 1);
      SamplesOfOne(f, At(a, len, i - 1), dx, each);
      OneTimesMore(i - 1, each as real);
    }
  }

  lemma {:induction false} PartIs(f: real -> real, first: real, d: real, eps: real, threads: nat)
    requires d > 0.0 && eps > 0.0 && threads > 0
    ensures eps * threads as real > 0.0 && Ceiling(eps * threads as real) > 0
    ensures Sum(f, first, first + Share(d, threads), Dx(d, eps))
            == Samples(f, first, Dx(d, eps), Ceiling(eps * threads as real))
  {
    hide Sum, Dx;
    var len := Share(d, threads);
    StepsOfPart(d, len, eps, threads as real);
    SumOfPart(f, first, len, Dx(d, eps), Ceiling(eps * threads as real));
  }

  lemma {:induction false} Quotient(x: real, d: real, eps: real)
    requires d > 0.0 && eps > 0.0 && x == -d
    ensures d * eps > 0.0 && x / (d * eps) == -1.0 / eps
  {
    var q, dx := -1.0 / eps, d * eps;
    assert q * eps == -1.0;
    assert q * dx == d * (q * eps);
    assert q == x / dx by { assert (q * dx) / dx == q; }
  }

  /** What `_integral` returns. */
  function Threaded(f: real -> real, a: real, b: real, eps: real, threads: nat): (r: real)
    requires (eps > 0.0 || a == b) && threads > 0
  {
    if a <= b then Parts(f, a, Share(b - a, threads), Dx(b - a, eps), threads) * Dx(b - a, eps)
    else -Parts(f, b, Share(a - b, threads), Dx(a - b, eps), threads) * Dx(a - b, eps)
  }

  function Share(d: real, threads: nat): (len: real)
    requires threads > 0
    ensures d > 0.0 <==> len > 0.0
  {
    d / threads as real
  }

  /** One thread's interval, step and function. */
  datatype IntPthArg = IntPthArg(a: real, b: real, dx: real, func: real -> real)

  method HpcSimpleIntegral(a0: real, b0: real, func: real -> real, eps: real) returns (ends: bool, r: real)
    ensures ends <==> eps > 0.0 || a0 == b0
    ensures ends ==> r == Simple(func, a0, b0, eps)
  {
    hide Sum;
    var a, b, signInt := a0, b0, a0 <= b0;
    if !signInt { a, b := b, a; }
    var dx := Dx(b - a, eps);
    var res;
    ends, res := CalcLoop(func, a, b, dx);
    r := res * (if signInt then 1.0 else -1.0) * dx;
  }

  /** The thread arguments, one interval after the other from `a0`. */
  method Carve(a0: real, len: real, dx: real, func: real -> real, count: nat) returns (args: seq<IntPthArg>, a: real)
    ensures a == At(a0, len, count) && |args| == count
    ensures forall t | 0 <= t < count :: args[t] == IntPthArg(At(a0, len, t), At(a0, len, t) + len, dx, func)
  {
    hide At;
    AtStart(a0, len);
    args, a := [], a0;
    for i := 0 to count
      invariant a == At(a0, len, i) && |args| == i
      invariant forall t | 0 <= t < i :: args[t] == IntPthArg(At(a0, len, t), At(a0, len, t) + len, dx, func)
    {
      AtNext(a0, len, i);
      args := args + [IntPthArg(a, a + len, dx, func)];
      a := a + len;
    }
  }

  /** Joining: the threads share nothing, so each is run when it is joined; the first `numThreads`
      results are added up. */
  method JoinThreads(args: seq<IntPthArg>, numThreads: nat, func: real -> real,
        ghost a: real, ghost len: real, ghost dx: real)
    returns (ends: bool, res: real)
    requires 0 < numThreads <= |args|
    requires forall t | 0 <= t < numThreads :: args[t] == IntPthArg(At(a, len, t), At(a, len, t) + len, dx, func)
    requires dx > 0.0 || len <= 0.0 ==>
               forall t | numThreads <= t < |args| :: args[t].dx > 0.0 || args[t].b <= args[t].a
    ensures ends <==> dx > 0.0 || len <= 0.0
    ensures ends ==> res == Parts(func, a, len, dx, numThreads)
  {
    hide Sum, At;
    res := 0.0;
    for i := 0 to |args|
      invariant i > 0 ==> dx > 0.0 || len <= 0.0
      invariant res == if i == 0 then 0.0 else Parts(func, a, len, dx, if i < numThreads then i else numThreads)
    {
      var result;
      ends, result := CalcLoop(args[i].func, args[i].a, args[i].b, args[i].dx);
      if !ends { return; }
      if i < numThreads { res := res + result; }
    }
    return true, res;
  }

  /** `_integral`. */
  method Integral(a0: real, b0: real, func: real -> real, eps: real, numThreads: nat) returns (ends: bool, r: real)
    requires numThreads > 0
    ensures ends <==> eps > 0.0 || a0 == b0
    ensures ends ==> r == Threaded(func, a0, b0, eps, numThreads)
  {
    hide Sum, At, Dx, Share, Parts;
    var a, b, signInt := a0, b0, a0 <= b0;
    if !signInt { a, b := b, a; }
    var dx, len := Dx(b - a, eps), Share(b - a, numThreads);
    var args, end := Carve(a, len, dx, func, numThreads);
    var res;
    ends, res := JoinThreads(args, numThreads, func, a, len, dx);
    r := res * (if signInt then 1.0 else -1.0) * dx;
  }

  predicate Evaluates(load: IntPthArg, eps: real, threads: nat)
    requires eps > 0.0 && threads > 0
  {
    && load.dx > 0.0 && eps * threads as real > 0.0
    && Steps(load.a, load.b, load.dx) == Ceiling(eps * threads as real)
  }

  /** Every logical CPU is kept busy, all for equally long: there are as many threads as CPUs, each makes
      ceil (1 / (eps * threads)) evaluations, and the idle CPUs' threads cover the interval once more. */
  predicate KeepsBusy(loads: seq<IntPthArg>, lo: real, hi: real, eps: real, threads: nat, logicCpus: nat)
    requires eps > 0.0 && threads > 0
  {
    && |loads| == (if threads < logicCpus then logicCpus else threads)
    && (forall t | 0 <= t < |loads| :: Evaluates(loads[t], eps, threads))
    && loads[0].a == lo && loads[threads - 1].b == hi
    && (threads < logicCpus ==> loads[threads].a == lo && loads[logicCpus - 1].b == hi)
    && (forall t | 0 < t < |loads| && t != threads :: loads[t].a == loads[t - 1].b)
  }

  /** A dummy thread's longer part is cut by a longer step. */
  lemma {:induction false} SameLoad(d: real, eps: real, threads: nat, dummies: nat, x: real, f: real -> real)
    requires d > 0.0 && eps > 0.0 && threads > 0
    ensures Evaluates(IntPthArg(x, x + Share(d, threads), Dx(d, eps), f), eps, threads)
    ensures dummies > 0 ==>
              var len, dx := Spread(Share(d, threads), threads, dummies), Spread(Dx(d, eps), threads, dummies);
              Evaluates(IntPthArg(x, x + len, dx, f), eps, threads) && len == Share(d, dummies)
  {
    hide Dx, Share, Spread, Steps;
    var len, dx := Share(d, threads), Dx(d, eps);
    ShareTimes(d, threads);
    StepsOfPart(d, len, eps, threads as real);
    StepsOfLength(x, len, dx);
    if dummies > 0 {
      SpreadRatio(len, dx, threads, dummies);
      SpreadShare(d, threads, dummies);
      StepsOfLength(x, Spread(len, threads, dummies), Spread(dx, threads, dummies));
    }
  }

  lemma ShareTimes(d: real, threads: nat)
    requires threads > 0
    ensures Share(d, threads) * threads as real == d
  {
  }

  lemma StepsOfLength(x: real, len: real, dx: real)
    requires dx > 0.0
    ensures Steps(x, x + len, dx) == -(-len / dx).Floor
  {
    assert x - (x + len) == -len;
  }

  lemma SpreadShare(d: real, threads: nat, dummies: nat)
    requires threads > 0 && dummies > 0
    ensures Spread(Share(d, threads), threads, dummies) == Share(d, dummies)
  {
    assert d / threads as real * threads as real == d;
  }

  lemma SpreadRatio(len: real, dx: real, threads: nat, dummies: nat)
    requires dx > 0.0 && threads > 0 && dummies > 0
    ensures Spread(dx, threads, dummies) > 0.0
    ensures -Spread(len, threads, dummies) / Spread(dx, threads, dummies) == -len / dx
  {
    SameRatio(len, dx, threads as real, dummies as real);
  }

  lemma {:induction false} SameRatio(len: real, dx: real, t: real, n: real)
    requires dx > 0.0 && t > 0.0 && n > 0.0
    ensures dx * t / n > 0.0 && -(len * t / n) / (dx * t / n) == -len / dx
  {
    var q, long := -len / dx, dx * t / n;
    assert q * dx == -len && long * n == dx * t;
    assert q * long * n == q * (dx * t) == -len * t;
    assert q * long == -(len * t / n) by { assert -(len * t / n) * n == -len * t; Cancel(q * long, -(len * t / n), n); }
    assert long > 0.0;
    assert q == q * long / long;
  }

  lemma {:induction false} AllBusy(loads: seq<IntPthArg>, lo: real, hi: real, eps: real, threads: nat, logicCpus: nat,
          func: real -> real)
    requires lo < hi && eps > 0.0 && threads > 0
    requires |loads| == if threads < logicCpus then logicCpus else threads
    requires var len, dx := Share(hi - lo, threads), Dx(hi - lo, eps);
             forall t | 0 <= t < threads :: loads[t] == IntPthArg(At(lo, len, t), At(lo, len, t) + len, dx, func)
    requires threads < logicCpus ==>
               var n := logicCpus - threads;
               var len := Spread(Share(hi - lo, threads), threads, n);
               var dx := Spread(Dx(hi - lo, eps), threads, n);
               forall t | 0 <= t < n :: loads[threads + t] == IntPthArg(At(lo, len, t), At(lo, len, t) + len, dx, func)
    ensures KeepsBusy(loads, lo, hi, eps, threads, logicCpus)
  {
    hide At, Share, Dx, Spread, Evaluates;
    var d, n := hi - lo, if threads < logicCpus then logicCpus - threads else 0;
    var len := Share(d, threads);
    SharesAddUp(lo, d, threads);
    AtStart(lo, len);
    AtNext(lo, len, threads - 1);
    if n > 0 {
      var long := Spread(len, threads, n);
      SpreadShare(d, threads, n);
      SharesAddUp(lo, d, n);
      AtStart(lo, long);
      AtNext(lo, long, n - 1);
    }
    forall t | 0 <= t < |loads|
      ensures Evaluates(loads[t], eps, threads) && (0 < t != threads ==> loads[t].a == loads[t - 1].b) {
      SameLoad(d, eps, threads, n, loads[t].a, func);
      if t < threads {
        AtNext(lo, len, t - 1);
      } else {
        assert loads[t] == loads[threads + (t - threads)];
        if t > threads { assert loads[t - 1] == loads[threads + (t - 1 - threads)]; }
        AtNext(lo, Spread(len, threads, n), t - 1 - threads);
      }
    }
  }

  /** `_integral_linear`: idle logical CPUs get threads whose work is thrown away. */
  method IntegralLinear(a0: real, b0: real, func: real -> real, eps: real, numThreads: nat, numLogicCpu: nat)
    returns (ends: bool, r: real, ghost loads: seq<IntPthArg>)
    requires numThreads > 0
    ensures ends <==> eps > 0.0 || a0 == b0
    ensures ends ==> r == Threaded(func, a0, b0, eps, numThreads)
    ensures eps > 0.0 && a0 < b0 ==> KeepsBusy(loads, a0, b0, eps, numThreads, numLogicCpu)
    ensures eps > 0.0 && b0 < a0 ==> KeepsBusy(loads, b0, a0, eps, numThreads, numLogicCpu)
  {
    hide Sum, At, Dx, Share, Parts, Spread, KeepsBusy;
    var numDummy := if numThreads < numLogicCpu then numLogicCpu - numThreads else 0;
    var a, b, signInt := a0, b0, a0 <= b0;
    if !signInt { a, b := b, a; }
    var dx, len := Dx(b - a, eps), Share(b - a, numThreads);
    var args, end := Carve(a, len, dx, func, numThreads);
    var dummies := [];
    if numDummy != 0 {
      var dxDummy, lenDummy := Spread(dx, numThreads, numDummy), Spread(len, numThreads, numDummy);
      end := end - len * numThreads as real;
      assert end == a by { BackToStart(a, len, numThreads); }
      dummies, end := Carve(end, lenDummy, dxDummy, func, numDummy);
    }
    loads := args + dummies;
    if eps > 0.0 && a < b { AllBusy(loads, a, b, eps, numThreads, numLogicCpu, func); }
    var res;
    ends, res := JoinThreads(args + dummies, numThreads, func, a, len, dx);
    r := res * (if signInt then 1.0 else -1.0) * dx;
  }

  lemma BackToStart(a: real, len: real, threads: nat)
    ensures At(a, len, threads) - len * threads as real == a
  {
  }

  /** What a dummy thread gets of a step or a length. */
  function Spread(x: real, threads: nat, dummies: nat): (y: real)
    requires threads > 0 && dummies > 0
    ensures x > 0.0 ==> y > 0.0
    ensures x <= 0.0 ==> y <= 0.0
  {
    x * threads as real / dummies as real
  }

  // ------------------------------------------------------------------ when the two agree

  /** 1 / (eps * threads) is the positive integer n. */
  predicate Fits(eps: real, threads: nat, n: nat)
  {
    n > 0 && eps * threads as real * n as real == 1.0
  }

  lemma {:induction false} ShareIsSteps(d: real, eps: real, threads: nat, n: nat)
    requires d > 0.0 && eps > 0.0 && threads > 0
    ensures Fits(eps, threads, n) <==> n > 0 && Share(d, threads) == At(0.0, Dx(d, eps), n)
  {
    var t, m, len := threads as real, n as real, Share(d, threads);
    assert len * t == d;
    assert m * (d * eps) * t == d * (eps * t * m);
    if Fits(eps, threads, n) {
      assert m * (d * eps) * t == len * t;
      Cancel(m * (d * eps), len, t);
    } else if n > 0 && len == m * (d * eps) {
      Cancel(eps * t * m, 1.0, d);
    }
  }

  lemma {:induction false} Cancel(x: real, y: real, t: real)
    requires t > 0.0 && x * t == y * t
    ensures x == y
  {
    assert (x - y) * t == 0.0;
  }

  lemma {:induction false} PartsAreSamples(f: real -> real, a: real, len: real, dx: real, n: nat, i: nat)
    requires dx > 0.0 && n > 0 && len == At(0.0, dx, n)
    ensures At(a, len, i) == At(a, dx, n * i) && Parts(f, a, len, dx, i) == Samples(f, a, dx, n * i)
  {
    hide At, Steps;
    AtStart(a, len);
    AtStart(a, dx);
    if i > 0 {
      PartsAreSamples(f, a, len, dx, n, i - 1);
      assert n * (i - 1) + n == n * i;
      var x := At(a, len, i - 1);
      AtNext(a, len, i - 1);
      AtAdd(a, dx, n * (i - 1), n);
      AtMoved(0.0, x, dx, n);
      StepsExact(x, dx, n);
      AtRises(0.0, dx, 0, n);
      AtStart(0.0, dx);
      SamplesSplit(f, a, dx, n * (i - 1), n);
    }
  }

  lemma {:induction false} SharesAddUp(a: real, d: real, threads: nat)
    requires threads > 0
    ensures At(a, Share(d, threads), threads) == a + d
  {
    assert threads as real * (d / threads as real) == d;
  }

  lemma {:induction false} SplitIsSum(f: real -> real, a: real, b: real, eps: real, threads: nat, n: nat)
    requires a < b && eps > 0.0 && threads > 0 && Fits(eps, threads, n)
    ensures Parts(f, a, Share(b - a, threads), Dx(b - a, eps), threads) == Sum(f, a, b, Dx(b - a, eps))
  {
    hide At, Steps, Share, Dx, Fits;
    var len, dx := Share(b - a, threads), Dx(b - a, eps);
    ShareIsSteps(b - a, eps, threads, n);
    PartsAreSamples(f, a, len, dx, n, threads);
    SharesAddUp(a, b - a, threads);
    StepsExact(a, dx, n * threads);
    assert n * threads > 0;
  }

  /** For every function, the threads compute what the single loop does if 1 / (eps * threads) is a
      positive integer; and it takes that, unless there is one thread or nothing to integrate. */
  lemma {:induction false} WhenThreadsAgree(a: real, b: real, eps: real, threads: nat)
    requires (eps > 0.0 || a == b) && threads > 0
    ensures (forall f: real -> real :: Threaded(f, a, b, eps, threads) == Simple(f, a, b, eps))
            <==> a == b || threads == 1 || exists n: nat :: Fits(eps, threads, n)
  {
    hide Parts, Sum, Share, Dx, Fits;
    var lo, hi := if a <= b then a else b, if a <= b then b else a;
    forall f: real -> real
      ensures Threaded(f, a, b, eps, threads) == Simple(f, a, b, eps)
              || !(a == b || threads == 1 || exists n: nat :: Fits(eps, threads, n)) {
      if a == b {
        NothingToDo(f, a, Dx(0.0, eps), Share(0.0, threads), threads);
      } else if threads == 1 {
        OneThread(f, lo, hi, Dx(hi - lo, eps));
      } else if n: nat :| Fits(eps, threads, n) {
        SplitIsSum(f, lo, hi, eps, threads, n);
      }
    }
    if a != b && threads > 1 && !(exists n: nat :: Fits(eps, threads, n)) {
      var f := SpikeDiffers(lo, hi, eps, threads);
      var dx := Dx(hi - lo, eps);
      assert Threaded(f, a, b, eps, threads) != Simple(f, a, b, eps) by {
        var p, q := Parts(f, lo, Share(hi - lo, threads), dx, threads), Sum(f, lo, hi, dx);
        if p * dx == q * dx { Cancel(p, q, dx); }
      }
    }
  }

  lemma {:induction false} NothingToDo(f: real -> real, a: real, dx: real, len: real, i: nat)
    requires len <= 0.0
    ensures Parts(f, a, len, dx, i) == 0.0 && Sum(f, a, a, dx) == 0.0
  {
    if i > 0 { NothingToDo(f, a, dx, len, i - 1); }
  }

  lemma {:induction false} OneThread(f: real -> real, a: real, b: real, dx: real)
    requires dx > 0.0 || b <= a
    ensures Share(b - a, 1) == b - a && Parts(f, a, b - a, dx, 1) == Sum(f, a, b, dx)
  {
    AtStart(a, b - a);
    assert Parts(f, a, b - a, dx, 0) == 0.0;
  }

  // A spike at the second thread's first point: the threads see it, the single loop does not.

  function Spike(at: real): (f: real -> real)
  {
    x => if x == at then 1.0 else 0.0
  }

  lemma {:induction false} SpikeDiffers(a: real, b: real, eps: real, threads: nat) returns (f: real -> real)
    requires a < b && eps > 0.0 && threads > 1 && !(exists n: nat :: Fits(eps, threads, n))
    ensures Sum(f, a, b, Dx(b - a, eps)) == 0.0 && Parts(f, a, Share(b - a, threads), Dx(b - a, eps), threads) >= 1.0
  {
    hide At, Steps, Share, Dx, Fits;
    var len, dx := Share(b - a, threads), Dx(b - a, eps);
    var at := At(a, len, 1);
    f := Spike(at);
    AtNext(a, len, 0);
    AtStart(a, len);
    forall k: nat ensures At(a, dx, k) != at {
      ShareIsSteps(b - a, eps, threads, k);
      AtMoved(0.0, a, dx, k);
      AtStart(a, dx);
    }
    StepsPositive(a, b, dx);
    MissesSpike(at, a, dx, Steps(a, b, dx));
    HitsSpike(at, a, len, dx, threads);
  }

  lemma {:induction false} MissesSpike(at: real, a: real, dx: real, n: int)
    requires forall k: nat :: At(a, dx, k) != at
    ensures n >= 0 ==> Samples(Spike(at), a, dx, n) == 0.0
  {
    if n > 0 { MissesSpike(at, a, dx, n - 1); }
  }

  lemma {:induction false} HitsSpike(at: real, a: real, len: real, dx: real, i: nat)
    requires dx > 0.0 && len > 0.0 && i > 1 && at == At(a, len, 1)
    ensures Parts(Spike(at), a, len, dx, i) >= 1.0
  {
    hide At, Steps;
    var x := At(a, len, i - 1);
    StepsPositive(x, x + len, dx);
    SamplesOfSpike(at, x, dx, Steps(x, x + len, dx));
    if i == 2 {
      AtStart(x, dx);
      var first := At(a, len, 0);
      StepsPositive(first, first + len, dx);
      SamplesOfSpike(at, first, dx, Steps(first, first + len, dx));
      assert Parts(Spike(at), a, len, dx, 1)
             == Parts(Spike(at), a, len, dx, 0) + Sum(Spike(at), first, first + len, dx);
    } else {
      HitsSpike(at, a, len, dx, i - 1);
    }
  }

  lemma {:induction false} SamplesOfSpike(at: real, a: real, dx: real, n: int)
    ensures n >= 0 ==> Samples(Spike(at), a, dx, n) >= 0.0
    ensures n > 0 && At(a, dx, 0) == at ==> Samples(Spike(at), a, dx, n) >= 1.0
  {
    if n > 0 { SamplesOfSpike(at, a, dx, n - 1); }
  }

  // ------------------------------------------------------------------ the error for f (x) = x

  function X(x: real): (y: real) { x }

  /** The sum of m samples a, a + dx, ... of x. */
  function Series(a: real, dx: real, m: real): (s: real)
  {
    m * (a + (m - 1.0) * dx / 2.0)
  }

  lemma {:induction false} SamplesOfX(a: real, dx: real, n: nat)
    ensures Samples(X, a, dx, n) == Series(a, dx, n as real)
  {
    hide At, Series;
    if n > 0 {
      SamplesOfX(a, dx, n - 1);
      NextOfSeries(a, dx, n - 1);
    } else {
      NoSeries(a, dx);
    }
  }

  lemma NoSeries(a: real, dx: real)
    ensures Series(a, dx, 0.0) == 0.0
  {
  }

  lemma {:induction false} NextOfSeries(a: real, dx: real, k: nat)
    ensures Series(a, dx, (k + 1) as real) == Series(a, dx, k as real) + X(At(a, dx, k))
  {
    hide Series;
    var m := k as real;
    assert (k + 1) as real == m + 1.0;
    SeriesGrows(a, dx, m);
  }

  lemma {:induction false} SeriesGrows(a: real, dx: real, m: real)
    ensures Series(a, dx, m + 1.0) == Series(a, dx, m) + (a + m * dx)
  {
    var p, q := m * dx, m * a;
    calc {
      Series(a, dx, m) + (a + p);
      { Minus(m, dx); }
      m * (a + (p - dx) / 2.0) + (a + p);
      { Times(m, a, (p - dx) / 2.0); Times(m, p / 2.0, -dx / 2.0); }
      q + m * (p / 2.0) - p / 2.0 + (a + p);
      { Times(m, a, p / 2.0); }
      m * (a + p / 2.0) + (a + p / 2.0);
      { Times(a + p / 2.0, m, 1.0); }
      (m + 1.0) * (a + p / 2.0);
      Series(a, dx, m + 1.0);
    }
  }

  lemma Minus(m: real, d: real)
    ensures (m - 1.0) * d == m * d - d
  {
  }

  lemma Times(x: real, y: real, z: real)
    ensures x * (y + z) == x * y + x * z
  {
  }

  lemma {:induction false} SumOfX(a: real, b: real, eps: real, n: nat)
    requires a < b && eps > 0.0 && eps * n as real == 1.0
    ensures var d := b - a; Sum(X, a, b, Dx(d, eps)) * Dx(d, eps) == a * d + d * d / 2.0 - d * d * eps / 2.0
  {
    hide Steps;
    var d, m := b - a, n as real;
    var dx := Dx(d, eps);
    assert m * dx == d by { assert m * (d * eps) == d * (eps * m); }
    StepsExact(a, dx, n);
    assert At(a, dx, n) == b;
    SamplesOfX(a, dx, n);
    var s := Sum(X, a, b, dx);
    assert s == Series(a, dx, m);
    WeighedByDx(a, d, dx, m);
    assert d * dx == d * d * eps;
  }

  lemma {:induction false} WeighedByDx(a: real, d: real, dx: real, m: real)
    requires m * dx == d
    ensures m * (a + (m - 1.0) * dx / 2.0) * dx == a * d + d * d / 2.0 - d * dx / 2.0
  {
    assert (m - 1.0) * dx == d - dx;
    calc {
      m * (a + (m - 1.0) * dx / 2.0) * dx;
      m * (a + (d - dx) / 2.0) * dx;
      (m * dx) * (a + (d - dx) / 2.0);
      d * (a + (d - dx) / 2.0);
    }
  }

  /** With 1 / eps = n an integer, the left-point sum for x misses the exact integral by
      (b - a)^2 * eps / 2: it is too small for a < b and too large for b < a. */
  lemma {:induction false} ErrorOfX(a: real, b: real, eps: real, n: nat)
    requires eps > 0.0 && eps * n as real == 1.0
    ensures Simple(X, a, b, eps)
            == (b * b - a * a) / 2.0 - (if a <= b then 1.0 else -1.0) * (b - a) * (b - a) * eps / 2.0
  {
    hide Sum, Dx;
    if a < b {
      SumOfX(a, b, eps, n);
      Squares(a, b, eps);
    } else if b < a {
      SumOfX(b, a, eps, n);
      Squares(b, a, eps);
    } else {
      NothingToDo(X, a, Dx(0.0, eps), 0.0, 0);
    }
  }

  lemma {:induction false} Squares(a: real, b: real, eps: real)
    ensures var d := b - a; a * d + d * d / 2.0 == (b * b - a * a) / 2.0
    ensures (a - b) * (a - b) * eps == (b - a) * (b - a) * eps
  {
  }
}
