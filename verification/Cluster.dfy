/** One integral spread over machines: the server cuts [a, b] into tasks for its clients and itself,
    every machine cuts its task into threads, and the server adds the answers up. */
module Cluster {
  import opened Common
  import opened Integral

  /** The integrands a task can name. */
  datatype TypeFunc = TypeX | TypeXMultX

  function XMultX(x: real): (y: real) { x * x }

  function Integrand(t: TypeFunc): (f: real -> real)
  {
    if t == TypeX then X else XMultX
  }

  /** What is sent to a client. */
  datatype CompUnitTask = CompUnitTask(a: real, b: real, dx: real, typeFunc: TypeFunc, numThreads: nat)

  /** A double: the code can produce 0 / 0 here. */
  datatype Number = NotANumber | Finite(x: real)

  /** `Hangs`: the call waits, or computes, for ever. */
  datatype Status = Ok | Failed | Hangs

  function Abs(x: real): (y: real)
  {
    if x < 0.0 then -x else x
  }

  /** What a machine makes of a task: it is silent without threads, computes for ever with a step
      backwards, and otherwise answers. */
  datatype Answer = Silent | Forever | Answered(value: Number)

  /** `_integral_linear` on `CompUnitTask2IntArg`: an empty interval makes the relative step 0 / 0 or
      infinite, and either way the result; a step of 0 is refused with a NaN. */
  function Answers(task: CompUnitTask): (r: Answer)
  {
    if task.numThreads == 0 then Silent
    else if task.a == task.b || task.dx == 0.0 then Answered(NotANumber)
    else if task.dx < 0.0 then Forever
    else
      RelativeStep(task.dx, Abs(task.b - task.a));
      var eps := task.dx / Abs(task.b - task.a);
      Answered(Finite(Threaded(Integrand(task.typeFunc), task.a, task.b, eps, task.numThreads)))
  }

  lemma {:induction false} RelativeStep(dx: real, d: real)
    requires d > 0.0
    ensures dx / d > 0.0 <==> dx > 0.0
    ensures dx / d == 0.0 <==> dx == 0.0
  {
    assert dx / d * d == dx;
  }

  method ComputeUnit(task: CompUnitTask) returns (answer: Answer)
    ensures answer == Answers(task)
  {
    hide Threaded;
    if task.numThreads == 0 { return Silent; }
    if task.a == task.b { return Answered(NotANumber); }
    RelativeStep(task.dx, Abs(task.b - task.a));
    var eps := task.dx / Abs(task.b - task.a);
    if eps == 0.0 { return Answered(NotANumber); }
    var numLogicCpu :| numLogicCpu >= 0;
    var ends, result, _ := IntegralLinear(task.a, task.b, Integrand(task.typeFunc), eps, task.numThreads, numLogicCpu);
    return if ends then Answered(Finite(result)) else Forever;
  }

  // ------------------------------------------------------------------ the division of work

  /** Unit c of `units`, clients first and the server last. */
  function Local(threads: nat, units: nat, c: nat): (n: nat)
    requires units > 0
  {
    Full(threads, units) + if c < Extra(threads, units) then 1 else 0
  }

  /** The threads of the units before c. */
  function First(threads: nat, units: nat, c: nat): (n: nat)
    requires units > 0
  {
    if c == 0 then 0 else First(threads, units, c - 1) + Local(threads, units, c - 1)
  }

  lemma {:induction false} FirstClosed(threads: nat, units: nat, c: nat)
    requires units > 0
    ensures First(threads, units, c) == c * Full(threads, units) + Least(c, Extra(threads, units))
  {
    hide Full, Extra;
    if c > 0 {
      FirstClosed(threads, units, c - 1);
      assert c * Full(threads, units) == (c - 1) * Full(threads, units) + Full(threads, units);
    } else {
      assert 0 * Full(threads, units) == 0;
    }
  }

  lemma {:induction false} AllAssigned(threads: nat, units: nat)
    requires units > 0
    ensures First(threads, units, units) == threads && Local(threads, units, units - 1) == Full(threads, units)
  {
    hide Full, Extra, First;
    Dealt(threads, units);
    FirstClosed(threads, units, units);
  }

  function TaskOf(a: real, len: real, dx: real, threads: nat, units: nat, c: nat): (t: CompUnitTask)
    requires units > 0
  {
    CompUnitTask(At(a, len, First(threads, units, c)), At(a, len, First(threads, units, c + 1)), dx, TypeX,
                 Local(threads, units, c))
  }

  /** The length of one thread's part, negative if b < a.  Without threads the code divides by 0, but
      then every task has length 0 * len and is not looked at. */
  function Length(a: real, b: real, threads: nat): (len: real)
  {
    if threads == 0 then 0.0 else (b - a) / threads as real
  }

  lemma {:induction false} LengthIsShare(a: real, b: real, threads: nat)
    requires threads > 0
    ensures a < b ==> Length(a, b, threads) == Share(b - a, threads) > 0.0
    ensures b < a ==> Length(a, b, threads) == -Share(a - b, threads) < 0.0
    ensures At(a, Length(a, b, threads), threads) == b
  {
    var t, len := threads as real, Length(a, b, threads);
    assert len * t == b - a;
    if b < a {
      assert (a - b) / t * t == a - b;
      Cancel(len, -((a - b) / t), t);
    }
  }

  /** The tasks, the server's own last, lie end to end from a to b, and use every thread once. */
  lemma {:induction false} TasksTile(a: real, b: real, dx: real, threads: nat, units: nat)
    requires threads > 0 && units > 0
    ensures First(threads, units, units) == threads
    ensures var len := Length(a, b, threads);
            && TaskOf(a, len, dx, threads, units, 0).a == a && TaskOf(a, len, dx, threads, units, units - 1).b == b
            && forall c: nat :: TaskOf(a, len, dx, threads, units, c).b == TaskOf(a, len, dx, threads, units, c + 1).a
  {
    hide At, Length;
    AtStart(a, Length(a, b, threads));
    AllAssigned(threads, units);
    LengthIsShare(a, b, threads);
  }

  // ------------------------------------------------------------------ adding the answers up

  /** What a unit contributes. */
  function Value(task: CompUnitTask): (v: real)
    requires task.dx > 0.0
  {
    if task.numThreads == 0 || task.a == task.b then 0.0
    else Threaded(Integrand(task.typeFunc), task.a, task.b, task.dx / Abs(task.b - task.a), task.numThreads)
  }

  function Values(a: real, len: real, dx: real, threads: nat, units: nat, c: nat): (v: real)
    requires units > 0 && dx > 0.0
  {
    if c == 0 then 0.0
    else Values(a, len, dx, threads, units, c - 1) + Value(TaskOf(a, len, dx, threads, units, c - 1))
  }

  /** A unit recovers the common thread length and the common step from its task. */
  lemma {:induction false} Recovered(d: real, len: real, dx: real, k: nat)
    requires len > 0.0 && dx > 0.0 && k > 0 && d == k as real * len
    ensures d > 0.0 && Share(d, k) == len && dx / d > 0.0 && Dx(d, dx / d) == dx
  {
    assert d / k as real == len by { assert len * k as real == d; }
  }

  lemma {:induction false} ValueUp(s: real, len: real, dx: real, k: nat, t: TypeFunc)
    requires len > 0.0 && dx > 0.0 && k > 0
    ensures Value(CompUnitTask(s, At(s, len, k), dx, t, k)) == Parts(Integrand(t), s, len, dx, k) * dx
  {
    Recovered(k as real * len, len, dx, k);
    assert At(s, len, k) - s == k as real * len;
  }

  lemma {:induction false} ValueDown(s: real, len: real, dx: real, k: nat, t: TypeFunc)
    requires len > 0.0 && dx > 0.0 && k > 0
    ensures Value(CompUnitTask(At(s, len, k), s, dx, t, k)) == -Parts(Integrand(t), s, len, dx, k) * dx
  {
    Recovered(k as real * len, len, dx, k);
    assert At(s, len, k) - s == k as real * len;
  }

  /** A machine answers a task for x or x * x with what k threads of length len add up at exactly the
      step it was sent, and with the opposite for a part that runs downwards. */
  lemma {:induction false} AnyIntegrand(s: real, len: real, dx: real, k: nat, t: TypeFunc, x: real)
    requires len > 0.0 && dx > 0.0 && k > 0
    ensures Integrand(t)(x) == if t == TypeX then x else x * x
    ensures var r := Parts(Integrand(t), s, len, dx, k) * dx;
            && Answers(CompUnitTask(s, At(s, len, k), dx, t, k)) == Answered(Finite(r))
            && Answers(CompUnitTask(At(s, len, k), s, dx, t, k)) == Answered(Finite(-r))
  {
    hide Threaded, Parts, At;
    ValueUp(s, len, dx, k, t);
    ValueDown(s, len, dx, k, t);
    AtRises(s, len, 0, k);
    AtStart(s, len);
  }

  lemma {:induction false} PartsSplit(f: real -> real, a: real, len: real, dx: real, i: nat, j: nat)
    requires dx > 0.0
    ensures Parts(f, a, len, dx, i + j) == Parts(f, a, len, dx, i) + Parts(f, At(a, len, i), len, dx, j)
  {
    hide At, Sum;
    if j > 0 {
      PartsSplit(f, a, len, dx, i, j - 1);
      AtAdd(a, len, i, j - 1);
    }
  }

  /** The units below c have added up what the threads before theirs would. */
  lemma {:induction false} ValuesUp(a: real, len: real, dx: real, threads: nat, units: nat, c: nat)
    requires units > 0 && len > 0.0 && dx > 0.0
    ensures Values(a, len, dx, threads, units, c) == Parts(X, a, len, dx, First(threads, units, c)) * dx
  {
    hide At, Value, Local, Parts;
    NoParts(a, len, dx);
    if c > 0 {
      ValuesUp(a, len, dx, threads, units, c - 1);
      var i, k := First(threads, units, c - 1), Local(threads, units, c - 1);
      PartsSplit(X, a, len, dx, i, k);
      AtAdd(a, len, i, k);
      if k > 0 {
        ValueUp(At(a, len, i), len, dx, k, TypeX);
      } else {
        NoValue(TaskOf(a, len, dx, threads, units, c - 1));
      }
    }
  }

  lemma NoValue(task: CompUnitTask)
    requires task.dx > 0.0 && task.numThreads == 0
    ensures Value(task) == 0.0
  {
  }

  /** Downwards from a = b + T * len, the units below c have done all but the lowest threads. */
  lemma {:induction false} ValuesDown(b: real, len: real, dx: real, threads: nat, units: nat, c: nat)
    requires units > 0 && len > 0.0 && dx > 0.0 && First(threads, units, c) <= threads
    ensures Values(At(b, len, threads), -len, dx, threads, units, c)
            == -(Parts(X, b, len, dx, threads) - Parts(X, b, len, dx, threads - First(threads, units, c))) * dx
  {
    hide At, Value, Local, Parts;
    if c > 0 {
      ValuesDown(b, len, dx, threads, units, c - 1);
      var i, k := First(threads, units, c - 1), Local(threads, units, c - 1);
      PartsSplit(X, b, len, dx, threads - i - k, k);
      AtBack(b, len, threads, i);
      AtBack(b, len, threads, i + k);
      AtAdd(b, len, threads - i - k, k);
      if k > 0 {
        ValueDown(At(b, len, threads - i - k), len, dx, k, TypeX);
      } else {
        NoValue(TaskOf(At(b, len, threads), -len, dx, threads, units, c - 1));
      }
    }
  }

  lemma {:induction false} AtBack(b: real, len: real, threads: nat, i: nat)
    ensures At(At(b, len, threads), -len, i) == At(b, len, threads - i)
  {
    hide At;
    AtStart(At(b, len, threads), -len);
    if i > 0 {
      AtBack(b, len, threads, i - 1);
      AtNext(At(b, len, threads), -len, i - 1);
      AtNext(b, len, threads - i);
    }
  }

  /** The units together compute what one machine with all the threads would. */
  lemma {:induction false} SameAsOneMachine(a: real, b: real, eps: real, threads: nat, units: nat)
    requires a != b && eps > 0.0 && threads > 0 && units > 0
    ensures Abs(b - a) * eps > 0.0
    ensures Values(a, Length(a, b, threads), Abs(b - a) * eps, threads, units, units)
            == Threaded(X, a, b, eps, threads)
  {
    hide At, Value, Values, Parts, Length;
    var d := Abs(b - a);
    var dx, len := Dx(d, eps), Share(d, threads);
    AllAssigned(threads, units);
    LengthIsShare(a, b, threads);
    if a < b {
      ValuesUp(a, len, dx, threads, units, units);
      assert d == b - a && dx == Abs(b - a) * eps;
    } else {
      SharesAddUp(b, d, threads);
      ValuesDown(b, len, dx, threads, units, units);
      NoParts(b, len, dx);
      var whole, none := Parts(X, b, len, dx, threads), Parts(X, b, len, dx, threads - First(threads, units, units));
      assert none == 0.0 && -(whole - none) * dx == -whole * dx;
      assert Length(a, b, threads) == -len && dx == Abs(b - a) * eps && d == a - b;
      assert Threaded(X, a, b, eps, threads) == -whole * dx;
      assert At(b, len, threads) == a;
      assert Values(a, -len, dx, threads, units, units) == -(whole - none) * dx;
    }
  }

  lemma NoParts(a: real, len: real, dx: real)
    requires dx > 0.0
    ensures Parts(X, a, len, dx, 0) == 0.0
  {
  }

  function Plus(n: Number, x: real): (m: Number)
  {
    if n.Finite? then Finite(n.x + x) else NotANumber
  }

  method SendTasks(numClients: nat, numThreads: nat, a: real, b: real, eps: real)
    returns (sent: seq<CompUnitTask>, own: CompUnitTask)
    ensures |sent| == numClients
    ensures forall c | 0 <= c < numClients ::
              sent[c] == TaskOf(a, Length(a, b, numThreads), Abs(b - a) * eps, numThreads, numClients + 1, c)
    ensures own == TaskOf(a, Length(a, b, numThreads), Abs(b - a) * eps, numThreads, numClients + 1, numClients)
  {
    hide At, Length, Abs, Full, Extra;
    var len, units := Length(a, b, numThreads), numClients + 1;
    var numExtraThreads, numFullThreads := Extra(numThreads, units), Full(numThreads, units);
    var task := CompUnitTask(a, a, Abs(b - a) * eps, TypeX, 0);
    AtStart(a, len);
    sent := [];
    for c := 0 to numClients
      invariant |sent| == c && task.b == At(a, len, First(numThreads, units, c)) && task.dx == Abs(b - a) * eps
      invariant task.typeFunc == TypeX
      invariant forall j | 0 <= j < c :: sent[j] == TaskOf(a, len, Abs(b - a) * eps, numThreads, units, j)
    {
      var local := numFullThreads + if c < numExtraThreads then 1 else 0;
      AtForward(a, len, First(numThreads, units, c), local);
      task := task.(a := task.b, b := task.b + len * local as real, numThreads := local);
      sent := sent + [task];
    }
    AtForward(a, len, First(numThreads, units, numClients), numFullThreads);
    own := task.(a := task.b, b := task.b + len * numFullThreads as real, numThreads := numFullThreads);
  }

  lemma {:induction false} AtForward(a: real, len: real, i: nat, k: nat)
    ensures At(a, len, i + k) == At(a, len, i) + len * k as real
  {
    assert (i + k) as real * len == i as real * len + k as real * len;
  }

  lemma {:induction false} WhoGetsThreads(threads: nat, units: nat)
    requires units > 0
    ensures Local(threads, units, units - 1) > 0 <==> threads >= units
    ensures (forall c: nat | c < units - 1 :: Local(threads, units, c) > 0) <==> threads >= units - 1
    ensures Local(threads, units, 0) > 0 <==> threads > 0
  {
    hide Full, Extra;
    DealtFew(threads, units);
    if threads < units - 1 { assert Local(threads, units, threads) == 0; }
  }

  lemma ValuesNext(a: real, len: real, dx: real, threads: nat, units: nat, c: nat)
    requires units > 0 && dx > 0.0
    ensures Values(a, len, dx, threads, units, c + 1)
            == Values(a, len, dx, threads, units, c) + Value(TaskOf(a, len, dx, threads, units, c))
  {
  }

  /** Reading the clients' answers; `result0` is what there is before. */
  method Gather(sent: seq<CompUnitTask>, ghost a: real, ghost len: real, ghost dx: real, ghost threads: nat,
          ghost units: nat, result0: Number)
    returns (status: Status, result: Number)
    requires units > |sent|
    requires forall c | 0 <= c < |sent| :: sent[c] == TaskOf(a, len, dx, threads, units, c)
    ensures status == Hangs <==> dx < 0.0 && len != 0.0 && |sent| > 0 && Local(threads, units, 0) > 0
    ensures status == Ok ==> forall c: nat | c < |sent| :: Local(threads, units, c) > 0
    ensures status == Failed ==> exists c: nat :: c < |sent| && Local(threads, units, c) == 0
    ensures status == Ok && len != 0.0 && dx > 0.0 ==>
              result == Plus(result0, Values(a, len, dx, threads, units, |sent|))
    ensures status == Ok && (len == 0.0 || dx <= 0.0) ==> result == if sent == [] then result0 else NotANumber
  {
    hide At, Local, Threaded;
    result := result0;
    for c := 0 to |sent|
      invariant forall j: nat | j < c :: Local(threads, units, j) > 0
      invariant c > 0 ==> len == 0.0 || dx >= 0.0
      invariant len != 0.0 && dx > 0.0 ==> result == Plus(result0, Values(a, len, dx, threads, units, c))
      invariant len == 0.0 || dx <= 0.0 ==> result == if c == 0 then result0 else NotANumber
    {
      TaskWidth(a, len, First(threads, units, c), Local(threads, units, c));
      if c > 0 { MoreForEarlier(threads, units, c); }
      var answer := ComputeUnit(sent[c]);
      if answer.Silent? { return Failed, result; }
      if answer.Forever? { return Hangs, result; }
      result := if answer.value.Finite? then Plus(result, answer.value.x) else NotANumber;
    }
    return Ok, result;
  }

  lemma {:induction false} MoreForEarlier(threads: nat, units: nat, c: nat)
    requires units > 0
    ensures Local(threads, units, c) <= Local(threads, units, 0)
  {
    hide Full, Extra;
  }

  lemma {:induction false} TaskWidth(a: real, len: real, i: nat, k: nat)
    ensures At(a, len, i + k) == At(a, len, i) <==> len == 0.0 || k == 0
  {
    AtForward(a, len, i, k);
  }

  /** Nothing to add up, or no way to: a NaN comes out of every share. */
  ghost predicate Degenerate(a: real, b: real, eps: real)
  {
    a == b || eps == 0.0
  }

  /** `hpcnetCalcIntegral`.  With a step backwards nothing ever comes back; otherwise it fails exactly
      when some client gets no thread, and so never answers, or when the server's own share is not a
      number.  Its answer is that of one machine, added to what was in `*result` before if the server
      gets no thread. */
  method HpcnetCalcIntegral(numClients: nat, numThreads: nat, a: real, b: real, eps: real, result0: Number)
    returns (status: Status, result: Number)
    ensures status == Hangs <==> numThreads > 0 && a != b && eps < 0.0
    ensures status == Failed <==>
              status != Hangs && (numThreads < numClients || (Degenerate(a, b, eps) && numThreads > numClients))
    ensures status == Ok && numThreads > 0 && !Degenerate(a, b, eps) ==>
              result == Plus(if numThreads == numClients then result0 else Finite(0.0),
                             Threaded(X, a, b, eps, numThreads))
    ensures status == Ok && numThreads > 0 && Degenerate(a, b, eps) ==> result == NotANumber
    ensures status == Ok && numThreads == 0 ==> result == result0
  {
    hide At, Threaded, Values, Local, Length, First, TaskOf;
    var units := numClients + 1;
    WhoGetsThreads(numThreads, units);
    ghost var len, dx := Length(a, b, numThreads), Abs(b - a) * eps;
    NoLength(a, b, numThreads);
    StepOf(a, b, eps);
    var sent, own := SendTasks(numClients, numThreads, a, b, eps);
    OwnTask(a, len, dx, numThreads, numClients);
    if numThreads > 0 && a != b && eps > 0.0 {
      SameAsOneMachine(a, b, eps, numThreads, units);
      ValuesNext(a, len, dx, numThreads, units, numClients);
    }
    result := result0;
    if own.numThreads != 0 {
      var answer := ComputeUnit(own);
      if answer.Forever? { return Hangs, result; }
      result := answer.value;
      if result.NotANumber? { return Failed, result; }
    }
    status, result := Gather(sent, a, len, dx, numThreads, units, result);
  }

  lemma {:induction false} NoLength(a: real, b: real, threads: nat)
    ensures Length(a, b, threads) == 0.0 <==> a == b || threads == 0
  {
    if threads > 0 { assert Length(a, b, threads) * threads as real == b - a; }
  }

  lemma {:induction false} StepOf(a: real, b: real, eps: real)
    ensures a == b ==> Abs(b - a) * eps == 0.0
    ensures a != b ==> (Abs(b - a) * eps > 0.0 <==> eps > 0.0) && (Abs(b - a) * eps < 0.0 <==> eps < 0.0)
  {
  }

  lemma {:induction false} OwnTask(a: real, len: real, dx: real, threads: nat, clients: nat)
    ensures var own := TaskOf(a, len, dx, threads, clients + 1, clients);
            && own.dx == dx && own.typeFunc == TypeX && own.numThreads == Local(threads, clients + 1, clients)
            && (own.numThreads > 0 ==> (own.a == own.b <==> len == 0.0))
  {
    hide At, Local;
    TaskWidth(a, len, First(threads, clients + 1, clients), Local(threads, clients + 1, clients));
  }
}
