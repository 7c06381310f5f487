/** n child processes that must print 1, 2, ..., n in order: the child with number k waits for a
    message of type k - 1, prints and sends a message of type k; the parent waits for type n. */
module TokenChain {

  /** Before `msgrcv`; before `printf`; before `msgsnd`; exited. */
  datatype ChildAt = Awaits | Prints | Sends | Exited

  /** In the fork loop; before `msgrcv`; before `printf ("\n")`; before `msgctl`; returned; gone
      because `fork` failed. */
  datatype ParentAt = Forks | Waits | Breaks | Removes | Returned | Aborted

  datatype State = State(
    parent: ParentAt,
    children: seq<ChildAt>,   // those forked so far; index k - 1 is child k
    queue: seq<int>,          // the types of the queued messages, oldest first
    removed: bool,
    printed: seq<int>)

  const START := State(Forks, [], [], false, [])

  datatype Step = Fork | ForkFails | ParentStep | ChildStep(k: nat)

  predicate CanStep(s: State, n: int, step: Step)
  {
    match step
    case Fork => s.parent == Forks && |s.children| < n
    case ForkFails => s.parent == Forks && |s.children| < n
    case ParentStep =>
      (match s.parent
       case Forks => |s.children| >= n
       case Waits => n in s.queue
       case Breaks => true
       case Removes => true
       case _ => false)
    case ChildStep(k) =>
      1 <= k <= |s.children| && (match s.children[k - 1]
       case Awaits => k == 1 || k - 1 in s.queue
       case Exited => false
       case _ => true)
  }

  /** The queue without its first message of the given type. */
  function Receive(queue: seq<int>, kind: int): (rest: seq<int>)
    requires kind in queue
    ensures multiset(rest) == multiset(queue) - multiset{kind} && |rest| == |queue| - 1
  {
    if queue[0] == kind then
      assert queue == [queue[0]] + queue[1..]; queue[1..]
    else
      assert queue == [queue[0]] + queue[1..]; [queue[0]] + Receive(queue[1..], kind)
  }

  function DoStep(s: State, n: int, step: Step): (t: State)
    requires CanStep(s, n, step)
  {
    match step
    case Fork => s.(children := s.children + [Awaits])
    case ForkFails => s.(parent := Aborted)
    case ParentStep =>
      (match s.parent
       case Forks => s.(parent := if n > 0 then Waits else Breaks)
       case Waits => s.(parent := Breaks, queue := Receive(s.queue, n))
       case Breaks => s.(parent := Removes)
       case _ => s.(parent := Returned, removed := true))
    case ChildStep(k) =>
      (match s.children[k - 1]
       case Awaits =>
         s.(children := s.children[k - 1 := Prints], queue := if k == 1 then s.queue else Receive(s.queue, k - 1))
       case Prints => s.(children := s.children[k - 1 := Sends], printed := s.printed + [k])
       case _ => s.(children := s.children[k - 1 := Exited], queue := s.queue + [k]))
  }

  /** 1, 2, ..., p. */
  function UpTo(p: nat): (s: seq<int>)
    ensures |s| == p && forall k | 0 <= k < p :: s[k] == k + 1
  {
    if p == 0 then [] else UpTo(p - 1) + [p]
  }

  // ------------------------------------------------------------------ what every step keeps

  /** The message of child p, the last that printed, is under way: sent and not yet received. */
  predicate InQueue(s: State, n: int)
  {
    var p := |s.printed|;
    && 0 < p <= |s.children| && s.children[p - 1] == Exited
    && (p < |s.children| ==> s.children[p] == Awaits)
    && (p == n ==> s.parent in {Forks, Waits})
  }

  predicate Inv(s: State, n: int)
  {
    var p := |s.printed|;
    && s.printed == UpTo(p) && p <= |s.children|
    && (|s.children| <= n || |s.children| == 0)
    && (forall k | 0 <= k < p - 1 :: s.children[k] == Exited)
    && (p > 0 ==> s.children[p - 1] in {Sends, Exited})
    && (p < |s.children| ==> s.children[p] in {Awaits, Prints})
    && (0 < p < |s.children| && s.children[p] == Prints ==> s.children[p - 1] == Exited)
    && (forall k | p < k < |s.children| :: s.children[k] == Awaits)
    && s.queue == (if InQueue(s, n) then [p] else [])
    && (s.parent !in {Forks, Aborted} ==> |s.children| >= n)
    && (s.parent in {Breaks, Removes, Returned} && n > 0 ==> p == n && s.children[p - 1] == Exited)
    && (s.parent == Waits ==> n > 0) && (s.parent == Aborted ==> n > |s.children|)
    && (s.removed <==> s.parent == Returned)
  }

  /** Which child can act: the next one in line, or the one that has printed and not yet sent. */
  lemma {:induction false} WhoseTurn(s: State, n: int, k: nat)
    requires Inv(s, n) && CanStep(s, n, ChildStep(k))
    ensures match s.children[k - 1]
            case Awaits => k == |s.printed| + 1 && (k > 1 ==> s.queue == [k - 1] && InQueue(s, n))
            case Prints => k == |s.printed| + 1 && s.queue == []
            case _ => k == |s.printed| && s.children[k - 1] == Sends && s.queue == []
  {
    hide UpTo;
  }

  lemma {:induction false} ReceiveOnly(kind: int)
    ensures Receive([kind], kind) == []
  {
  }

  lemma {:induction false} ReceiptKeeps(s: State, n: int, k: nat)
    requires Inv(s, n) && CanStep(s, n, ChildStep(k)) && s.children[k - 1] == Awaits
    ensures Inv(DoStep(s, n, ChildStep(k)), n)
  {
    hide UpTo, Receive;
    WhoseTurn(s, n, k);
    ReceiveOnly(k - 1);
  }

  lemma {:induction false} PrintKeeps(s: State, n: int, k: nat)
    requires Inv(s, n) && CanStep(s, n, ChildStep(k)) && s.children[k - 1] == Prints
    ensures Inv(DoStep(s, n, ChildStep(k)), n)
  {
    hide UpTo, Receive;
    WhoseTurn(s, n, k);
    UpToNext(|s.printed|);
  }

  lemma {:induction false} SendKeeps(s: State, n: int, k: nat)
    requires Inv(s, n) && CanStep(s, n, ChildStep(k)) && s.children[k - 1] == Sends
    ensures Inv(DoStep(s, n, ChildStep(k)), n)
  {
    hide UpTo, Receive;
    WhoseTurn(s, n, k);
  }

  lemma {:induction false} UpToNext(p: nat)
    ensures UpTo(p + 1) == UpTo(p) + [p + 1]
  {
  }

  lemma {:induction false} ForkKeeps(s: State, n: int, step: Step)
    requires Inv(s, n) && CanStep(s, n, step) && (step.Fork? || step.ForkFails?)
    ensures Inv(DoStep(s, n, step), n)
  {
    hide UpTo, Receive;
  }

  lemma {:induction false} ParentReceives(s: State, n: int)
    requires Inv(s, n) && CanStep(s, n, ParentStep) && s.parent == Waits
    ensures Inv(DoStep(s, n, ParentStep), n)
  {
    hide UpTo, Receive;
    ReceiveOnly(n);
    assert s.queue == [n] && |s.printed| == n;
  }

  lemma {:induction false} ParentStepKeeps(s: State, n: int)
    requires Inv(s, n) && CanStep(s, n, ParentStep)
    ensures Inv(DoStep(s, n, ParentStep), n)
  {
    hide UpTo, Receive;
    if s.parent == Waits { ParentReceives(s, n); }
  }

  lemma {:induction false} StepKeeps(s: State, n: int, step: Step)
    requires Inv(s, n) && CanStep(s, n, step)
    ensures Inv(DoStep(s, n, step), n)
  {
    hide Inv, DoStep;
    match step
    case Fork => ForkKeeps(s, n, step);
    case ForkFails => ForkKeeps(s, n, step);
    case ParentStep => ParentStepKeeps(s, n);
    case ChildStep(k) =>
      match s.children[k - 1] {
        case Awaits => ReceiptKeeps(s, n, k);
        case Prints => PrintKeeps(s, n, k);
        case _ => SendKeeps(s, n, k);
      }
  }

  /** How many steps are still to come. */
  function ToDo(c: ChildAt): (m: nat)
  {
    match c case Awaits => 3 case Prints => 2 case Sends => 1 case Exited => 0
  }

  function AllToDo(children: seq<ChildAt>): (m: nat)
  {
    if children == [] then 0 else AllToDo(children[..|children| - 1]) + ToDo(children[|children| - 1])
  }

  function Measure(s: State, n: int): (m: nat)
  {
    AllToDo(s.children)
    + (match s.parent
       case Forks => 4 + if |s.children| < n then 4 * (n - |s.children|) else 0
       case Waits => 3
       case Breaks => 2
       case Removes => 1
       case _ => 0)
  }

  lemma {:induction false} OneLess(children: seq<ChildAt>, k: nat, c: ChildAt)
    requires k < |children|
    ensures AllToDo(children[k := c]) == AllToDo(children) - ToDo(children[k]) + ToDo(c)
  {
    var last := |children| - 1;
    if k < last {
      assert children[k := c][..last] == children[..last][k := c];
      OneLess(children[..last], k, c);
    } else {
      assert children[k := c][..last] == children[..last];
    }
  }

  lemma {:induction false} StepFalls(s: State, n: int, step: Step)
    requires CanStep(s, n, step)
    ensures Measure(DoStep(s, n, step), n) < Measure(s, n)
  {
    match step
    case Fork => assert (s.children + [Awaits])[..|s.children|] == s.children;
    case ChildStep(k) =>
      OneLess(s.children, k - 1, match s.children[k - 1] case Awaits => Prints case Prints => Sends case _ => Exited);
    case _ =>
  }

  // ------------------------------------------------------------------ runs

  /** A run: every step is possible when it is taken. */
  predicate Run(s: State, n: int, schedule: seq<Step>)
    decreases |schedule|
  {
    schedule == [] || (CanStep(s, n, schedule[0]) && Run(DoStep(s, n, schedule[0]), n, schedule[1..]))
  }

  function After(s: State, n: int, schedule: seq<Step>): (t: State)
    requires Run(s, n, schedule)
    decreases |schedule|
  {
    if schedule == [] then s else After(DoStep(s, n, schedule[0]), n, schedule[1..])
  }

  lemma {:induction false} RunKeeps(s: State, n: int, schedule: seq<Step>)
    requires Inv(s, n) && Run(s, n, schedule)
    ensures Inv(After(s, n, schedule), n) && |schedule| + Measure(After(s, n, schedule), n) <= Measure(s, n)
    decreases |schedule|
  {
    hide Inv, CanStep, DoStep, Measure;
    if schedule != [] {
      StepKeeps(s, n, schedule[0]);
      StepFalls(s, n, schedule[0]);
      RunKeeps(DoStep(s, n, schedule[0]), n, schedule[1..]);
    }
  }

  /** Every run, for every n, is at most 4n + 4 steps long; what is printed is a prefix of 1..n; at
      most one message is queued; the queue is removed only when every child has sent. */
  lemma {:induction false} EveryRunIsOrdered(n: int, schedule: seq<Step>)
    requires Run(START, n, schedule)
    ensures |schedule| <= 4 + if n > 0 then 4 * n else 0
    ensures var s := After(START, n, schedule);
            && s.printed == UpTo(|s.printed|) && (|s.printed| <= n || s.printed == []) && |s.queue| <= 1
            && (s.removed && n > 0 ==>
                  s.printed == UpTo(n) && |s.children| == n && forall k | 0 <= k < n :: s.children[k] == Exited)
  {
    RunKeeps(START, n, schedule);
  }

  /** A state in which nothing can happen is final: the parent has returned after 1..n was printed, or
      `fork` failed and the children there are have printed all their numbers. */
  lemma {:induction false} StuckIsFinished(s: State, n: int)
    requires Inv(s, n) && forall step :: !CanStep(s, n, step)
    ensures s.parent in {Returned, Aborted} && s.printed == UpTo(|s.children|)
    ensures s.parent == Returned && n > 0 ==> s.printed == UpTo(n)
    ensures forall k | 0 <= k < |s.children| :: s.children[k] == Exited
  {
    var p := |s.printed|;
    assert !CanStep(s, n, Fork) && !CanStep(s, n, ParentStep);
    if p > 0 { assert !CanStep(s, n, ChildStep(p)); }
    assert !CanStep(s, n, ChildStep(p + 1));
  }

  lemma {:induction false} AbortedByFork(s: State, n: int, schedule: seq<Step>)
    requires Run(s, n, schedule)
    ensures After(s, n, schedule).parent == Aborted <==> s.parent == Aborted || ForkFails in schedule
    decreases |schedule|
  {
    hide Receive;
    if schedule != [] {
      assert schedule == [schedule[0]] + schedule[1..];
      AbortedByFork(DoStep(s, n, schedule[0]), n, schedule[1..]);
    }
  }

  /** So a run that cannot go on has printed what it should. */
  lemma {:induction false} MaximalRunIsFinished(n: int, schedule: seq<Step>)
    requires Run(START, n, schedule) && forall step :: !CanStep(After(START, n, schedule), n, step)
    ensures var s := After(START, n, schedule);
            && s.parent in {Returned, Aborted} && s.printed == UpTo(|s.children|)
            && (s.parent == Returned && n > 0 ==> s.printed == UpTo(n))
            && (forall k | 0 <= k < |s.children| :: s.children[k] == Exited)
            && (s.parent == Aborted <==> ForkFails in schedule)
  {
    hide Inv, CanStep, UpTo, Run;
    StartKeeps(n);
    AbortedByFork(START, n, schedule);
    RunKeeps(START, n, schedule);
    StuckIsFinished(After(START, n, schedule), n);
  }

  lemma {:induction false} RunOn(s: State, n: int, schedule: seq<Step>, step: Step)
    requires Run(s, n, schedule) && CanStep(After(s, n, schedule), n, step)
    ensures Run(s, n, schedule + [step])
    ensures After(s, n, schedule + [step]) == DoStep(After(s, n, schedule), n, step)
    decreases |schedule|
  {
    hide CanStep, DoStep;
    var longer := schedule + [step];
    if schedule == [] {
      assert longer[1..] == [];
    } else {
      assert longer[0] == schedule[0] && longer[1..] == schedule[1..] + [step];
      RunOn(DoStep(s, n, schedule[0]), n, schedule[1..], step);
    }
  }

  /** Until all n children are there `fork` can fail, whatever those there have done: the parent is
      gone, without removing the queue, and they are left as they were. */
  lemma {:induction false} ForkCanFail(n: int, schedule: seq<Step>)
    requires Run(START, n, schedule) && After(START, n, schedule).parent == Forks
    ensures var s := After(START, n, schedule);
            |s.children| < n ==>
              && Run(START, n, schedule + [ForkFails])
              && After(START, n, schedule + [ForkFails]) == s.(parent := Aborted)
  {
    if |After(START, n, schedule).children| < n { RunOn(START, n, schedule, ForkFails); }
  }

  lemma StartKeeps(n: int)
    ensures Inv(START, n)
  {
  }
}
