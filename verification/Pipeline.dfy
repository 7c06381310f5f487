/** A line of byte queues: what leaves the front of one stage joins the back of the next.  The proxy
    is such a line of 3n + 1 stages for n clients: stage 3i is the pipe into client i (the unread
    file for client 0), 3i + 1 the pipe out of it, 3i + 2 the server's buffer for channel i, and
    stage 3n is stdout. */
module Pipeline {

  /** The next m bytes of stage k move on. */
  function Move<T>(q: seq<seq<T>>, k: nat, m: nat): (r: seq<seq<T>>)
    requires k + 1 < |q| && m <= |q[k]|
    ensures |r| == |q|
  {
    q[k := q[k][m..]][k + 1 := q[k + 1] + q[k][..m]]
  }

  predicate Moved<T(==)>(q: seq<seq<T>>, r: seq<seq<T>>, k: nat, m: nat)
  {
    k + 1 < |q| && m <= |q[k]| && r == Move(q, k, m)
  }

  lemma {:induction false} MoveNothing<T>(q: seq<seq<T>>, k: nat)
    requires k + 1 < |q|
    ensures Move(q, k, 0) == q
  {
    assert q[k][0..] == q[k] && q[k + 1] + q[k][..0] == q[k + 1];
  }

  lemma {:induction false} MoveStages<T>(q: seq<seq<T>>, k: nat, m: nat)
    requires k + 1 < |q| && m <= |q[k]|
    ensures Move(q, k, m)[k] == q[k][m..] && Move(q, k, m)[k + 1] == q[k + 1] + q[k][..m]
    ensures forall j | 0 <= j < |q| && j != k && j != k + 1 :: Move(q, k, m)[j] == q[j]
  {
  }

  /** Empty stages. */
  function Idle<T>(count: nat): (q: seq<seq<T>>)
    ensures |q| == count && forall k | 0 <= k < count :: q[k] == []
  {
    if count == 0 then [] else Idle(count - 1) + [[]]
  }

  /** Everything in the line, in the order in which it leaves: later stages first. */
  function Flow<T>(q: seq<seq<T>>): (s: seq<T>)
  {
    if q == [] then [] else Flow(q[1..]) + q[0]
  }

  /** Conservation and order. */
  lemma {:induction false} MoveKeepsFlow<T>(q: seq<seq<T>>, k: nat, m: nat)
    requires k + 1 < |q| && m <= |q[k]|
    ensures Flow(Move(q, k, m)) == Flow(q)
  {
    var r := Move(q, k, m);
    if k == 0 {
      assert r[1..][1..] == q[1..][1..];
      assert q[0] == q[0][..m] + q[0][m..];
    } else {
      assert r[1..] == Move(q[1..], k - 1, m);
      MoveKeepsFlow(q[1..], k - 1, m);
    }
  }

  lemma {:induction false} LastIsPrefix<T>(q: seq<seq<T>>)
    requires |q| > 0
    ensures q[|q| - 1] <= Flow(q)
  {
    if |q| > 1 { LastIsPrefix(q[1..]); }
  }

  lemma {:induction false} FlowOfFirst<T>(q: seq<seq<T>>)
    requires |q| > 0 && forall k | 1 <= k < |q| :: q[k] == []
    ensures Flow(q) == q[0]
  {
    if |q| > 1 {
      FlowOfFirst(q[1..]);
    }
  }

  lemma {:induction false} FlowOfLast<T>(q: seq<seq<T>>)
    requires |q| > 0 && forall k | 0 <= k < |q| - 1 :: q[k] == []
    ensures Flow(q) == q[|q| - 1]
  {
    if |q| > 1 {
      FlowOfLast(q[1..]);
    }
  }

  /** Steps at different stages commute, so one that happens in the middle of a longer step may be
      thought of as happening after it. */
  lemma {:induction false} MovesCommute<T>(q: seq<seq<T>>, j: nat, a: nat, k: nat, b: nat)
    requires j != k && j + 1 < |q| && k + 1 < |q| && a <= |q[j]| && b <= |q[k]|
    ensures Move(Move(q, j, a), k, b) == Move(Move(q, k, b), j, a)
  {
    var l, r := Move(Move(q, j, a), k, b), Move(Move(q, k, b), j, a);
    forall i | 0 <= i < |q| ensures l[i] == r[i] {
    }
  }

  lemma {:induction false} MovesAdd<T>(q: seq<seq<T>>, k: nat, a: nat, b: nat)
    requires k + 1 < |q| && a + b <= |q[k]|
    ensures Move(Move(q, k, a), k, b) == Move(q, k, a + b)
  {
    assert q[k][a..][b..] == q[k][a + b..];
    assert q[k][..a] + q[k][a..][..b] == q[k][..a + b];
    assert (q[k + 1] + q[k][..a]) + q[k][a..][..b] == q[k + 1] + (q[k][..a] + q[k][a..][..b]);
  }

  // ------------------------------------------------------------------ progress

  /** How many one-byte moves are still to come. */
  function Work<T>(q: seq<seq<T>>): (w: nat)
  {
    if |q| <= 1 then 0 else |q[0]| * (|q| - 1) + Work(q[1..])
  }

  lemma {:induction false} MoveIsWork<T>(q: seq<seq<T>>, k: nat, m: nat)
    requires k + 1 < |q| && m <= |q[k]|
    ensures Work(Move(q, k, m)) == Work(q) - m
  {
    var r := Move(q, k, m);
    if k == 0 {
      assert r[1..][1..] == q[1..][1..];
      if |q| > 2 { MoveIsWorkAtFront(|q[0]|, |q[1]|, |q|, m); }
    } else {
      assert r[1..] == Move(q[1..], k - 1, m);
      MoveIsWork(q[1..], k - 1, m);
    }
  }

  lemma {:induction false} MoveIsWorkAtFront(a: int, b: int, n: int, m: int)
    ensures (a - m) * (n - 1) + (b + m) * (n - 2) == a * (n - 1) + b * (n - 2) - m
  {
    calc {
      (a - m) * (n - 1) + (b + m) * (n - 2);
      a * (n - 1) - m * (n - 1) + b * (n - 2) + m * (n - 2);
      a * (n - 1) + b * (n - 2) - m * ((n - 1) - (n - 2));
    }
  }

  /** What the poll loop and the clients can do next: a client forwards into a pipe with room, the
      server reads into an empty buffer or writes a buffer into a pipe with room or to stdout. */
  predicate Ready<T>(q: seq<seq<T>>, room: nat, k: nat)
    requires k + 1 < |q|
  {
    && q[k] != []
    && (if k % 3 == 1 then q[k + 1] == [] else k + 2 == |q| || |q[k + 1]| < room)
  }

  /** No deadlock: as long as a byte is undelivered, some stage can pass bytes on. */
  lemma {:induction false} NoDeadlock<T>(q: seq<seq<T>>, room: nat) returns (k: nat)
    requires |q| > 0 && |q| % 3 == 1 && room > 0 && q[|q| - 1] != Flow(q)
    ensures k + 1 < |q| && Ready(q, room, k)
  {
    if forall j | 0 <= j < |q| - 1 :: q[j] == [] { FlowOfLast(q); }
    var j :| 0 <= j < |q| - 1 && q[j] != [];
    k := j;
    while exists i :: k < i < |q| - 1 && q[i] != []
      invariant k + 1 < |q| && q[k] != []
      decreases |q| - k
    {
      var i :| k < i < |q| - 1 && q[i] != [];
      k := i;
    }
  }

  // ------------------------------------------------------------------ runs

  /** A run: every step moves at least one byte. */
  predicate Run<T(==)>(q: seq<seq<T>>, moves: seq<(nat, nat)>)
    decreases |moves|
  {
    moves == []
    || (var (k, m) := moves[0];
        k + 1 < |q| && 0 < m <= |q[k]| && Run(Move(q, k, m), moves[1..]))
  }

  function After<T>(q: seq<seq<T>>, moves: seq<(nat, nat)>): (r: seq<seq<T>>)
    requires Run(q, moves)
    ensures |r| == |q|
    decreases |moves|
  {
    if moves == [] then q else After(Move(q, moves[0].0, moves[0].1), moves[1..])
  }

  lemma {:induction false} RunKeepsFlow<T>(q: seq<seq<T>>, moves: seq<(nat, nat)>)
    requires Run(q, moves)
    ensures Flow(After(q, moves)) == Flow(q) && |moves| + Work(After(q, moves)) <= Work(q)
    decreases |moves|
  {
    hide Move, Flow, Work;
    if moves != [] {
      var (k, m) := moves[0];
      MoveKeepsFlow(q, k, m);
      MoveIsWork(q, k, m);
      RunKeepsFlow(Move(q, k, m), moves[1..]);
    }
  }

  lemma {:induction false} WorkOfFirst<T>(s: seq<T>, stages: nat)
    ensures Work([s] + Idle(stages)) == |s| * stages
  {
    var q := [s] + Idle(stages);
    assert q[1..] == Idle(stages);
    NoWork(Idle<T>(stages));
  }

  lemma {:induction false} NoWork<T>(q: seq<seq<T>>)
    requires forall k | 0 <= k < |q| :: q[k] == []
    ensures Work(q) == 0
  {
    if |q| > 1 { NoWork(q[1..]); }
  }

  /** However the steps interleave: stdout is a prefix of the file, at most 3n steps per byte can
      happen, and a line in which nothing can move any more has delivered all of it. */
  lemma {:induction false} EveryRunDelivers<T>(file: seq<T>, n: nat, room: nat, moves: seq<(nat, nat)>)
    requires room > 0 && Run([file] + Idle(3 * n), moves)
    ensures |moves| <= |file| * (3 * n)
    ensures var q := After([file] + Idle(3 * n), moves);
            q[3 * n] <= file && ((forall k | 0 <= k < 3 * n :: !Ready(q, room, k)) ==> q[3 * n] == file)
  {
    hide Move, Flow, Work, Ready, Run, After, Idle;
    var start := [file] + Idle(3 * n);
    var q := After(start, moves);
    RunKeepsFlow(start, moves);
    WorkOfFirst(file, 3 * n);
    FlowOfFirst(start);
    LastIsPrefix(q);
    if q[3 * n] != file {
      var k := NoDeadlock(q, room);
    }
  }
}
