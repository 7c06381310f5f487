/** The store-and-forward proxy: a poll loop that moves a file through n client processes, each
    joined to the next by a buffer of the server. */
module LocalProxy {
  import opened Common
  import opened Pipeline

  const INT_MAX: int := 0x7fff_ffff
  const LONG_MAX: int := 0x7fff_ffff_ffff_ffff
  const PIECE: nat := 16

  // ------------------------------------------------------------------ buffer sizes

  function Power3(e: nat): (p: nat)
    ensures p >= 1
  {
    if e == 0 then 1 else 3 * Power3(e - 1)
  }

  /** `CalcSizeBuf`. */
  function SizeBuf(i: nat, n: nat): (c: nat)
    requires i < n
    ensures c > 0
  {
    Power3(n - i) * 1000
  }

  /** The last buffer has 3000 bytes, and each one before it three times as many as the next. */
  lemma SizesInBytes(n: nat, i: nat)
    requires i < n
    ensures SizeBuf(n - 1, n) == 3000 && (i + 1 < n ==> SizeBuf(i, n) == 3 * SizeBuf(i + 1, n))
  {
    assert Power3(1) == 3 * Power3(0);
  }

  /** The sizes of the first i of n buffers together: where buffer i starts. */
  function Offset(i: nat, n: nat): (o: nat)
    requires i <= n
  {
    if i == 0 then 0 else Offset(i - 1, n) + SizeBuf(i - 1, n)
  }

  lemma {:induction false} OffsetClosed(i: nat, n: nat)
    requires i <= n
    ensures Offset(i, n) == 1500 * (Power3(n) - Power3(n - i))
  {
    if i > 0 { OffsetClosed(i - 1, n); }
  }

  lemma {:induction false} Power3Grows(d: nat, e: nat)
    requires d <= e
    ensures Power3(d) <= Power3(e)
  {
    if d < e { Power3Grows(d, e - 1); }
  }

  /** The sum of all buffer sizes is computed in an int: it fits exactly up to 12 clients. */
  lemma {:induction false} TotalFitsInt(n: nat)
    ensures Offset(n, n) <= INT_MAX <==> n <= 12
  {
    OffsetClosed(n, n);
    assert Power3(6) == 729;
    assert Power3(12) == 531441;
    assert Power3(13) == 1594323;
    if n <= 12 { Power3Grows(n, 12); } else { Power3Grows(13, n); }
  }

  lemma {:induction false} OffsetsRise(i: nat, j: nat, n: nat)
    requires i < j <= n
    ensures Offset(i, n) + SizeBuf(i, n) <= Offset(j, n)
  {
    if i + 1 < j { OffsetsRise(i, j - 1, n); }
  }

  // ------------------------------------------------------------------ the outside world

  /** Client i passes `count` bytes on: `splice` from its input to its output. */
  datatype Forward = Forward(client: nat, count: nat)

  /** What the kernel has for channel i after a `poll`: a hang-up, the result of `read`, the results
      of the successive `write`s (0 for EAGAIN), and what the clients did before the channel was
      looked at. */
  datatype Event = Event(before: seq<Forward>, hangUp: bool, readable: nat, accepted: seq<nat>)

  /** One turn of the poll loop: what the clients did before `poll` returned, whether the file size
      is there to be read, and the channels. */
  datatype Round = Round(waiting: seq<Forward>, announced: bool, events: seq<Event>)

  /** How many of `left` bytes the loop of `write`s gets rid of: pieces of at most `len` bytes, each
      as far as the kernel takes it, up to the first EAGAIN. */
  function Accepted(left: nat, len: nat, answers: seq<nat>): (m: nat)
    ensures m <= left
    ensures left > 0 && len > 0 && answers != [] && answers[0] > 0 ==> m > 0
    decreases |answers|
  {
    if left == 0 || answers == [] then 0
    else
      var piece := Least(left, len);
      var ret := Least(answers[0], piece);
      if ret == 0 then 0 else ret + Accepted(left - ret, piece, answers[1..])
  }

  lemma {:induction false} AcceptedNext(left: nat, len: nat, answers: seq<nat>, k: nat)
    requires left > 0 && k < |answers|
    ensures var piece := Least(left, len);
            var ret := Least(answers[k], piece);
            Accepted(left, len, answers[k..])
            == if ret == 0 then 0 else ret + Accepted(left - ret, piece, answers[k + 1..])
  {
    assert answers[k..][1..] == answers[k + 1..];
  }

  lemma NoneAccepted(left: nat, len: nat, answers: seq<nat>)
    requires left == 0 || answers == []
    ensures Accepted(left, len, answers) == 0
  {
  }

  /** Where the kernel takes every piece whole, one write sends 16 bytes, or what is left. */
  lemma {:induction false} WholePieces(left: nat, answers: seq<nat>)
    requires forall k | 0 <= k < |answers| :: answers[k] >= 16
    ensures Accepted(left, PIECE, answers) == Least(left, 16 * |answers|)
    decreases |answers|
  {
    if left > 16 && answers != [] { WholePieces(left - 16, answers[1..]); }
  }

  /** In any case it sends at most 16, and at most what the kernel takes; and the first EAGAIN ends it. */
  lemma {:induction false} OnePiece(left: nat, answer: nat, more: seq<nat>)
    ensures Accepted(left, PIECE, [answer]) == Least(answer, Least(left, 16))
    ensures Accepted(left, PIECE, [answer, 0] + more) == Accepted(left, PIECE, [answer])
  {
    var answers := [answer, 0] + more;
    var ret := Least(answer, Least(left, 16));
    if left > 0 && ret > 0 {
      assert answers[1..][0] == 0 && [answer][1..] == [];
      assert Accepted(left - ret, Least(left, 16), answers[1..]) == 0;
    }
  }

  /** As long as it takes something each time, the buffer is emptied. */
  lemma {:induction false} AllAccepted(left: nat, len: nat, answers: seq<nat>)
    requires len > 0 && |answers| >= left && forall k | 0 <= k < |answers| :: answers[k] > 0
    ensures Accepted(left, len, answers) == left
    decreases |answers|
  {
    if left > 0 {
      var piece := Least(left, len);
      AllAccepted(left - Least(answers[0], piece), piece, answers[1..]);
    }
  }

  /** `count` bytes arrive from client i: in its buffer, or at the last channel on stdout. */
  function Arrived(q: seq<seq<Byte>>, i: nat, count: nat): (r: seq<seq<Byte>>)
    requires 3 * i + 3 < |q| && count <= |q[3 * i + 1]|
    ensures |r| == |q|
  {
    var read := Move(q, 3 * i + 1, count);
    if 3 * i + 4 == |q| then Move(read, 3 * i + 2, count) else read
  }

  lemma {:induction false} ArrivedIsWork(q: seq<seq<Byte>>, i: nat, count: nat)
    requires 3 * i + 3 < |q| && count <= |q[3 * i + 1]|
    ensures Work(Arrived(q, i, count)) == Work(q) - if 3 * i + 4 == |q| then 2 * count else count
    ensures forall j | 0 <= j < |q| && !(3 * i < j < 3 * i + 4) :: Arrived(q, i, count)[j] == q[j]
  {
    hide Work, Move;
    var read := Move(q, 3 * i + 1, count);
    MoveIsWork(q, 3 * i + 1, count);
    MoveStages(q, 3 * i + 1, count);
    if 3 * i + 4 == |q| {
      MoveIsWork(read, 3 * i + 2, count);
      MoveStages(read, 3 * i + 2, count);
    }
  }

  /** `poll` reported channel i, and the kernel then moves a byte. */
  predicate Reported(q: seq<seq<Byte>>, polled: seq<nat>, i: nat, e: Event)
    requires i < |polled| && 3 * i + 1 < |q|
  {
    || (polled[i] == 0 && e.readable > 0 && q[3 * i + 1] != [])
    || (i > 0 && polled[i - 1] != 0 && e.accepted != [] && e.accepted[0] > 0)
  }

  predicate Asked(round: Round, q: seq<seq<Byte>>, polled: seq<nat>, i: nat)
    requires i < |polled| && 3 * i + 1 < |q|
  {
    i < |round.events| && Reported(q, polled, i, round.events[i])
  }

  /** `poll` reported one of the first i channels. */
  predicate SomeReported(round: Round, q: seq<seq<Byte>>, polled: seq<nat>, i: nat)
    requires i <= |polled| && 3 * i < |q|
  {
    exists j :: 0 <= j < i && Asked(round, q, polled, j)
  }

  lemma NothingYet(round: Round, q: seq<seq<Byte>>, polled: seq<nat>)
    requires |q| > 0
    ensures !Hangs(round, 0) && !SomeReported(round, q, polled, 0)
  {
  }

  lemma ReportedNext(round: Round, q: seq<seq<Byte>>, polled: seq<nat>, i: nat)
    requires i < |polled| && 3 * i + 3 < |q|
    ensures SomeReported(round, q, polled, i + 1) <==> SomeReported(round, q, polled, i) || Asked(round, q, polled, i)
  {
  }

  /** What `poll` goes by: how much each buffer of the line holds. */
  function Sizes(q: seq<seq<Byte>>, n: nat): (s: seq<nat>)
    requires 3 * n < |q|
    ensures |s| == n && forall i | 0 <= i < n :: s[i] == |q[3 * i + 2]|
  {
    if n == 0 then [] else Sizes(q, n - 1) + [|q[3 * (n - 1) + 2]|]
  }

  /** The line after the clients' steps, as far as they are possible. */
  function Forwarded(q: seq<seq<Byte>>, forwards: seq<Forward>, n: nat): (r: seq<seq<Byte>>)
    requires 3 * n < |q|
    ensures |r| == |q|
    decreases |forwards|
  {
    if forwards == [] then q
    else
      var p := Forwarded(q, forwards[..|forwards| - 1], n);
      var f := forwards[|forwards| - 1];
      if f.client < n && f.count <= |p[3 * f.client]| then Move(p, 3 * f.client, f.count) else p
  }

  lemma ForwardedNext(q: seq<seq<Byte>>, forwards: seq<Forward>, n: nat, k: nat)
    requires 3 * n < |q| && k < |forwards|
    ensures var p, f := Forwarded(q, forwards[..k], n), forwards[k];
            Forwarded(q, forwards[..k + 1], n)
            == if f.client < n && f.count <= |p[3 * f.client]| then Move(p, 3 * f.client, f.count) else p
  {
    assert forwards[..k + 1][..k] == forwards[..k];
  }

  /** When `poll` returns it reports some channel, or the file size. */
  predicate SomeAsked(round: Round, q: seq<seq<Byte>>, n: nat)
    requires 3 * n < |q|
  {
    var p := Forwarded(q, round.waiting, n);
    SomeReported(round, p, Sizes(p, n), n)
  }

  predicate Announced(round: Round, q: seq<seq<Byte>>, n: nat)
    requires 3 * n < |q|
  {
    round.announced && Forwarded(q, round.waiting, n)[0] == []
  }

  /** One of the first i channels has hung up. */
  predicate Hangs(round: Round, i: nat)
  {
    exists j :: 0 <= j < i && j < |round.events| && round.events[j].hangUp
  }

  lemma HangsNext(round: Round, i: nat)
    ensures Hangs(round, i + 1) <==> Hangs(round, i) || (i < |round.events| && round.events[i].hangUp)
  {
  }

  /** What a visit to channel i makes of the line: what is read goes into its buffer, or on to stdout,
      and what the kernel accepts goes from the buffer before it to client i. */
  function Served(q: seq<seq<Byte>>, polled: seq<nat>, i: nat, e: Event, n: nat): (r: seq<seq<Byte>>)
    requires |q| == 3 * n + 1 && |polled| == n && i < n
    ensures |r| == |q|
  {
    var p := Forwarded(q, e.before, n);
    if e.hangUp then p
    else
      var count := if polled[i] == 0 then Least(e.readable, Least(SizeBuf(i, n), |p[3 * i + 1]|)) else 0;
      var m := if i > 0 && polled[i - 1] != 0 then Accepted(polled[i - 1], PIECE, e.accepted) else 0;
      var arrived := if count == 0 then p else Arrived(p, i, count);
      if 0 < m <= |arrived[3 * i - 1]| then Move(arrived, 3 * i - 1, m) else arrived
  }

  /** The line after the first i channels have been visited, up to a hang-up. */
  function Visited(q: seq<seq<Byte>>, polled: seq<nat>, round: Round, n: nat, i: nat): (r: seq<seq<Byte>>)
    requires |q| == 3 * n + 1 && |polled| == n && i <= n
    ensures |r| == |q|
  {
    if i == 0 then q
    else
      var p := Visited(q, polled, round, n, i - 1);
      if Hangs(round, i - 1) || i - 1 >= |round.events| then p
      else Served(p, polled, i - 1, round.events[i - 1], n)
  }

  /** The line after a turn of the loop. */
  function Turned(q: seq<seq<Byte>>, round: Round, n: nat): (r: seq<seq<Byte>>)
    requires |q| == 3 * n + 1
    ensures |r| == |q|
  {
    var p := Forwarded(q, round.waiting, n);
    Visited(p, Sizes(p, n), round, n, n)
  }

  lemma {:induction false} HungUpStays(q: seq<seq<Byte>>, polled: seq<nat>, round: Round, n: nat, i: nat, j: nat)
    requires |q| == 3 * n + 1 && |polled| == n && i <= j <= n && Hangs(round, i)
    ensures Hangs(round, j) && Visited(q, polled, round, n, j) == Visited(q, polled, round, n, i)
  {
    hide Served;
    if i < j { HungUpStays(q, polled, round, n, i, j - 1); }
  }

  /** The states of the line between turns of the loop, none of which saw a hang-up: no byte is lost,
      and a turn in which `poll` reports a channel moves something forward. */
  predicate Trace(lines: seq<seq<seq<Byte>>>, rounds: seq<Round>, n: nat)
  {
    && 0 < |lines| <= |rounds| + 1
    && (forall j | 0 <= j < |lines| :: |lines[j]| == 3 * n + 1 && Flow(lines[j]) == Flow(lines[0]))
    && (forall j | 0 <= j < |lines| - 1 ::
          && lines[j + 1] == Turned(lines[j], rounds[j], n) && !Hangs(rounds[j], n)
          && Work(lines[j + 1]) <= Work(lines[j])
          && (SomeAsked(rounds[j], lines[j], n) ==> Work(lines[j + 1]) < Work(lines[j])))
  }

  /** Within the first k turns the file size was read. */
  predicate SizeKnown(lines: seq<seq<seq<Byte>>>, rounds: seq<Round>, n: nat, k: nat)
    requires Trace(lines, rounds, n) && k < |lines|
  {
    exists j :: 0 <= j < k && Announced(rounds[j], lines[j], n)
  }

  /** After k turns the file size is known and all of the file on stdout. */
  predicate Delivered(lines: seq<seq<seq<Byte>>>, rounds: seq<Round>, n: nat, k: nat, file: seq<Byte>)
    requires Trace(lines, rounds, n) && k < |lines|
  {
    SizeKnown(lines, rounds, n, k) && lines[k][3 * n] == file
  }

  /** How the loop ends and what stdout has then: at the first turn in which a channel has hung up, or
      as soon as the file size is known and the file delivered. */
  predicate EndsAs(ending: Ending, lines: seq<seq<seq<Byte>>>, rounds: seq<Round>, n: nat, file: seq<Byte>,
          stdout: seq<Byte>)
    requires Trace(lines, rounds, n)
  {
    var k := |lines| - 1;
    && (forall j | 0 <= j < k :: !Delivered(lines, rounds, n, j, file))
    && (Delivered(lines, rounds, n, k, file) <==> ending == Sent)
    && (ending == HungUp <==> ending != Sent && k < |rounds|)
    && (ending == HungUp ==> Hangs(rounds[k], n))
    && stdout == (if ending == HungUp then Turned(lines[k], rounds[k], n) else lines[k])[3 * n]
  }

  /** The turns in which `poll` reported no channel. */
  function Quiet(lines: seq<seq<seq<Byte>>>, rounds: seq<Round>, n: nat): (count: nat)
    requires Trace(lines, rounds, n)
    decreases |lines|
  {
    if |lines| == 1 then 0
    else
      var last := |lines| - 2;
      Quiet(lines[..last + 1], rounds, n) + if SomeAsked(rounds[last], lines[last], n) then 0 else 1
  }

  lemma {:induction false} TraceBound(lines: seq<seq<seq<Byte>>>, rounds: seq<Round>, n: nat)
    requires Trace(lines, rounds, n)
    ensures |lines| - 1 + Work(lines[|lines| - 1]) <= Work(lines[0]) + Quiet(lines, rounds, n)
    decreases |lines|
  {
    hide Work, Flow, SomeAsked;
    if |lines| > 1 { TraceBound(lines[..|lines| - 1], rounds, n); }
  }

  /** `poll` without a timeout: it does not return before there is something to report, and the file
      size is sent, and so read, once. */
  predicate Truthful(lines: seq<seq<seq<Byte>>>, rounds: seq<Round>, n: nat)
    requires Trace(lines, rounds, n)
  {
    && (forall j | 0 <= j < |lines| - 1 :: SomeAsked(rounds[j], lines[j], n) || Announced(rounds[j], lines[j], n))
    && (forall i, j | 0 <= i < j < |lines| - 1 ::
          !(Announced(rounds[i], lines[i], n) && Announced(rounds[j], lines[j], n)))
  }

  /** Then at most one turn, the one that reads the file size, can be quiet. */
  lemma {:induction false} QuietOnce(lines: seq<seq<seq<Byte>>>, rounds: seq<Round>, n: nat)
    requires Trace(lines, rounds, n) && Truthful(lines, rounds, n)
    ensures Quiet(lines, rounds, n) <= 1
    ensures (forall j | 0 <= j < |lines| - 1 :: !Announced(rounds[j], lines[j], n)) ==> Quiet(lines, rounds, n) == 0
    decreases |lines|
  {
    hide Work, Flow, SomeAsked, Announced;
    if |lines| > 1 { QuietOnce(lines[..|lines| - 1], rounds, n); }
  }

  lemma {:induction false} TurnsBound(lines: seq<seq<seq<Byte>>>, rounds: seq<Round>, n: nat)
    requires Trace(lines, rounds, n) && |lines| == |rounds| + 1
    ensures |rounds| <= Work(lines[0]) + Quiet(lines, rounds, n)
    ensures Truthful(lines, rounds, n) ==> |rounds| <= Work(lines[0]) + 1
  {
    hide Work, Flow, SomeAsked, Quiet, Truthful;
    TraceBound(lines, rounds, n);
    if Truthful(lines, rounds, n) { QuietOnce(lines, rounds, n); }
  }

  lemma {:induction false} TraceNext(lines: seq<seq<seq<Byte>>>, rounds: seq<Round>, n: nat, line: seq<seq<Byte>>)
    requires Trace(lines, rounds, n) && |lines| <= |rounds|
    requires |line| == 3 * n + 1 && Flow(line) == Flow(lines[0]) && Work(line) <= Work(lines[|lines| - 1])
    requires SomeAsked(rounds[|lines| - 1], lines[|lines| - 1], n) ==> Work(line) < Work(lines[|lines| - 1])
    requires line == Turned(lines[|lines| - 1], rounds[|lines| - 1], n) && !Hangs(rounds[|lines| - 1], n)
    ensures Trace(lines + [line], rounds, n)
  {
    hide Work, Flow, SomeAsked, Turned, Hangs;
  }

  /** A turn more changes nothing about the turns before. */
  lemma {:induction false} KnownNext(lines: seq<seq<seq<Byte>>>, rounds: seq<Round>, n: nat, line: seq<seq<Byte>>,
          file: seq<Byte>)
    requires Trace(lines, rounds, n) && Trace(lines + [line], rounds, n)
    ensures forall j | 0 <= j < |lines| ::
              Delivered(lines + [line], rounds, n, j, file) <==> Delivered(lines, rounds, n, j, file)
    ensures SizeKnown(lines + [line], rounds, n, |lines|)
            <==> SizeKnown(lines, rounds, n, |lines| - 1) || Announced(rounds[|lines| - 1], lines[|lines| - 1], n)
  {
    hide Trace, Announced;
    TraceSays(lines, rounds, n);
    forall j: nat | j < |lines|
      ensures SizeKnown(lines + [line], rounds, n, j) <==> SizeKnown(lines, rounds, n, j) {
      assert forall i | 0 <= i < j :: (lines + [line])[i] == lines[i];
    }
  }

  lemma TraceStarts(line: seq<seq<Byte>>, rounds: seq<Round>, n: nat)
    requires |line| == 3 * n + 1
    ensures Trace([line], rounds, n) && !SizeKnown([line], rounds, n, 0)
  {
  }

  lemma TraceSays(lines: seq<seq<seq<Byte>>>, rounds: seq<Round>, n: nat)
    requires Trace(lines, rounds, n)
    ensures 0 < |lines| <= |rounds| + 1 && forall j | 0 <= j < |lines| :: |lines[j]| == 3 * n + 1
  {
  }

  datatype Ending = Sent | HungUp | StillRunning

  class ProxyServer {
    const n: nat                      // m_numberChannels
    const file: seq<Byte>             // what client 0 reads
    const buffer: array<Byte>         // m_totalBuffer
    const base: seq<nat>              // m_buf, as an index
    const capacity: seq<nat>          // m_capacity
    var curPos: seq<nat>              // m_curPos, as an index
    var size: seq<nat>                // m_size
    var counter: nat
    var sizeFile: int
    var line: seq<seq<Byte>>          // file, pipes, what the buffers should hold, stdout

    static predicate Layout(base: seq<nat>, capacity: seq<nat>, length: nat)
    {
      && |base| == |capacity|
      && (forall i | 0 <= i < |base| :: capacity[i] > 0 && base[i] + capacity[i] <= length)
      && (forall i, j | 0 <= i < j < |base| :: base[i] + capacity[i] <= base[j])
    }

    static lemma LayoutSays(base: seq<nat>, capacity: seq<nat>, length: nat)
      requires Layout(base, capacity, length)
      ensures |base| == |capacity| && forall i | 0 <= i < |base| :: capacity[i] > 0 && base[i] + capacity[i] <= length
    {
    }

    ghost predicate InBounds()
      reads this`curPos, this`size, this`line
    {
      && n > 0 && |base| == |curPos| == |size| == n && |line| == 3 * n + 1
      && Layout(base, capacity, buffer.Length)
      && (forall i | 0 <= i < n :: base[i] <= curPos[i] && curPos[i] + size[i] <= base[i] + capacity[i])
      && (forall i | 0 <= i < n && size[i] == 0 :: curPos[i] == base[i])
    }

    /** Channel i's buffer holds, unsent, what it should. */
    ghost predicate Holds(i: nat)
      requires InBounds() && i < n
      reads this`curPos, this`size, this`line, buffer
    {
      line[3 * i + 2] == buffer[curPos[i]..curPos[i] + size[i]]
    }

    ghost predicate Valid()
      reads this`curPos, this`size, this`line, this`counter, buffer
    {
      InBounds() && (forall i | 0 <= i < n :: Holds(i)) && counter == |line[3 * n]|
    }

    /** Between two turns of the poll loop: every byte of the file is in the line, in order. */
    ghost predicate Sending()
      reads this, buffer
    {
      && Valid() && Flow(line) == file && size[n - 1] == 0
      && |file| < LONG_MAX && sizeFile in {LONG_MAX, |file|}
      && forall i | 0 <= i < n :: capacity[i] == SizeBuf(i, n)
    }

    /** The sizes of the buffers, and of all together. */
    static method Sized(clients: nat) returns (total: nat, capacities: seq<nat>, sizes: seq<nat>)
      ensures total == Offset(clients, clients) && |capacities| == |sizes| == clients
      ensures forall i | 0 <= i < clients :: capacities[i] == SizeBuf(i, clients) && sizes[i] == 0
    {
      hide SizeBuf;
      total, capacities, sizes := 0, [], [];
      for i := 0 to clients
        invariant total == Offset(i, clients) && |capacities| == |sizes| == i
        invariant forall j | 0 <= j < i :: capacities[j] == SizeBuf(j, clients) && sizes[j] == 0
      {
        var curSizeBuf := SizeBuf(i, clients);
        capacities, sizes := capacities + [curSizeBuf], sizes + [0];
        total := total + curSizeBuf;
      }
    }

    /** The buffers one after the other. */
    static method Carve(clients: nat, total: nat, capacities: seq<nat>) returns (bases: seq<nat>)
      requires total == Offset(clients, clients) && |capacities| == clients
      requires forall i | 0 <= i < clients :: capacities[i] == SizeBuf(i, clients)
      ensures |bases| == clients && Layout(bases, capacities, total)
    {
      hide SizeBuf;
      bases := [];
      var buffers := 0;
      for i := 0 to clients
        invariant buffers == Offset(i, clients) && |bases| == i
        invariant forall j | 0 <= j < i :: bases[j] == Offset(j, clients)
      {
        bases, buffers := bases + [buffers], buffers + capacities[i];
      }
      SideBySide(bases, capacities, clients);
    }

    static lemma {:induction false} SideBySide(bases: seq<nat>, capacities: seq<nat>, clients: nat)
      requires |bases| == |capacities| == clients
      requires forall i | 0 <= i < clients :: bases[i] == Offset(i, clients) && capacities[i] == SizeBuf(i, clients)
      ensures Layout(bases, capacities, Offset(clients, clients))
    {
      hide SizeBuf, Offset;
      forall i, j | 0 <= i < j < clients ensures bases[i] + capacities[i] <= bases[j] { OffsetsRise(i, j, clients); }
      forall i | 0 <= i < clients ensures bases[i] + capacities[i] <= Offset(clients, clients) {
        OffsetsRise(i, clients, clients);
      }
    }

    /** `StartProxy`. */
    constructor (clients: nat, file: seq<Byte>)
      requires clients > 0 && Offset(clients, clients) <= INT_MAX && |file| < LONG_MAX
      ensures Sending() && n == clients && this.file == file && fresh(buffer)
      ensures line == [file] + Idle(3 * n) && counter == 0
    {
      var total, capacities, sizes := Sized(clients);
      var bases := Carve(clients, total, capacities);
      n, this.file := clients, file;
      buffer := new Byte[total];
      base, capacity, curPos, size := bases, capacities, bases, sizes;
      counter, sizeFile := 0, LONG_MAX;
      line := [file] + Idle(3 * clients);
      new;
      FlowOfFirst(line);
    }

    /** The bytes `data` land at the start of channel i's buffer. */
    method Store(i: nat, data: seq<Byte>)
      requires InBounds() && i < n && |data| <= capacity[i]
      modifies buffer
      ensures forall k | 0 <= k < buffer.Length ::
                buffer[k] == if base[i] <= k < base[i] + |data| then data[k - base[i]] else old(buffer[k])
    {
      for j := 0 to |data|
        invariant forall k | 0 <= k < buffer.Length ::
                    buffer[k] == if base[i] <= k < base[i] + j then data[k - base[i]] else old(buffer[k])
      {
        buffer[base[i] + j] := data[j];
      }
    }

    /** `read (m_fdRead, m_buf, m_capacity)` into an empty buffer: no byte still to be sent, of any
        channel, is overwritten. */
    method Fill(i: nat, count: nat)
      requires Valid() && i < n && size[i] == 0
      requires count <= capacity[i] && count <= |line[3 * i + 1]|
      modifies this`size, this`line, buffer
      ensures Valid() && size == old(size)[i := count] && Moved(old(line), line, 3 * i + 1, count)
    {
      hide Move;
      assert Holds(i);
      var data := line[3 * i + 1][..count];
      Store(i, data);
      MoveStages(line, 3 * i + 1, count);
      size := size[i := count];
      line := Move(line, 3 * i + 1, count);
      forall c: nat | c < n ensures Holds(c) {
        assert old(Holds(c));
        if c == i {
          assert line[3 * c + 2] == [] + data;
        } else {
          assert buffer[curPos[c]..curPos[c] + size[c]] == old(buffer[curPos[c]..curPos[c] + size[c]]);
        }
      }
    }

    /** `write` of `ret` bytes of the total buffer, from `at` on, into the pipe behind stage k or to
        stdout; stage k is the buffer they are taken from. */
    method Send(k: nat, at: nat, ret: nat)
      requires k + 1 < |line| && ret <= |line[k]| && at + ret <= buffer.Length
      requires line[k][..ret] == buffer[at..at + ret]
      modifies this`line
      ensures line == Move(old(line), k, ret)
    {
      line := line[k := line[k][ret..]][k + 1 := line[k + 1] + buffer[at..at + ret]];
    }

    /** One piece; the rest of the stage is still what is stored behind it. */
    method SendPiece(k: nat, buf: nat, left: nat, ret: nat)
      requires k + 1 < |line| && ret <= left && buf + left <= buffer.Length && line[k] == buffer[buf..buf + left]
      modifies this`line
      ensures line == Move(old(line), k, ret) && line[k] == buffer[buf + ret..buf + left]
    {
      hide Move;
      MoveStages(line, k, ret);
      assert buffer[buf..buf + left][..ret] == buffer[buf..buf + ret];
      assert buffer[buf..buf + left][ret..] == buffer[buf + ret..buf + left];
      Send(k, buf, ret);
    }

    /** The last channel's buffer goes to stdout at once. */
    method Print()
      requires Valid() && curPos[n - 1] == base[n - 1]
      modifies this`size, this`line, this`counter
      ensures Valid() && size == old(size)[n - 1 := 0] && Moved(old(line), line, 3 * n - 1, old(size[n - 1]))
    {
      hide Layout;
      LayoutSays(base, capacity, buffer.Length);
      assert Holds(n - 1);
      var ret := size[n - 1];
      Send(3 * (n - 1) + 2, base[n - 1], ret);
      size := size[n - 1 := size[n - 1] - ret];
      counter := counter + ret;
      assert InBounds();
      forall c: nat | c < n ensures Holds(c) {
        assert old(Holds(c));
      }
    }

    /** The loop of `write`s: what is left of channel i - 1's buffer, and from where. */
    method WritePieces(i: nat, accepted: seq<nat>) returns (left: nat, buf: nat)
      requires 0 < i < |size| == |curPos| && |line| == 3 * |size| + 1
      requires curPos[i - 1] + size[i - 1] <= buffer.Length
      requires line[3 * i - 1] == buffer[curPos[i - 1]..curPos[i - 1] + size[i - 1]]
      modifies this`line
      ensures left == size[i - 1] - Accepted(size[i - 1], PIECE, accepted)
      ensures buf == curPos[i - 1] + (size[i - 1] - left)
      ensures Moved(old(line), line, 3 * i - 1, size[i - 1] - left)
    {
      hide Move, Accepted;
      MoveNothing(line, 3 * i - 1);
      left, buf := size[i - 1], curPos[i - 1];
      var len, k := PIECE, 0;
      assert accepted[0..] == accepted;
      while left > 0 && k < |accepted|
        invariant left <= size[i - 1] && buf == curPos[i - 1] + (size[i - 1] - left) && k <= |accepted|
        invariant Accepted(size[i - 1], PIECE, accepted) == size[i - 1] - left + Accepted(left, len, accepted[k..])
        invariant Moved(old(line), line, 3 * i - 1, size[i - 1] - left)
        invariant buf + left <= buffer.Length && line[3 * i - 1] == buffer[buf..buf + left]
      {
        AcceptedNext(left, len, accepted, k);
        if left < len { len := left; }
        var ret := Least(accepted[k], len);
        if ret == 0 { break; }
        MovesAdd(old(line), 3 * i - 1, size[i - 1] - left, ret);
        SendPiece(3 * i - 1, buf, left, ret);
        buf, left, k := buf + ret, left - ret, k + 1;
      }
      if left == 0 || k == |accepted| { NoneAccepted(left, len, accepted[k..]); }
    }

    /** `m_size` and `m_curPos` after the loop. */
    method Settle(c: nat, left: nat, buf: nat)
      requires InBounds() && c < n && counter == |line[3 * n]|
      requires left <= size[c] && buf == curPos[c] + (size[c] - left)
      requires line[3 * c + 2] == buffer[buf..buf + left]
      requires forall d | 0 <= d < n && d != c :: Holds(d)
      modifies this`size, this`curPos
      ensures Valid() && size == old(size)[c := left]
    {
      hide Layout;
      LayoutSays(base, capacity, buffer.Length);
      size := size[c := left];
      curPos := curPos[c := if left == 0 then base[c] else buf];
      assert InBounds();
      assert Holds(c);
      forall d: nat | d < n && d != c ensures Holds(d) {
        assert old(Holds(d));
      }
    }

    /** Writes channel i - 1's buffer to client i in pieces, until it is empty or the pipe full. */
    method Drain(i: nat, accepted: seq<nat>)
      requires Valid() && 0 < i < n
      modifies this`size, this`curPos, this`line
      ensures Valid() && size == old(size)[i - 1 := old(size[i - 1]) - Accepted(old(size[i - 1]), PIECE, accepted)]
      ensures Moved(old(line), line, 3 * i - 1, Accepted(old(size[i - 1]), PIECE, accepted))
    {
      hide Move, Accepted, Layout;
      LayoutSays(base, capacity, buffer.Length);
      assert Holds(i - 1);
      var left, buf := WritePieces(i, accepted);
      var sent := size[i - 1] - left;
      MoveStages(old(line), 3 * i - 1, sent);
      assert line[3 * i - 1] == old(buffer[curPos[i - 1]..curPos[i - 1] + size[i - 1]])[sent..];
      forall d: nat | d < n && d != i - 1 ensures Holds(d) {
        assert old(Holds(d));
      }
      Settle(i - 1, left, buf);
    }

    /** Client i passes m bytes on. */
    method Pass(i: nat, m: nat)
      requires Valid() && i < n && m <= |line[3 * i]|
      modifies this`line
      ensures Valid() && line == Move(old(line), 3 * i, m)
      ensures forall j | 0 <= j < n && old(line[3 * j + 1]) != [] :: line[3 * j + 1] != []
    {
      hide Move, Layout;
      LayoutSays(base, capacity, buffer.Length);
      MoveStages(line, 3 * i, m);
      line := Move(line, 3 * i, m);
      assert InBounds();
      forall c: nat | c < n ensures Holds(c) {
        assert old(Holds(c));
      }
    }

    /** The clients' own steps, as far as they are possible. */
    method Outside(forwards: seq<Forward>)
      requires Valid() && Flow(line) == file
      modifies this`line
      ensures Valid() && Flow(line) == file && Work(line) <= old(Work(line))
      ensures line == Forwarded(old(line), forwards, n)
      ensures forall j | 0 <= j < n && old(line[3 * j + 1]) != [] :: line[3 * j + 1] != []
    {
      hide Move, Flow, Work, Layout, Holds;
      for k := 0 to |forwards|
        invariant line == Forwarded(old(line), forwards[..k], n)
        invariant Valid() && Flow(line) == file && Work(line) <= old(Work(line))
        invariant forall j | 0 <= j < n && old(line[3 * j + 1]) != [] :: line[3 * j + 1] != []
      {
        ForwardedNext(old(line), forwards, n, k);
        var i, m := forwards[k].client, forwards[k].count;
        if i < n && m <= |line[3 * i]| {
          MoveKeepsFlow(line, 3 * i, m);
          MoveIsWork(line, 3 * i, m);
          Pass(i, m);
        }
      }
      assert forwards[..|forwards|] == forwards;
    }

    /** Reading from client i, as much as the kernel gives; the last channel's bytes go on to stdout. */
    method Input(i: nat, readable: nat)
      requires Valid() && Flow(line) == file && i < n && size[i] == 0
      modifies this`size, this`line, this`counter, buffer
      ensures Valid() && Flow(line) == file
      ensures var count := Least(readable, Least(capacity[i], |old(line[3 * i + 1])|));
              line == Arrived(old(line), i, count) && size == old(size)[i := if i == n - 1 then 0 else count]
    {
      hide Move, Flow;
      var count := Least(readable, Least(capacity[i], |line[3 * i + 1]|));
      assert Holds(i);
      MoveKeepsFlow(line, 3 * i + 1, count);
      MoveStages(line, 3 * i + 1, count);
      Fill(i, count);
      if i == n - 1 {
        MoveKeepsFlow(line, 3 * n - 1, count);
        Print();
      }
    }

    /** What the loop body does for channel i; `polled` are the sizes when `poll` was called. */
    method Serve(i: nat, e: Event, polled: seq<nat>)
      requires Valid() && Flow(line) == file && i < n && |polled| == n
      requires (forall j | i <= j < n :: size[j] == polled[j]) && size[n - 1] == 0
      requires i > 0 && polled[i - 1] != 0 ==> size[i - 1] == polled[i - 1]
      modifies this`size, this`curPos, this`line, this`counter, buffer
      ensures Valid() && Flow(line) == file && size[n - 1] == 0
      ensures (forall j | i < j < n :: size[j] == polled[j]) && (polled[i] != 0 ==> size[i] == polled[i])
      ensures
        var count := if polled[i] == 0 then Least(e.readable, Least(capacity[i], |old(line[3 * i + 1])|)) else 0;
        var m := if i > 0 && polled[i - 1] != 0 then Accepted(polled[i - 1], PIECE, e.accepted) else 0;
        var arrived := if count == 0 then old(line) else Arrived(old(line), i, count);
        if m == 0 then line == arrived else Moved(arrived, line, 3 * i - 1, m)
    {
      hide Move, Flow, Accepted, Arrived;
      if polled[i] == 0 && e.readable > 0 && line[3 * i + 1] != [] {
        Input(i, e.readable);
      }
      if i > 0 && polled[i - 1] != 0 {
        MoveNothing(line, 3 * i - 1);
        Output(i, e.accepted);
      }
    }

    method Output(i: nat, accepted: seq<nat>)
      requires Valid() && Flow(line) == file && 0 < i < n
      modifies this`size, this`curPos, this`line
      ensures Valid() && Flow(line) == file
      ensures size == old(size)[i - 1 := old(size[i - 1]) - Accepted(old(size[i - 1]), PIECE, accepted)]
      ensures Moved(old(line), line, 3 * i - 1, Accepted(old(size[i - 1]), PIECE, accepted))
    {
      hide Move, Flow, Accepted;
      assert Holds(i - 1);
      MoveKeepsFlow(line, 3 * i - 1, Accepted(size[i - 1], PIECE, accepted));
      Drain(i, accepted);
    }

    /** Visiting a channel never adds work, takes some off if the channel was reported, and leaves
        the later channels' pipes alone. */
    static lemma {:induction false} ServedIsWork(q: seq<seq<Byte>>, r: seq<seq<Byte>>, i: nat, count: nat, m: nat)
      requires 3 * i + 3 < |q| && count <= |q[3 * i + 1]|
      requires var arrived := if count == 0 then q else Arrived(q, i, count);
               if m == 0 then r == arrived else i > 0 && Moved(arrived, r, 3 * i - 1, m)
      ensures |r| == |q| && Work(r) <= Work(q) && (count > 0 || m > 0 ==> Work(r) < Work(q))
      ensures forall j | i < j && 3 * j + 1 < |q| :: r[3 * j + 1] == q[3 * j + 1]
    {
      hide Move, Work, Arrived;
      ArrivedIsWork(q, i, count);
      var arrived := if count == 0 then q else Arrived(q, i, count);
      if m > 0 {
        MoveIsWork(arrived, 3 * i - 1, m);
        MoveStages(arrived, 3 * i - 1, m);
      }
    }

    /** The loop body for channel i, after whatever the clients did in the meantime. */
    method Visit(i: nat, e: Event, polled: seq<nat>) returns (hungUp: bool)
      requires Valid() && Flow(line) == file && i < n && |polled| == n && size[n - 1] == 0
      requires forall j | i <= j < n :: size[j] == polled[j]
      requires i > 0 && polled[i - 1] != 0 ==> size[i - 1] == polled[i - 1]
      requires capacity[i] == SizeBuf(i, n)
      modifies this`size, this`curPos, this`line, this`counter, buffer
      ensures Valid() && Flow(line) == file && size[n - 1] == 0
      ensures hungUp == e.hangUp && line == Served(old(line), polled, i, e, n)
      ensures forall j | i < j < n :: size[j] == polled[j]
      ensures !hungUp && polled[i] != 0 ==> size[i] == polled[i]
      ensures Work(line) <= old(Work(line))
      ensures !hungUp && Reported(old(line), polled, i, e) ==> Work(line) < old(Work(line))
      ensures forall j | i < j < n && old(line[3 * j + 1]) != [] :: line[3 * j + 1] != []
    {
      hide Flow, Work, Arrived, Move, Forwarded, Accepted, SizeBuf, Layout;
      Outside(e.before);
      if e.hangUp { return true; }
      ghost var q := line;
      ghost var count := if polled[i] == 0 then Least(e.readable, Least(SizeBuf(i, n), |line[3 * i + 1]|)) else 0;
      Serve(i, e, polled);
      ServedIsWork(q, line, i, count,
                   if i > 0 && polled[i - 1] != 0 then Accepted(polled[i - 1], PIECE, e.accepted) else 0);
      return false;
    }

    /** The loop over the channels: something moves forward if `poll` reported any of them. */
    method VisitAll(round: Round, polled: seq<nat>) returns (hungUp: bool)
      requires Sending() && polled == size
      modifies this`size, this`curPos, this`line, this`counter, buffer
      ensures Sending() && Work(line) <= old(Work(line))
      ensures (hungUp <==> Hangs(round, n)) && line == Visited(old(line), polled, round, n, n)
      ensures !hungUp && SomeReported(round, old(line), polled, n) ==> Work(line) < old(Work(line))
    {
      hide Flow, Work, Layout, Holds, Served, SizeBuf, SomeReported, Hangs;
      ghost var q := line;
      assert !Hangs(round, 0) && !SomeReported(round, q, polled, 0) by { NothingYet(round, q, polled); }
      for i := 0 to n
        invariant Sending() && Work(line) <= Work(q)
        invariant !Hangs(round, i) && line == Visited(q, polled, round, n, i)
        invariant forall j | i <= j < n :: size[j] == polled[j] && (q[3 * j + 1] != [] ==> line[3 * j + 1] != [])
        invariant i > 0 && i <= |round.events| && polled[i - 1] != 0 ==> size[i - 1] == polled[i - 1]
        invariant SomeReported(round, q, polled, i) ==> Work(line) < Work(q)
      {
        HangsNext(round, i);
        ReportedNext(round, q, polled, i);
        if i < |round.events| {
          hungUp := Visit(i, round.events[i], polled);
          if hungUp {
            HungUpStays(q, polled, round, n, i + 1, n);
            return;
          }
        }
      }
      return false;
    }

    /** One turn of the poll loop: the line goes on as `Turned` says, the answer is whether a channel has
        hung up, and the file size is stored when it can be read.  Every byte of the file stays in the
        line, and something moves forward if `poll` reported any channel. */
    method Turn(round: Round) returns (hungUp: bool)
      requires Sending()
      modifies this, buffer
      ensures Sending() && Work(line) <= old(Work(line))
      ensures (hungUp <==> Hangs(round, n)) && line == old(Turned(line, round, n))
      ensures sizeFile == if old(Announced(round, line, n)) then |file| else old(sizeFile)
      ensures !hungUp && old(SomeAsked(round, line, n)) ==> Work(line) < old(Work(line))
    {
      hide Flow, Work, Forwarded, SomeReported, Layout, Visited, Hangs, SizeBuf;
      Outside(round.waiting);
      AskedBySizes();
      if round.announced && line[0] == [] {
        sizeFile := |file|;
      }
      hungUp := VisitAll(round, size);
    }

    lemma {:induction false} AskedBySizes()
      requires Valid()
      ensures size == Sizes(line, n)
    {
      forall i | 0 <= i < n ensures size[i] == |line[3 * i + 2]| { assert Holds(i); }
    }

    /** The whole of `SendFile`, with anything the kernel and the clients may do: what stdout got is
        a prefix of the file and `counter` its length; the loop ends at the first hang-up, or as soon
        as the size is known and the file delivered, and not otherwise.
        It can go on only for as many turns as there is work, and those in which `poll` reports no
        channel, of which there is one if `poll` tells the truth; `lines` are the states of the line
        between the turns. */
    method SendFile(rounds: seq<Round>) returns (ending: Ending, ghost lines: seq<seq<seq<Byte>>>)
      requires Sending() && line[3 * n] == []
      modifies this, buffer
      ensures Sending() && line[3 * n] <= file && counter == |line[3 * n]|
      ensures Trace(lines, rounds, n) && lines[0] == old(line) && EndsAs(ending, lines, rounds, n, file, line[3 * n])
      ensures ending == Sent ==> line[3 * n] == file
      ensures ending == StillRunning ==> |rounds| <= Work(old(line)) + Quiet(lines, rounds, n)
      ensures ending == StillRunning && Truthful(lines, rounds, n) ==> |rounds| <= Work(old(line)) + 1
    {
      hide Flow, Work, SomeAsked, Quiet, Truthful, Turned, Hangs, Announced, SizeKnown, Trace;
      var k := 0;
      counter, sizeFile := 0, LONG_MAX;
      lines := [line];
      TraceStarts(line, rounds, n);
      while counter < sizeFile
        invariant Sending() && k <= |rounds| && |lines| == k + 1
        invariant Trace(lines, rounds, n) && lines[0] == old(line) && lines[k] == line
        invariant forall j | 0 <= j < k :: !Delivered(lines, rounds, n, j, file)
        invariant sizeFile == if SizeKnown(lines, rounds, n, k) then |file| else LONG_MAX
        decreases |rounds| - k
      {
        LastIsPrefix(line);
        if k == |rounds| {
          TurnsBound(lines, rounds, n);
          return StillRunning, lines;
        }
        var hungUp := Turn(rounds[k]);
        if hungUp {
          LastIsPrefix(line);
          return HungUp, lines;
        }
        TraceNext(lines, rounds, n, line);
        KnownNext(lines, rounds, n, line, file);
        lines, k := lines + [line], k + 1;
      }
      LastIsPrefix(line);
      return Sent, lines;
    }

    /** The program: a server is started and one file sent. */
    static method Relay(clients: nat, file: seq<Byte>, rounds: seq<Round>)
      returns (ending: Ending, stdout: seq<Byte>, ghost lines: seq<seq<seq<Byte>>>)
      requires clients > 0 && Offset(clients, clients) <= INT_MAX && |file| < LONG_MAX
      ensures Trace(lines, rounds, clients) && lines[0] == [file] + Idle(3 * clients)
      ensures EndsAs(ending, lines, rounds, clients, file, stdout)
      ensures stdout <= file && (ending == Sent ==> stdout == file)
      ensures ending == StillRunning ==> |rounds| <= |file| * (3 * clients) + Quiet(lines, rounds, clients)
      ensures ending == StillRunning && Truthful(lines, rounds, clients) ==> |rounds| <= |file| * (3 * clients) + 1
    {
      hide Flow, Work, Trace, Quiet, Truthful, EndsAs;
      var server := new ProxyServer(clients, file);
      WorkOfFirst(file, 3 * clients);
      ending, lines := server.SendFile(rounds);
      stdout := server.line[3 * clients];
    }

    /** `poll` is never left waiting: while a byte of the file is undelivered, a client can pass one
        on, a channel that is polled for input has some, or one polled for output has room. */
    lemma {:induction false} PollWakes(room: nat) returns (i: nat)
      requires Sending() && room > 0 && line[3 * n] != file
      ensures i < n
      ensures || (line[3 * i] != [] && |line[3 * i + 1]| < room)
              || (line[3 * i + 1] != [] && size[i] == 0)
              || (i + 1 < n && size[i] != 0 && |line[3 * (i + 1)]| < room)
    {
      hide Flow;
      var k := NoDeadlock(line, room);
      i := k / 3;
      assert Holds(i) && Holds(n - 1);
    }
  }
}
