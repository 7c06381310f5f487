/** Whole runs of the readers and writers: every run ends, and one without timeouts and failed reads
    ends with every pair that could meet having moved its file. */
module Completion {
  import opened Common
  import opened Transfer
  import opened Rendezvous

  // ------------------------------------------------------------------ every run ends

  /** How many steps of the handshake a reader has before it. */
  function ReaderLeft(p: ReaderPoint): (m: nat)
  {
    match p
    case R0 => 7 case R1 => 6 case R2 => 5 case R3 => 4 case R4 => 3 case R5 => 2 case R6 => 1 case RLoop => 0
  }

  /** The same for a writer, which brings the transfer of its file along. */
  function WriterLeft(p: WriterPoint, file: seq<Byte>): (m: nat)
  {
    match p
    case W0 => 16 * |file| + 16
    case W1 => 16 * |file| + 15
    case W2 => 16 * |file| + 14
    case W3 => 2
    case W4 => 1
    case WLoop => 0
  }

  function ReadersLeft(ps: seq<ReaderPoint>): (m: nat)
  {
    if ps == [] then 0 else ReadersLeft(ps[..|ps| - 1]) + ReaderLeft(ps[|ps| - 1])
  }

  function WritersLeft(ps: seq<WriterPoint>, files: seq<seq<Byte>>): (m: nat)
    requires |ps| <= |files|
  {
    if ps == [] then 0 else WritersLeft(ps[..|ps| - 1], files) + WriterLeft(ps[|ps| - 1], files[|ps| - 1])
  }

  function LinksLeft(ls: seq<Link>): (m: nat)
  {
    if ls == [] then 0 else LinksLeft(ls[..|ls| - 1]) + Transfer.Measure(ls[|ls| - 1])
  }

  /** An upper bound on the steps of the whole system still to come. */
  function Measure(s: State, files: seq<seq<Byte>>): (m: nat)
    requires |s.writers| <= |files|
  {
    ReadersLeft(s.readers) + WritersLeft(s.writers, files) + LinksLeft(s.links)
  }

  lemma {:induction false} ReaderMoves(ps: seq<ReaderPoint>, r: nat, p: ReaderPoint)
    requires r < |ps|
    ensures ReadersLeft(ps[r := p]) == ReadersLeft(ps) - ReaderLeft(ps[r]) + ReaderLeft(p)
  {
    hide ReaderLeft;
    var last := |ps| - 1;
    if r < last {
      assert ps[r := p][..last] == ps[..last][r := p];
      ReaderMoves(ps[..last], r, p);
    } else {
      assert ps[r := p][..last] == ps[..last];
    }
  }

  lemma {:induction false} WriterMoves(ps: seq<WriterPoint>, files: seq<seq<Byte>>, w: nat, p: WriterPoint)
    requires w < |ps| <= |files|
    ensures WritersLeft(ps[w := p], files)
            == WritersLeft(ps, files) - WriterLeft(ps[w], files[w]) + WriterLeft(p, files[w])
  {
    hide WriterLeft;
    var last := |ps| - 1;
    if w < last {
      assert ps[w := p][..last] == ps[..last][w := p];
      WriterMoves(ps[..last], files, w, p);
    } else {
      assert ps[w := p][..last] == ps[..last];
    }
  }

  lemma {:induction false} LinkMoves(ls: seq<Link>, k: nat, l: Link)
    requires k < |ls|
    ensures LinksLeft(ls[k := l]) == LinksLeft(ls) - Transfer.Measure(ls[k]) + Transfer.Measure(l)
  {
    hide Transfer.Measure;
    var last := |ls| - 1;
    if k < last {
      assert ls[k := l][..last] == ls[..last][k := l];
      LinkMoves(ls[..last], k, l);
    } else {
      assert ls[k := l][..last] == ls[..last];
    }
  }

  lemma AttachedLeft(l: Link, file: seq<Byte>)
    ensures Transfer.Measure(Attach(l, file)) <= Transfer.Measure(l) + 16 * |file| + 11
  {
  }

  lemma {:induction false} ReaderStepFalls(s: State, files: seq<seq<Byte>>, r: nat)
    requires Shaped(s, files) && CanStep(s, files, ReaderStep(r))
    ensures Measure(DoStep(s, files, ReaderStep(r)), files) < Measure(s, files)
  {
    hide ReadersLeft, WritersLeft, LinksLeft, Enabled, Next, Inv;
    ReaderMoves(s.readers, r, DoStep(s, files, ReaderStep(r)).readers[r]);
  }

  lemma {:induction false} WriterStepFalls(s: State, files: seq<seq<Byte>>, w: nat)
    requires Shaped(s, files) && CanStep(s, files, WriterStep(w))
    ensures Measure(DoStep(s, files, WriterStep(w)), files) < Measure(s, files)
  {
    hide ReadersLeft, WritersLeft, LinksLeft, Enabled, Next, Inv, Attach, Transfer.Measure;
    WriterMoves(s.writers, files, w, DoStep(s, files, WriterStep(w)).writers[w]);
    if s.writers[w] == W2 {
      AttachedLeft(s.links[s.cell], files[w]);
      LinkMoves(s.links, s.cell, Attach(s.links[s.cell], files[w]));
    }
  }

  lemma {:induction false} TransferStepFalls(s: State, files: seq<seq<Byte>>, step: Step)
    requires Shaped(s, files) && CanStep(s, files, step) && !Handshake(step)
    ensures Measure(DoStep(s, files, step), files) < Measure(s, files)
  {
    hide ReadersLeft, WritersLeft, LinksLeft, Enabled, Next, Inv, Transfer.Measure;
    var r := if step.Reads? then step.r else s.got[step.w];
    Transfer.StepFalls(s.links[r], step.a);
    LinkMoves(s.links, r, Next(s.links[r], step.a));
  }

  lemma {:induction false} SystemStepFalls(s: State, files: seq<seq<Byte>>, step: Step)
    requires Shaped(s, files) && CanStep(s, files, step)
    ensures Measure(DoStep(s, files, step), files) < Measure(s, files)
  {
    hide Shaped, CanStep, DoStep, Measure;
    match step
    case ReaderStep(r) => ReaderStepFalls(s, files, r);
    case WriterStep(w) => WriterStepFalls(s, files, w);
    case _ => TransferStepFalls(s, files, step);
  }

  /** A run: every step is possible when it is taken. */
  predicate Run(s: State, files: seq<seq<Byte>>, schedule: seq<Step>)
    requires Shaped(s, files)
    decreases |schedule|
  {
    schedule == []
    || (var last := |schedule| - 1;
        && Run(s, files, schedule[..last])
        && CanStep(Rendezvous.Play(s, files, schedule[..last]), files, schedule[last]))
  }

  lemma {:induction false} RunIsBounded(s: State, files: seq<seq<Byte>>, schedule: seq<Step>)
    requires Shaped(s, files) && Run(s, files, schedule)
    ensures |schedule| + Measure(Rendezvous.Play(s, files, schedule), files) <= Measure(s, files)
    decreases |schedule|
  {
    hide CanStep, DoStep, Measure;
    if schedule != [] {
      var last := |schedule| - 1;
      RunIsBounded(s, files, schedule[..last]);
      SystemStepFalls(Rendezvous.Play(s, files, schedule[..last]), files, schedule[last]);
    }
  }

  // ------------------------------------------------------------------ what a run ends with

  /** Neither a timeout nor a failing `read`. */
  predicate Orderly(step: Step)
  {
    !(step.Reads? && step.a.ReaderTimesOut?) && !(step.Writes? && (step.a.WriterTimesOut? || step.a.FillFails?))
  }

  /** A link on which nothing went wrong: a writer has only failed by finding the semaphores gone. */
  predicate Calm(l: Link)
  {
    !l.readFailed && l.reader != GaveUp && (l.writer == Failed ==> l.reader == Ended)
  }

  predicate AllCalm(s: State)
  {
    forall r | 0 <= r < |s.links| :: Calm(s.links[r])
  }

  lemma {:induction false} CalmKept(l: Link, a: Action, file: seq<Byte>)
    requires Inv(l, file) && Calm(l) && Enabled(l, a) && !a.ReaderTimesOut? && !a.WriterTimesOut? && !a.FillFails?
    ensures Calm(Next(l, a))
  {
    hide OneToken, Pending;
  }

  lemma {:induction false} TransferIsCalm(s: State, t: Token, files: seq<seq<Byte>>, step: Step)
    requires Good(s, t, files) && AllCalm(s) && CanStep(s, files, step) && Orderly(step) && !Handshake(step)
    ensures AllCalm(DoStep(s, files, step))
  {
    hide Inv, Next, Enabled, Semaphores, Points, Calm;
    var r := if step.Reads? then step.r else s.got[step.w];
    assert Taken(s, t, r);
    var w :| 0 <= w < |s.got| && s.got[w] == r;
    CalmKept(s.links[r], step.a, files[w]);
  }

  lemma {:induction false} HandshakeIsCalm(s: State, files: seq<seq<Byte>>, step: Step)
    requires Shaped(s, files) && AllCalm(s) && CanStep(s, files, step) && Handshake(step)
    ensures AllCalm(DoStep(s, files, step))
  {
    hide Next, Enabled, Inv;
  }

  lemma {:induction false} StepIsCalm(s: State, t: Token, files: seq<seq<Byte>>, step: Step)
    requires Good(s, t, files) && AllCalm(s) && CanStep(s, files, step) && Orderly(step)
    ensures AllCalm(DoStep(s, files, step))
  {
    hide AllCalm, DoStep, CanStep, Semaphores, Points, Ids, Covered, Links;
    if Handshake(step) { HandshakeIsCalm(s, files, step); } else { TransferIsCalm(s, t, files, step); }
  }

  lemma {:induction false} PlayIsCalm(start: State, files: seq<seq<Byte>>, schedule: seq<Step>)
    requires Init(start, files) && forall k | 0 <= k < |schedule| :: Orderly(schedule[k])
    ensures Shaped(start, files) && AllCalm(Rendezvous.Play(start, files, schedule))
    decreases |schedule|
  {
    hide Shaped, CanStep, DoStep, Good, Orderly;
    InitIsGood(start, files);
    assert Shaped(start, files) by { GoodIsShaped(start, InEmpty, files); }
    if schedule != [] {
      var last := |schedule| - 1;
      PlayIsCalm(start, files, schedule[..last]);
      var t := PlayIsGood(start, files, schedule[..last]);
      var before := Rendezvous.Play(start, files, schedule[..last]);
      if CanStep(before, files, schedule[last]) { StepIsCalm(before, t, files, schedule[last]); }
    }
  }

  lemma GoodIsShaped(s: State, t: Token, files: seq<seq<Byte>>)
    requires Good(s, t, files)
    ensures Shaped(s, files)
  {
  }

  ghost predicate NothingOrderly(s: State, files: seq<seq<Byte>>)
    requires Shaped(s, files)
  {
    forall step | Orderly(step) :: !CanStep(s, files, step)
  }

  /** With nothing to do, all readers or all writers are through the handshake, and so is everyone
      who has met someone. */
  lemma {:induction false} HandshakeOver(s: State, t: Token, files: seq<seq<Byte>>)
    requires Good(s, t, files) && NothingOrderly(s, files)
    ensures (forall r | 0 <= r < |s.readers| :: s.readers[r] == RLoop)
            || (forall w | 0 <= w < |s.writers| :: s.writers[w] == WLoop)
    ensures forall w | 0 <= w < |s.got| && s.got[w] != -1 ::
              0 <= s.got[w] < |s.readers| && s.readers[s.got[w]] == RLoop && s.writers[w] == WLoop
  {
    hide Inv, Next, Enabled, CanStep, Links, Covered;
    if !(t.InEmpty? && R0 !in s.readers) && !(t.InFull? && W0 !in s.writers) {
      var step := HandshakeProgress(s, t, files);
    }
  }

  /** And each pair has moved its file. */
  lemma {:induction false} PairDone(s: State, t: Token, files: seq<seq<Byte>>, w: nat)
    requires Good(s, t, files) && NothingOrderly(s, files) && AllCalm(s)
    requires w < |s.got| && s.got[w] != -1
    ensures 0 <= s.got[w] < |s.links| && s.links[s.got[w]].reader == Ended && s.links[s.got[w]].out == files[w]
  {
    hide Inv, Next, Enabled, Semaphores, Points, Ids, Covered;
    HandshakeOver(s, t, files);
    var r := s.got[w];
    var l := s.links[r];
    if l.writer != Failed && !(l.writer == Finished && l.reader == Ended) {
      var step := PairCanStep(s, t, files, w);
    }
    Delivered(l, files[w]);
  }

  lemma {:induction false} PairCanStep(s: State, t: Token, files: seq<seq<Byte>>, w: nat) returns (step: Step)
    requires Good(s, t, files) && w < |s.got| && s.got[w] != -1 && s.writers[w] == WLoop
    requires 0 <= s.got[w] < |s.readers| && s.readers[s.got[w]] == RLoop
    requires var l := s.links[s.got[w]];
             l.writer != Failed && l.reader != GaveUp && !(l.writer == Finished && l.reader == Ended)
    ensures Orderly(step) && CanStep(s, files, step)
  {
    hide Inv, Next, Enabled, Semaphores, Points, Ids, Covered;
    var a := NeverStuck(s.links[s.got[w]], files[w]);
    step := if ByWriter(a) then Writes(w, a) else Reads(s.got[w], a);
  }

  lemma {:induction false} Delivered(l: Link, file: seq<Byte>)
    requires Inv(l, file) && l.writer != Absent && Calm(l) && l.reader == Ended
    ensures l.out == file
  {
    hide OneToken, Pending;
    InvIsSafe(l, file);
  }

  /** A run in which nothing times out and no `read` fails, and which cannot go on: every reader or
      every writer has left the handshake, and every reader that was met has printed the file of
      the writer it met, all of it. */
  lemma {:induction false} MaximalRunDelivers(start: State, files: seq<seq<Byte>>, schedule: seq<Step>)
    requires Init(start, files) && forall k | 0 <= k < |schedule| :: Orderly(schedule[k])
    requires Shaped(start, files) && NothingOrderly(Rendezvous.Play(start, files, schedule), files)
    ensures var s := Rendezvous.Play(start, files, schedule);
            && ((forall r | 0 <= r < |s.readers| :: s.readers[r] == RLoop)
                || (forall w | 0 <= w < |s.writers| :: s.writers[w] == WLoop))
            && (forall r | 0 <= r < |s.readers| && s.readers[r] == RLoop ::
                  r in s.got && s.links[r].reader == Ended)
            && (forall w | 0 <= w < |s.got| && s.got[w] != -1 ::
                  0 <= s.got[w] < |s.links| && s.links[s.got[w]].out == files[w])
  {
    hide Inv, Init, Orderly, CanStep, Semaphores, Points, Links, Rendezvous.Play;
    var t := PlayIsGood(start, files, schedule);
    PlayIsCalm(start, files, schedule);
    var s := Rendezvous.Play(start, files, schedule);
    HandshakeOver(s, t, files);
    forall w: nat | w < |s.got| && s.got[w] != -1
      ensures 0 <= s.got[w] < |s.links| && s.links[s.got[w]].reader == Ended && s.links[s.got[w]].out == files[w] {
      PairDone(s, t, files, w);
    }
    forall r | 0 <= r < |s.readers| && s.readers[r] == RLoop ensures r in s.got && s.links[r].reader == Ended {
      assert Taken(s, t, r);
    }
  }
}
