/** Any number of readers and writers meeting through one shared cell: a reader publishes the id of
    its private memory, exactly one writer picks it up, and the pair transfers a file. */
module Rendezvous {
  import opened Common
  import opened Transfer

  /** Program points of the reader's handshake: before `P (EMPTY)`, `P (MUTEX)`, the store of its
      id, `V (MUTEX)`, `V (FULL)`, `P (W_READED)`, `SETALL`; then its transfer loop. */
  datatype ReaderPoint = R0 | R1 | R2 | R3 | R4 | R5 | R6 | RLoop

  /** And of the writer's: before `P (FULL)`, `P (MUTEX)`, the load of the id and `shmat`,
      `V (MUTEX)`, `V (W_READED)`; then its transfer loop. */
  datatype WriterPoint = W0 | W1 | W2 | W3 | W4 | WLoop

  datatype State = State(
    empty: nat, mutex: nat, full: nat, wReaded: nat,   // CONN::EMPTY, MUTEX, FULL, W_READED
    cell: int,                                         // connShm->readerShmID
    readers: seq<ReaderPoint>,
    writers: seq<WriterPoint>, got: seq<int>,          // each writer's readerShmID, -1 before the load
    links: seq<Link>)                                  // reader r's private memory has id r

  /** `InitConnShm`, and every process about to start. */
  predicate Init(s: State, files: seq<seq<Byte>>)
  {
    && s.empty == 1 && s.mutex == 1 && s.full == 0 && s.wReaded == 0
    && |s.links| == |s.readers| && |s.writers| == |s.got| == |files|
    && (forall r | 0 <= r < |s.readers| :: s.readers[r] == R0)
    && (forall r | 0 <= r < |s.links| :: |s.links[r].buf| == SIZE_BUF && s.links[r] == Fresh(s.links[r].buf))
    && (forall w | 0 <= w < |s.writers| :: s.writers[w] == W0 && s.got[w] == -1)
  }

  datatype Step = ReaderStep(r: nat) | WriterStep(w: nat) | Reads(r: nat, a: Action) | Writes(w: nat, a: Action)

  predicate Shaped(s: State, files: seq<seq<Byte>>)
  {
    && |s.links| == |s.readers| && |s.writers| == |s.got| == |files|
    && (forall r | 0 <= r < |s.links| :: |s.links[r].buf| == SIZE_BUF)
    && (forall w | 0 <= w < |s.got| :: -1 <= s.got[w] < |s.links|)
  }

  predicate CanStep(s: State, files: seq<seq<Byte>>, step: Step)
    requires Shaped(s, files)
  {
    match step
    case ReaderStep(r) =>
      r < |s.readers| && (match s.readers[r]
        case R0 => s.empty > 0
        case R1 => s.mutex > 0
        case R5 => s.wReaded > 0
        case RLoop => false
        case _ => true)
    case WriterStep(w) =>
      w < |s.writers| && (match s.writers[w]
        case W0 => s.full > 0
        case W1 => s.mutex > 0
        case W2 => 0 <= s.cell < |s.links|
        case WLoop => false
        case _ => true)
    case Reads(r, a) => r < |s.readers| && s.readers[r] == RLoop && !ByWriter(a) && Enabled(s.links[r], a)
    case Writes(w, a) =>
      w < |s.writers| && s.writers[w] == WLoop && s.got[w] != -1 && ByWriter(a) && Enabled(s.links[s.got[w]], a)
  }

  function DoStep(s: State, files: seq<seq<Byte>>, step: Step): (t: State)
    requires Shaped(s, files) && CanStep(s, files, step)
    ensures Shaped(t, files)
  {
    match step
    case ReaderStep(r) =>
      (match s.readers[r]
       case R0 => s.(readers := s.readers[r := R1], empty := s.empty - 1)
       case R1 => s.(readers := s.readers[r := R2], mutex := s.mutex - 1)
       case R2 => s.(readers := s.readers[r := R3], cell := r)
       case R3 => s.(readers := s.readers[r := R4], mutex := s.mutex + 1)
       case R4 => s.(readers := s.readers[r := R5], full := s.full + 1)
       case R5 => s.(readers := s.readers[r := R6], wReaded := s.wReaded - 1)
       case R6 => s.(readers := s.readers[r := RLoop], empty := 1, mutex := 1, full := 0, wReaded := 0)
       case RLoop => s)
    case WriterStep(w) =>
      (match s.writers[w]
       case W0 => s.(writers := s.writers[w := W1], full := s.full - 1)
       case W1 => s.(writers := s.writers[w := W2], mutex := s.mutex - 1)
       case W2 => s.(writers := s.writers[w := W3], got := s.got[w := s.cell],
                     links := s.links[s.cell := Attach(s.links[s.cell], files[w])])
       case W3 => s.(writers := s.writers[w := W4], mutex := s.mutex + 1)
       case W4 => s.(writers := s.writers[w := WLoop], wReaded := s.wReaded + 1)
       case WLoop => s)
    case Reads(r, a) => s.(links := s.links[r := Next(s.links[r], a)])
    case Writes(w, a) => s.(links := s.links[s.got[w] := Next(s.links[s.got[w]], a)])
  }

  // ------------------------------------------------------------------ the handshake token

  /** Where the one handshake token is: in EMPTY, with a reader that is publishing, in FULL, with
      the writer that is collecting, in W_READED, or with the reader that is about to reset. */
  datatype Token =
    | InEmpty | WithReader(r: nat) | InFull(r: nat)
    | WithWriter(r: nat, w: nat) | InReaded(r: nat) | Resetting(r: nat)

  predicate Critical(s: State, t: Token)
  {
    match t
    case WithReader(r) => r < |s.readers| && s.readers[r] in {R2, R3}
    case WithWriter(_, w) => w < |s.writers| && s.writers[w] in {W2, W3}
    case _ => false
  }

  predicate Collected(s: State, t: Token)
  {
    t.InReaded? || t.Resetting? || (t.WithWriter? && t.w < |s.writers| && s.writers[t.w] in {W3, W4})
  }

  predicate Semaphores(s: State, t: Token)
  {
    && s.empty == (if t.InEmpty? then 1 else 0)
    && s.full == (if t.InFull? then 1 else 0)
    && s.wReaded == (if t.InReaded? then 1 else 0)
    && s.mutex == (if Critical(s, t) then 0 else 1)
  }

  /** Everybody else is outside the handshake, and the token's holder is where it should be. */
  predicate Points(s: State, t: Token)
  {
    && (!t.InEmpty? ==> t.r < |s.readers|)
    && (t.WithWriter? ==> t.w < |s.writers|)
    && (forall r | 0 <= r < |s.readers| ::
          if t.InEmpty? || r != t.r then s.readers[r] in {R0, RLoop}
          else if t.WithReader? then s.readers[r] in {R1, R2, R3, R4}
          else if t.Resetting? then s.readers[r] == R6
          else s.readers[r] == R5)
    && (forall w | 0 <= w < |s.writers| ::
          if t.WithWriter? && w == t.w then s.writers[w] in {W1, W2, W3, W4} else s.writers[w] in {W0, WLoop})
    && (t.InFull? || t.WithWriter? || (t.WithReader? && s.readers[t.r] in {R3, R4}) ==> s.cell == t.r)
  }

  /** Reader r's id has been taken by a writer. */
  predicate Taken(s: State, t: Token, r: nat)
    requires r < |s.readers|
  {
    s.readers[r] == RLoop || (!t.InEmpty? && t.r == r && Collected(s, t))
  }

  /** Who has whose id: writers hold different ids, each of them given away by the handshake. */
  predicate Ids(s: State, t: Token)
    requires |s.got| == |s.writers|
  {
    && (forall w | 0 <= w < |s.writers| :: s.got[w] == -1 <==> s.writers[w] in {W0, W1, W2})
    && (forall w | 0 <= w < |s.got| && s.got[w] != -1 :: 0 <= s.got[w] < |s.readers| && Taken(s, t, s.got[w]))
    && (forall v, w | 0 <= v < w < |s.got| && s.got[v] != -1 :: s.got[v] != s.got[w])
  }

  /** And every id given away is held by a writer. */
  predicate Covered(s: State, t: Token)
    requires |s.got| == |s.writers|
  {
    forall r | 0 <= r < |s.readers| && Taken(s, t, r) :: r in s.got
  }

  /** The links: untouched before their id is taken, carrying the taker's file afterwards. */
  predicate Links(s: State, t: Token, files: seq<seq<Byte>>)
    requires Shaped(s, files)
  {
    && (forall r | 0 <= r < |s.links| && !Taken(s, t, r) :: s.links[r].writer == Absent && Inv(s.links[r], []))
    && (forall w | 0 <= w < |s.got| && s.got[w] != -1 ::
          s.links[s.got[w]].writer != Absent && Inv(s.links[s.got[w]], files[w]))
  }

  predicate Good(s: State, t: Token, files: seq<seq<Byte>>)
  {
    Shaped(s, files) && Semaphores(s, t) && Points(s, t) && Ids(s, t) && Covered(s, t) && Links(s, t, files)
  }

  /** How a step moves the token. */
  function MoveToken(s: State, t: Token, step: Step): (u: Token)
  {
    match step
    case ReaderStep(r) =>
      if r >= |s.readers| then t
      else (match s.readers[r]
        case R0 => WithReader(r)
        case R4 => InFull(r)
        case R5 => Resetting(r)
        case R6 => InEmpty
        case _ => t)
    case WriterStep(w) =>
      if w >= |s.writers| || t.InEmpty? then t
      else (match s.writers[w]
        case W0 => WithWriter(t.r, w)
        case W4 => InReaded(t.r)
        case _ => t)
    case _ => t
  }

  predicate Handshake(step: Step) { step.ReaderStep? || step.WriterStep? }

  lemma {:induction false} TokenHolder(s: State, t: Token, files: seq<seq<Byte>>, step: Step)
    requires Shaped(s, files) && Semaphores(s, t) && Points(s, t) && CanStep(s, files, step)
    ensures step.ReaderStep? ==>
      match s.readers[step.r]
      case R0 => t == InEmpty
      case R5 => t == InReaded(step.r)
      case R6 => t == Resetting(step.r)
      case _ => t == WithReader(step.r)
    ensures step.WriterStep? ==>
      match s.writers[step.w]
      case W0 => t.InFull?
      case _ => t.WithWriter? && t.w == step.w
  {
    hide Inv, Next, Enabled, Attach, Ids, Links;
  }

  lemma {:induction false} PointsKept(s: State, t: Token, files: seq<seq<Byte>>, step: Step)
    requires Shaped(s, files) && Semaphores(s, t) && Points(s, t) && CanStep(s, files, step) && Handshake(step)
    ensures Points(DoStep(s, files, step), MoveToken(s, t, step))
  {
    hide Inv, Next, Enabled, Attach, Ids, Links;
    TokenHolder(s, t, files, step);
  }

  lemma {:induction false} SemaphoresKept(s: State, t: Token, files: seq<seq<Byte>>, step: Step)
    requires Shaped(s, files) && Semaphores(s, t) && Points(s, t) && CanStep(s, files, step) && Handshake(step)
    ensures Semaphores(DoStep(s, files, step), MoveToken(s, t, step))
  {
    hide Inv, Next, Enabled, Attach, Ids, Links;
    TokenHolder(s, t, files, step);
  }

  lemma {:induction false} IdsKeptByReader(s: State, t: Token, files: seq<seq<Byte>>, r: nat)
    requires Shaped(s, files) && Semaphores(s, t) && Points(s, t) && Ids(s, t) && CanStep(s, files, ReaderStep(r))
    ensures Ids(DoStep(s, files, ReaderStep(r)), MoveToken(s, t, ReaderStep(r)))
  {
    hide Inv, Next, Enabled, Attach, Links, Semaphores, Covered;
    TokenHolder(s, t, files, ReaderStep(r));
  }

  lemma {:induction false} IdsKeptByWriter(s: State, t: Token, files: seq<seq<Byte>>, w: nat)
    requires Shaped(s, files) && Semaphores(s, t) && Points(s, t) && Ids(s, t) && CanStep(s, files, WriterStep(w))
    ensures Ids(DoStep(s, files, WriterStep(w)), MoveToken(s, t, WriterStep(w)))
  {
    hide Inv, Next, Enabled, Attach, Links, Semaphores, Covered;
    TokenHolder(s, t, files, WriterStep(w));
  }

  lemma {:induction false} IdsKept(s: State, t: Token, files: seq<seq<Byte>>, step: Step)
    requires Shaped(s, files) && Semaphores(s, t) && Points(s, t) && Ids(s, t)
    requires CanStep(s, files, step) && Handshake(step)
    ensures Ids(DoStep(s, files, step), MoveToken(s, t, step))
  {
    hide Shaped, Semaphores, Points, Ids, CanStep, DoStep, MoveToken;
    if step.ReaderStep? { IdsKeptByReader(s, t, files, step.r); } else { IdsKeptByWriter(s, t, files, step.w); }
  }

  lemma {:induction false} CoveredKept(s: State, t: Token, files: seq<seq<Byte>>, step: Step)
    requires Shaped(s, files) && Semaphores(s, t) && Points(s, t) && Ids(s, t) && Covered(s, t)
    requires CanStep(s, files, step) && Handshake(step)
    ensures Covered(DoStep(s, files, step), MoveToken(s, t, step))
  {
    hide Inv, Next, Enabled, Attach, Links, Semaphores;
    TokenHolder(s, t, files, step);
    var s', t' := DoStep(s, files, step), MoveToken(s, t, step);
    forall r | 0 <= r < |s.readers| && Taken(s', t', r) ensures r in s'.got {
      if Taken(s, t, r) {
        var w :| 0 <= w < |s.got| && s.got[w] == r;
        assert s'.got[w] == r;
      } else {
        assert s'.got[t.w] == r;
      }
    }
  }

  lemma {:induction false} AttachedKept(s: State, t: Token, files: seq<seq<Byte>>, w: nat)
    requires Good(s, t, files) && CanStep(s, files, WriterStep(w)) && s.writers[w] == W2
    ensures Links(DoStep(s, files, WriterStep(w)), t, files)
  {
    hide Inv, Next, Enabled, Semaphores, Covered;
    TokenHolder(s, t, files, WriterStep(w));
    assert !Taken(s, t, t.r) && s.cell == t.r;
    AttachKeeps(s.links[t.r], files[w]);
  }

  lemma {:induction false} LinksKept(s: State, t: Token, files: seq<seq<Byte>>, step: Step)
    requires Good(s, t, files) && CanStep(s, files, step) && Handshake(step)
    ensures Links(DoStep(s, files, step), MoveToken(s, t, step), files)
  {
    hide Inv, Next, Enabled, Semaphores, Covered, Attach;
    TokenHolder(s, t, files, step);
    if step.WriterStep? && s.writers[step.w] == W2 {
      AttachedKept(s, t, files, step.w);
    }
  }

  lemma {:induction false} HandshakeUntouched(s: State, t: Token, links: seq<Link>)
    requires |s.got| == |s.writers|
    ensures var s' := s.(links := links);
            && (Semaphores(s, t) ==> Semaphores(s', t)) && (Points(s, t) ==> Points(s', t))
            && (Ids(s, t) ==> Ids(s', t)) && (Covered(s, t) ==> Covered(s', t))
  {
  }

  lemma {:induction false} LinkReplaced(s: State, t: Token, files: seq<seq<Byte>>, w: nat, l: Link)
    requires Good(s, t, files) && w < |s.got| && s.got[w] != -1
    requires l.writer != Absent && Inv(l, files[w]) && |l.buf| == SIZE_BUF
    ensures Good(s.(links := s.links[s.got[w] := l]), t, files)
  {
    hide Inv, Semaphores, Points, Covered;
    HandshakeUntouched(s, t, s.links[s.got[w] := l]);
  }

  lemma {:induction false} TransferKept(s: State, t: Token, files: seq<seq<Byte>>, step: Step)
    requires Good(s, t, files) && CanStep(s, files, step) && !Handshake(step)
    ensures Good(DoStep(s, files, step), t, files)
  {
    hide Inv, Next, Enabled, Semaphores, Points;
    var r, a := if step.Reads? then step.r else s.got[step.w], step.a;
    assert Taken(s, t, r);
    var w :| 0 <= w < |s.got| && s.got[w] == r;
    StepKeeps(s.links[r], a, files[w]);
    LinkReplaced(s, t, files, w, Next(s.links[r], a));
  }

  lemma {:induction false} StepKeepsGood(s: State, t: Token, files: seq<seq<Byte>>, step: Step)
    requires Good(s, t, files) && CanStep(s, files, step)
    ensures Good(DoStep(s, files, step), MoveToken(s, t, step), files)
  {
    hide Shaped, Semaphores, Points, Ids, Covered, Links, DoStep, CanStep;
    if Handshake(step) {
      PointsKept(s, t, files, step);
      SemaphoresKept(s, t, files, step);
      IdsKept(s, t, files, step);
      CoveredKept(s, t, files, step);
      LinksKept(s, t, files, step);
    } else {
      TransferKept(s, t, files, step);
    }
  }

  // ------------------------------------------------------------------ runs

  function Play(s: State, files: seq<seq<Byte>>, schedule: seq<Step>): (t: State)
    requires Shaped(s, files)
    ensures Shaped(t, files)
    decreases |schedule|
  {
    if schedule == [] then s
    else
      var before := Play(s, files, schedule[..|schedule| - 1]);
      var step := schedule[|schedule| - 1];
      if CanStep(before, files, step) then DoStep(before, files, step) else before
  }

  lemma {:induction false} InitIsGood(s: State, files: seq<seq<Byte>>)
    requires Init(s, files)
    ensures Good(s, InEmpty, files)
  {
  }

  lemma {:induction false} PlayIsGood(s: State, files: seq<seq<Byte>>, schedule: seq<Step>) returns (t: Token)
    requires Init(s, files)
    ensures Shaped(s, files) && Good(Play(s, files, schedule), t, files)
    decreases |schedule|
  {
    hide Init, Shaped, CanStep, DoStep, Semaphores, Points, Ids, Covered, Links;
    InitIsGood(s, files);
    if schedule == [] {
      t := InEmpty;
    } else {
      var before := Play(s, files, schedule[..|schedule| - 1]);
      var step := schedule[|schedule| - 1];
      t := PlayIsGood(s, files, schedule[..|schedule| - 1]);
      if CanStep(before, files, step) {
        StepKeepsGood(before, t, files, step);
        t := MoveToken(before, t, step);
      }
    }
  }

  /** The processes that have taken the token out of a semaphore and not yet put it back. */
  function HoldingReaders(s: State): (h: set<nat>)
  {
    set r: nat | r < |s.readers| && s.readers[r] in {R1, R2, R3, R4, R6}
  }

  function HoldingWriters(s: State): (h: set<nat>)
  {
    set w: nat | w < |s.writers| && s.writers[w] in {W1, W2, W3, W4}
  }

  predicate Met(s: State, files: seq<seq<Byte>>, r: nat, w: nat)
    requires Shaped(s, files) && r < |s.readers| && w < |files|
  {
    && s.got[w] == r
    && (forall v | 0 <= v < |files| && s.got[v] == r :: v == w)
    && Safe(s.links[r], files[w])
  }

  /** What holds of the whole system at every moment of every run: one handshake token; no two
      writers with the same reader's id; a reader past the handshake has been met by exactly one
      writer, and what it prints is that writer's file; the blind reset of all four semaphores
      is a plain `V (EMPTY)`. */
  lemma {:induction false} RendezvousIsSafe(start: State, files: seq<seq<Byte>>, schedule: seq<Step>)
    requires Init(start, files)
    ensures Shaped(start, files)
    ensures var s := Play(start, files, schedule);
            && s.empty + s.full + s.wReaded + |HoldingReaders(s)| + |HoldingWriters(s)| == 1
            && (forall v, w | 0 <= v < w < |files| && s.got[v] != -1 :: s.got[v] != s.got[w])
            && (forall r | 0 <= r < |s.readers| && s.readers[r] == RLoop ::
                  exists w :: 0 <= w < |files| && Met(s, files, r, w))
            && (forall r | 0 <= r < |s.readers| && s.readers[r] == R6 ::
                  DoStep(s, files, ReaderStep(r)) == s.(readers := s.readers[r := RLoop], empty := s.empty + 1))
  {
    hide Init, Play, MoveToken;
    var t := PlayIsGood(start, files, schedule);
    var s := Play(start, files, schedule);
    OneTokenCounted(s, t, files);
    forall r | 0 <= r < |s.readers| && s.readers[r] == RLoop
      ensures exists w :: 0 <= w < |files| && Met(s, files, r, w) {
      var w := MetBy(s, t, files, r);
    }
    forall r | 0 <= r < |s.readers| && s.readers[r] == R6
      ensures DoStep(s, files, ReaderStep(r)) == s.(readers := s.readers[r := RLoop], empty := s.empty + 1) {
      TokenHolder(s, t, files, ReaderStep(r));
    }
  }

  lemma {:induction false} OneTokenCounted(s: State, t: Token, files: seq<seq<Byte>>)
    requires Good(s, t, files)
    ensures s.empty + s.full + s.wReaded + |HoldingReaders(s)| + |HoldingWriters(s)| == 1
  {
    hide Links, Ids, Covered, Shaped, Points, HoldingReaders, HoldingWriters;
    HoldersAre(s, t);
  }

  lemma {:induction false} HoldersAre(s: State, t: Token)
    requires Points(s, t)
    ensures HoldingReaders(s) == if t.WithReader? || t.Resetting? then {t.r} else {}
    ensures HoldingWriters(s) == if t.WithWriter? then {t.w} else {}
  {
  }

  lemma {:induction false} MetBy(s: State, t: Token, files: seq<seq<Byte>>, r: nat) returns (w: nat)
    requires Good(s, t, files) && r < |s.readers| && s.readers[r] == RLoop
    ensures w < |files| && Met(s, files, r, w)
  {
    hide Inv, Safe, Semaphores, Points;
    assert Taken(s, t, r);
    w :| 0 <= w < |s.got| && s.got[w] == r;
    InvIsSafe(s.links[r], files[w]);
  }

  /** The handshake cannot jam: some step of it is possible, except with the token in EMPTY and
      nobody left to publish, or in FULL and nobody left to collect. */
  lemma {:induction false} HandshakeProgress(s: State, t: Token, files: seq<seq<Byte>>) returns (step: Step)
    requires Good(s, t, files)
    requires t.InEmpty? ==> R0 in s.readers
    requires t.InFull? ==> W0 in s.writers
    ensures Handshake(step) && CanStep(s, files, step)
  {
    hide Links, Ids, Covered, Inv;
    match t
    case InEmpty => var r :| 0 <= r < |s.readers| && s.readers[r] == R0; step := ReaderStep(r);
    case InFull(_) => var w :| 0 <= w < |s.writers| && s.writers[w] == W0; step := WriterStep(w);
    case WithWriter(_, w) => step := WriterStep(w);
    case WithReader(r) => step := ReaderStep(r);
    case InReaded(r) => step := ReaderStep(r);
    case Resetting(r) => step := ReaderStep(r);
  }
}
