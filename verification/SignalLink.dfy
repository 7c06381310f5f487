/** A file sent from one process to another one bit per signal: SIGUSR1 for 0, SIGUSR2 for 1, each
    answered by a SIGUSR1 back.  Signals do not queue: sending one that is already pending is lost. */
module SignalLink {
  import opened Machine
  import opened Common

  const SIZE_BUF: nat := 4096

  datatype Signal = USR1 | USR2 | ALRM | CHLD

  // ------------------------------------------------------------------ the writer

  /** At `read`; at `alarm` and `kill`; at the shift; in `sigsuspend`; returned 0; returned -1. */
  datatype WriterAt = Reads | Sends | Shifts | Waits | Finished | Failed

  /** `sent` counts the bits signalled so far. */
  datatype Writer = Writer(at: WriterAt, unread: seq<Octet>, buf: seq<Octet>, j: nat, i: nat, armed: bool, sent: nat)

  predicate WriterOk(w: Writer)
  {
    if w.at in {Sends, Shifts, Waits} then w.j < |w.buf| && w.i < 8 else w.at == Reads ==> w.buf == []
  }

  /** What the writer has still to signal. */
  function ToSend(w: Writer): (b: seq<bool>)
    requires WriterOk(w)
  {
    match w.at
    case Sends => w.buf[w.j][..8 - w.i] + Bits(w.buf[w.j + 1..]) + Bits(w.unread)
    case Shifts => w.buf[w.j][1..8 - w.i] + Bits(w.buf[w.j + 1..]) + Bits(w.unread)
    case Waits => w.buf[w.j][..7 - w.i] + Bits(w.buf[w.j + 1..]) + Bits(w.unread)
    case _ => Bits(w.unread)
  }

  function Fetched(w: Writer, count: nat): (v: Writer)
    requires count <= |w.unread|
  {
    if count == 0 then w.(at := Finished)
    else w.(at := Sends, buf := w.unread[..count], unread := w.unread[count..], j := 0, i := 0)
  }

  function Shifted(w: Writer): (v: Writer)
    requires w.j < |w.buf|
  {
    w.(at := Waits, buf := w.buf[w.j := ShiftRight(w.buf[w.j], 1, w.buf[w.j][7])])
  }

  /** The end of the inner loops' bodies. */
  function NextBit(w: Writer): (v: Writer)
  {
    if w.i + 1 < 8 then w.(at := Sends, i := w.i + 1)
    else if w.j + 1 < |w.buf| then w.(at := Sends, i := 0, j := w.j + 1)
    else w.(at := Reads, i := 0, j := 0, buf := [])
  }

  lemma {:induction false} FetchedToSend(w: Writer, count: nat)
    requires WriterOk(w) && w.at == Reads && count <= |w.unread|
    ensures WriterOk(Fetched(w, count)) && ToSend(Fetched(w, count)) == ToSend(w)
  {
    if count > 0 {
      var buf, unread := w.unread[..count], w.unread[count..];
      assert w.unread == buf + unread;
      BitsAppend(buf, unread);
      assert buf[0][..8] == buf[0];
    }
  }

  lemma {:induction false} SentToSend(w: Writer)
    requires WriterOk(w) && w.at == Sends
    ensures ToSend(w) == [w.buf[w.j][0]] + ToSend(w.(at := Shifts, armed := true, sent := w.sent + 1))
  {
    hide Bits;
    var byte := w.buf[w.j];
    assert byte[..8 - w.i] == [byte[0]] + byte[1..8 - w.i];
    Regroup(byte[0], byte[1..8 - w.i], Bits(w.buf[w.j + 1..]), Bits(w.unread));
  }

  lemma {:induction false} Regroup(head: bool, a: seq<bool>, b: seq<bool>, c: seq<bool>)
    ensures [head] + a + b + c == [head] + (a + b + c)
  {
  }

  lemma {:induction false} ShiftedToSend(w: Writer)
    requires WriterOk(w) && w.at == Shifts
    ensures WriterOk(Shifted(w)) && ToSend(Shifted(w)) == ToSend(w)
  {
    hide Bits;
    assert Shifted(w).buf[w.j][..7 - w.i] == w.buf[w.j][1..8 - w.i];
    assert Shifted(w).buf[w.j + 1..] == w.buf[w.j + 1..];
  }

  lemma NoBits(b: seq<bool>)
    ensures [] + b == b
  {
  }

  lemma BitsSplit(bytes: seq<Octet>)
    ensures Bits(bytes) == if bytes == [] then [] else bytes[0] + Bits(bytes[1..])
  {
  }

  lemma {:induction false} NextBitToSend(w: Writer)
    requires WriterOk(w) && w.at == Waits
    ensures WriterOk(NextBit(w)) && ToSend(NextBit(w)) == ToSend(w)
  {
    hide Bits;
    if w.i == 7 {
      var rest := w.buf[w.j + 1..];
      assert w.buf[w.j][..0] == [];
      NoBits(Bits(rest));
      BitsSplit(rest);
      if rest == [] {
        NoBits(Bits(w.unread));
      } else {
        assert rest[1..] == w.buf[w.j + 2..] && rest[0] == w.buf[w.j + 1][..8];
      }
    }
  }

  // ------------------------------------------------------------------ the reader

  /** In `sigsuspend`; at `buf |= curBit << i`; at `kill`; at `write`; returned. */
  datatype ReaderAt = Suspends | Stores | Acks | Prints | Ended

  datatype Reader = Reader(at: ReaderAt, byte: Octet, k: nat, curBit: bool, out: seq<Octet>)

  /** The finished bits of the byte under construction. */
  function Ready(r: Reader): (n: nat)
  {
    if r.at == Acks then r.k + 1 else r.k
  }

  predicate ReaderOk(r: Reader)
  {
    r.k <= 8 && (r.k == 8 <==> r.at == Prints) && (forall b | Ready(r) <= b < 8 :: !r.byte[b])
  }

  /** All the bits the reader has taken in. */
  function Received(r: Reader): (b: seq<bool>)
    requires ReaderOk(r)
    ensures |b| == 8 * |r.out| + Ready(r)
  {
    Bits(r.out) + r.byte[..Ready(r)]
  }

  function Stored(r: Reader): (t: Reader)
    requires r.k < 8
  {
    r.(at := Acks, byte := r.byte[r.k := r.byte[r.k] || r.curBit])
  }

  function Acked(r: Reader): (t: Reader)
  {
    r.(k := r.k + 1, at := if r.k + 1 < 8 then Suspends else Prints)
  }

  function Printed(r: Reader): (t: Reader)
  {
    r.(out := r.out + [r.byte], byte := Repeat(8, false), k := 0, at := Suspends)
  }

  lemma {:induction false} StoredReceived(r: Reader)
    requires ReaderOk(r) && r.at == Stores
    ensures ReaderOk(Stored(r)) && Received(Stored(r)) == Received(r) + [r.curBit]
  {
    hide Bits;
    assert Stored(r).byte[..r.k + 1] == r.byte[..r.k] + [r.curBit];
  }

  lemma {:induction false} AckedReceived(r: Reader)
    requires ReaderOk(r) && r.at == Acks
    ensures ReaderOk(Acked(r)) && Received(Acked(r)) == Received(r)
  {
  }

  lemma {:induction false} PrintedReceived(r: Reader)
    requires ReaderOk(r) && r.at == Prints
    ensures ReaderOk(Printed(r)) && Received(Printed(r)) == Received(r)
  {
    BitsAppend(r.out, [r.byte]);
    assert [r.byte][1..] == [] && r.byte[..8] == r.byte;
  }

  // ------------------------------------------------------------------ the link

  /** Both processes, and the signals pending at each. */
  datatype State = State(w: Writer, r: Reader, toWriter: set<Signal>, toReader: set<Signal>)

  function Start(file: seq<Octet>): (s: State)
  {
    State(Writer(Reads, file, [], 0, 0, false, 0), Reader(Suspends, Repeat(8, false), 0, false, []), {}, {})
  }

  /** `Wakes` steps say which of the pending signals are handled before `sigsuspend` returns. */
  datatype Step =
    | Read(count: nat) | ReadFails | Send | Shift | AlarmFires | WriterWakes(handled: set<Signal>)
    | ReaderWakes(handled: set<Signal>) | Store | Ack | Print

  predicate CanStep(s: State, step: Step)
  {
    match step
    case Read(count) =>
      s.w.at == Reads && count <= SIZE_BUF && count <= |s.w.unread| && (count == 0 <==> s.w.unread == [])
    case ReadFails => s.w.at == Reads
    case Send => s.w.at == Sends && s.w.j < |s.w.buf|
    case Shift => s.w.at == Shifts && s.w.j < |s.w.buf|
    case AlarmFires => s.w.armed && s.w.at !in {Finished, Failed}
    case WriterWakes(handled) => s.w.at == Waits && handled != {} && handled <= s.toWriter
    case ReaderWakes(handled) => s.r.at == Suspends && handled != {} && handled <= s.toReader
    case Store => s.r.at == Stores && s.r.k < 8
    case Ack => s.r.at == Acks
    case Print => s.r.at == Prints
  }

  function DoStep(s: State, step: Step): (t: State)
    requires CanStep(s, step)
  {
    match step
    case Read(count) => s.(w := Fetched(s.w, count), toReader := s.toReader + if count == 0 then {CHLD} else {})
    case ReadFails => s.(w := s.w.(at := Failed), toReader := s.toReader + {CHLD})
    case Send =>
      s.(w := s.w.(at := Shifts, armed := true, sent := s.w.sent + 1),
         toReader := s.toReader + {if s.w.buf[s.w.j][0] then USR2 else USR1})
    case Shift => s.(w := Shifted(s.w))
    case AlarmFires => s.(w := s.w.(armed := false), toWriter := s.toWriter + {ALRM})
    case WriterWakes(handled) =>
      if ALRM in handled then
        s.(w := s.w.(at := Failed), toWriter := s.toWriter - handled, toReader := s.toReader + {CHLD})
      else
        s.(w := NextBit(s.w), toWriter := s.toWriter - handled)
    case ReaderWakes(handled) =>
      if CHLD in handled then
        s.(r := s.r.(at := Ended), toReader := s.toReader - handled)
      else
        s.(r := s.r.(at := Stores, curBit := USR2 in handled), toReader := s.toReader - handled)
    case Store => s.(r := Stored(s.r))
    case Ack => s.(r := Acked(s.r), toWriter := s.toWriter + {USR1})
    case Print => s.(r := Printed(s.r))
  }

  // ------------------------------------------------------------------ what every step keeps

  predicate OnTheWay(s: State) { USR1 in s.toReader || USR2 in s.toReader }

  /** At most one bit is unacknowledged: it is pending at the reader, in the reader's hands, or its
      acknowledgement is pending at the writer; `got` of `bits` have been received. */
  predicate OneInFlight(s: State, got: nat, bits: seq<bool>)
  {
    && !(USR1 in s.toReader && USR2 in s.toReader)
    && got <= s.w.sent <= got + 1 && s.w.sent <= |bits|
    && (OnTheWay(s) ==>
          s.w.sent == got + 1 && (USR2 in s.toReader <==> bits[got]) && s.r.at in {Suspends, Prints, Ended})
    && (s.r.at == Stores ==> s.w.sent == got + 1 && s.r.curBit == bits[got])
    && (s.r.at == Acks ==> s.w.sent == got)
    && (USR1 in s.toWriter ==> s.w.sent == got && s.r.at in {Suspends, Prints, Ended})
    && (s.w.sent > got && s.r.at != Ended ==> OnTheWay(s) || s.r.at == Stores)
    && (s.w.at in {Reads, Sends, Finished} ==> s.w.sent == got && s.r.at != Acks && USR1 !in s.toWriter)
    && (s.w.at in {Shifts, Waits} && s.w.sent == got ==> s.r.at == Acks || USR1 in s.toWriter)
    && (s.w.at in {Finished, Failed} <==> CHLD in s.toReader || s.r.at == Ended)
    && ALRM !in s.toReader && s.toWriter <= {USR1, ALRM}
  }

  predicate Inv(s: State, file: seq<Octet>)
  {
    && WriterOk(s.w) && ReaderOk(s.r)
    && OneInFlight(s, |Received(s.r)|, Bits(file))
    && Received(s.r) <= Bits(file)
    && (s.w.at != Failed ==> ToSend(s.w) == Bits(file)[s.w.sent..])
    && (s.w.at == Finished ==> s.w.unread == [])
    && Guarded(s)
  }

  /** A writer that may have to wait has an alarm that is still to fire, or has fired. */
  predicate Guarded(s: State)
  {
    s.w.at in {Shifts, Waits} ==> s.w.armed || ALRM in s.toWriter
  }

  lemma {:induction false} InFlightKept(s: State, step: Step, got: nat, bits: seq<bool>)
    requires OneInFlight(s, got, bits) && CanStep(s, step)
    requires step.Send? ==> s.w.sent < |bits| && s.w.buf[s.w.j][0] == bits[s.w.sent]
    ensures OneInFlight(DoStep(s, step), if step.Store? then got + 1 else got, bits)
  {
    hide ShiftRight, Repeat;
    if step.ReaderWakes? {
      var x :| x in step.handled;
      assert x in s.toReader && x != ALRM;
    } else if step.WriterWakes? {
      var x :| x in step.handled;
      assert x in {USR1, ALRM};
    }
  }

  lemma {:induction false} WriterStepKeeps(s: State, step: Step, bits: seq<bool>)
    requires WriterOk(s.w) && s.w.sent <= |bits| && ToSend(s.w) == bits[s.w.sent..] && CanStep(s, step)
    ensures var v := DoStep(s, step).w;
            WriterOk(v) && v.sent <= |bits| && (v.at != Failed ==> ToSend(v) == bits[v.sent..])
    ensures step.Send? ==> s.w.sent < |bits| && s.w.buf[s.w.j][0] == bits[s.w.sent]
  {
    hide Bits, ToSend, ShiftRight, Repeat;
    match step
    case Read(count) => FetchedToSend(s.w, count);
    case Send => SentToSend(s.w); HeadOf(bits, s.w.sent, s.w.buf[s.w.j][0], ToSend(DoStep(s, step).w));
    case Shift => ShiftedToSend(s.w);
    case WriterWakes(_) => NextBitToSend(s.w);
    case AlarmFires => StillToSend(s.w);
    case _ =>
  }

  lemma {:induction false} StillToSend(w: Writer)
    requires WriterOk(w)
    ensures WriterOk(w.(armed := false)) && ToSend(w.(armed := false)) == ToSend(w)
  {
  }

  lemma {:induction false} HeadOf(bits: seq<bool>, at: nat, head: bool, rest: seq<bool>)
    requires at <= |bits| && bits[at..] == [head] + rest
    ensures at < |bits| && bits[at] == head && bits[at + 1..] == rest
  {
    assert bits[at..][0] == bits[at] && bits[at..][1..] == bits[at + 1..];
  }

  lemma {:induction false} ReaderStepKeeps(s: State, step: Step)
    requires ReaderOk(s.r) && CanStep(s, step)
    ensures var t := DoStep(s, step).r;
            ReaderOk(t) && Received(t) == Received(s.r) + if step.Store? then [s.r.curBit] else []
  {
    hide Bits, Stored, Acked, Printed;
    match step
    case Store => StoredReceived(s.r);
    case Ack => AckedReceived(s.r);
    case Print => PrintedReceived(s.r);
    case _ =>
  }

  lemma {:induction false} StepKeeps(s: State, step: Step, file: seq<Octet>)
    requires Inv(s, file) && CanStep(s, step)
    ensures Inv(DoStep(s, step), file)
  {
    hide Bits, WriterOk, ReaderOk, ToSend, Received;
    ReaderStepKeeps(s, step);
    if s.w.at != Failed { WriterStepKeeps(s, step, Bits(file)); }
    InFlightKept(s, step, |Received(s.r)|, Bits(file));
  }

  // ------------------------------------------------------------------ runs

  /** The state after a schedule of steps; a step that is not possible does not happen. */
  function Play(file: seq<Octet>, schedule: seq<Step>): (s: State)
    decreases |schedule|
  {
    if schedule == [] then Start(file)
    else
      var before := Play(file, schedule[..|schedule| - 1]);
      var step := schedule[|schedule| - 1];
      if CanStep(before, step) then DoStep(before, step) else before
  }

  lemma {:induction false} StartKeeps(file: seq<Octet>)
    ensures Inv(Start(file), file)
  {
  }

  lemma {:induction false} PlayKeeps(file: seq<Octet>, schedule: seq<Step>)
    ensures Inv(Play(file, schedule), file)
    decreases |schedule|
  {
    hide Inv, CanStep, DoStep;
    StartKeeps(file);
    if schedule != [] {
      var before := Play(file, schedule[..|schedule| - 1]);
      PlayKeeps(file, schedule[..|schedule| - 1]);
      if CanStep(before, schedule[|schedule| - 1]) { StepKeeps(before, schedule[|schedule| - 1], file); }
    }
  }

  /** Bytes can be told from their bits. */
  lemma {:induction false} SameBits(a: seq<Octet>, more: seq<bool>, b: seq<Octet>)
    requires Bits(a) + more <= Bits(b) && |more| < 8
    ensures a <= b && (Bits(a) + more == Bits(b) ==> a == b && more == [])
  {
    if a == [] {
      assert Bits(a) + more == more;
    } else {
      var x, y := Bits(a) + more, Bits(b);
      assert x[..8] == a[0] && y[..8] == b[0] && x[..8] == y[..8];
      assert x[8..] == Bits(a[1..]) + more && y[8..] == Bits(b[1..]);
      SameBits(a[1..], more, b[1..]);
      assert forall k | 0 < k < |a| :: a[k] == a[1..][k - 1] && b[k] == b[1..][k - 1];
    }
  }

  /** In every run: what is printed is a prefix of the file, also after a timeout; no signal is
      sent while one like it is pending; and when the writer has ended normally and the reader
      has nothing left to print, the whole file, byte for byte, has arrived. */
  lemma {:induction false} EveryRunIsFaithful(file: seq<Octet>, schedule: seq<Step>)
    ensures var s := Play(file, schedule);
            && s.r.out <= file
            && (s.w.at == Sends ==> !OnTheWay(s)) && (s.r.at == Acks ==> USR1 !in s.toWriter)
            && (s.w.at in {Shifts, Waits} ==> s.w.armed || ALRM in s.toWriter)
            && (s.w.at == Finished && s.r.at in {Suspends, Ended} ==> s.r.out == file)
  {
    hide Bits, CanStep, DoStep, ToSend, Play;
    PlayKeeps(file, schedule);
    var s := Play(file, schedule);
    assert OneInFlight(s, |Received(s.r)|, Bits(file));
    if s.w.at == Finished { AllSent(s, file); }
    if Ready(s.r) < 8 {
      SameBits(s.r.out, s.r.byte[..Ready(s.r)], file);
    } else {
      SameBits(s.r.out, [], file);
    }
  }

  /** A waiting writer can always time out, whatever the reader does or does not do: every run that
      leaves it waiting goes on, without the reader, to one in which it has returned -1. */
  lemma {:induction false} TimesOut(file: seq<Octet>, schedule: seq<Step>) returns (more: seq<Step>)
    requires Play(file, schedule).w.at == Waits
    ensures |more| <= 2 && (forall k | 0 <= k < |more| :: more[k] in {AlarmFires, WriterWakes({ALRM})})
    ensures var s := Play(file, schedule + more); s.w.at == Failed && s.r == Play(file, schedule).r
  {
    hide Inv, Play, CanStep, DoStep;
    PlayKeeps(file, schedule);
    var s := Play(file, schedule);
    InvSays(s, file);
    if ALRM in s.toWriter {
      more := [WriterWakes({ALRM})];
      PlayNext(file, schedule, more[0]);
      WakesByAlarm(s);
    } else {
      more := [AlarmFires, WriterWakes({ALRM})];
      PlayNext(file, schedule, more[0]);
      Fires(s);
      PlayNext(file, schedule + [more[0]], more[1]);
      WakesByAlarm(DoStep(s, AlarmFires));
      assert schedule + more == (schedule + [more[0]]) + [more[1]];
    }
  }

  lemma WakesByAlarm(s: State)
    requires s.w.at == Waits && ALRM in s.toWriter
    ensures CanStep(s, WriterWakes({ALRM}))
    ensures var t := DoStep(s, WriterWakes({ALRM})); t.w.at == Failed && t.r == s.r
  {
  }

  lemma Fires(s: State)
    requires s.w.at == Waits && s.w.armed
    ensures CanStep(s, AlarmFires)
    ensures var t := DoStep(s, AlarmFires); t.w.at == Waits && t.r == s.r && ALRM in t.toWriter
  {
  }

  lemma InvSays(s: State, file: seq<Octet>)
    requires Inv(s, file)
    ensures Guarded(s)
  {
  }

  lemma {:induction false} PlayNext(file: seq<Octet>, schedule: seq<Step>, step: Step)
    ensures var s := Play(file, schedule);
            Play(file, schedule + [step]) == if CanStep(s, step) then DoStep(s, step) else s
  {
    assert (schedule + [step])[..|schedule|] == schedule;
  }

  /** A wait in which the alarm is handled is a timeout, even if the acknowledgement is handled too; any
      other goes on. */
  lemma {:induction false} AlarmWins(file: seq<Octet>, schedule: seq<Step>, handled: set<Signal>)
    requires CanStep(Play(file, schedule), WriterWakes(handled))
    ensures Play(file, schedule + [WriterWakes(handled)]).w.at == Failed <==> ALRM in handled
  {
    PlayNext(file, schedule, WriterWakes(handled));
  }

  /** At `read` the writer gets 1 to 4096 of the bytes there are, and 0 exactly at the end of the file;
      or the `read` fails, and the writer returns -1. */
  lemma {:induction false} Reading(file: seq<Octet>, schedule: seq<Step>, count: nat)
    requires Play(file, schedule).w.at == Reads
    ensures var left := Play(file, schedule).w.unread;
            CanStep(Play(file, schedule), Read(count))
            <==> if left == [] then count == 0 else 1 <= count <= 4096 && count <= |left|
    ensures Play(file, schedule + [ReadFails]).w.at == Failed
  {
    PlayNext(file, schedule, ReadFails);
  }

  /** An upper bound on the steps still to come. */
  function Measure(s: State): (m: nat)
    requires WriterOk(s.w)
  {
    WriterLeft(s.w) + ReaderLeft(s.r) + 6 * |s.toReader|
  }

  function WriterLeft(w: Writer): (m: nat)
    requires WriterOk(w)
  {
    20 * |ToSend(w)| + 4 * |w.unread| + (if w.armed then 1 else 0)
    + if w.at == Shifts then 13 else if w.at == Waits then 12 else if w.at in {Finished, Failed} then 0 else 11
  }

  function ReaderLeft(r: Reader): (m: nat)
  {
    if r.at == Stores then 4 else if r.at == Acks then 3 else if r.at == Prints then 1 else 0
  }

  /** Every step uses some of it up: no run goes on for ever. */
  lemma {:induction false} StepFalls(s: State, step: Step)
    requires WriterOk(s.w) && CanStep(s, step)
    ensures WriterOk(DoStep(s, step).w) && Measure(DoStep(s, step)) < Measure(s)
  {
    hide WriterLeft, ToSend, WriterOk, ShiftRight, Repeat, Fetched, Shifted, NextBit;
    WriterFalls(s.w, if step.Read? then step.count else 0);
    if step.ReaderWakes? {
      assert |s.toReader - step.handled| == |s.toReader| - |step.handled|;
    } else {
      assert |s.toReader + {CHLD}| <= |s.toReader| + 1;
      assert |s.toReader + {USR1}| <= |s.toReader| + 1;
      assert |s.toReader + {USR2}| <= |s.toReader| + 1;
    }
  }

  lemma {:induction false} WriterFalls(w: Writer, count: nat)
    requires WriterOk(w)
    ensures w.at == Reads && count <= |w.unread| && (count == 0 <==> w.unread == []) ==>
              WriterOk(Fetched(w, count)) &&
              WriterLeft(Fetched(w, count)) + (if count == 0 then 6 else 0) < WriterLeft(w)
    ensures w.at == Reads || w.at == Waits ==>
              WriterOk(w.(at := Failed)) && WriterLeft(w.(at := Failed)) + 6 < WriterLeft(w)
    ensures w.at == Sends ==>
              var sent := w.(at := Shifts, armed := true, sent := w.sent + 1);
              WriterOk(sent) && WriterLeft(sent) + 6 < WriterLeft(w)
    ensures w.at == Shifts ==> WriterOk(Shifted(w)) && WriterLeft(Shifted(w)) < WriterLeft(w)
    ensures w.at == Waits ==> WriterOk(NextBit(w)) && WriterLeft(NextBit(w)) < WriterLeft(w)
    ensures WriterOk(w.(armed := false)) && (w.armed ==> WriterLeft(w.(armed := false)) < WriterLeft(w))
  {
    hide Bits, ShiftRight, ToSend;
    StillToSend(w);
    if w.at == Reads && count <= |w.unread| && (count == 0 <==> w.unread == []) { FetchedToSend(w, count); }
    if w.at == Reads || w.at == Waits { GivesUp(w); }
    if w.at == Sends { SentToSend(w); }
    if w.at == Shifts { ShiftedToSend(w); }
    if w.at == Waits { NextBitToSend(w); }
  }

  lemma {:induction false} GivesUp(w: Writer)
    requires WriterOk(w)
    ensures WriterOk(w.(at := Failed)) && |ToSend(w.(at := Failed))| <= |ToSend(w)|
  {
    hide Bits;
  }

  lemma {:induction false} AllSent(s: State, file: seq<Octet>)
    requires Inv(s, file) && s.w.at == Finished
    ensures |Received(s.r)| == |Bits(file)|
  {
    assert Bits(file)[s.w.sent..] == [];
  }

  /** The link never jams: until both processes have returned, something other than the alarm or a
      read error can happen. */
  lemma {:induction false} NeverStuck(s: State, file: seq<Octet>) returns (step: Step)
    requires Inv(s, file) && !(s.w.at in {Finished, Failed} && s.r.at == Ended)
    ensures CanStep(s, step) && !step.AlarmFires? && !step.ReadFails?
  {
    hide Bits, ToSend;
    var block := Least(|s.w.unread|, SIZE_BUF);
    match s.r.at
    case Stores => step := Store;
    case Acks => step := Ack;
    case Prints => step := Print;
    case _ =>
      match s.w.at
      case Reads => step := Read(block);
      case Sends => step := Send;
      case Shifts => step := Shift;
      case Waits =>
        if USR1 in s.toWriter { step := WriterWakes({USR1}); } else { step := ReaderWakes(s.toReader); }
      case _ => step := ReaderWakes(s.toReader);
  }

  /** Neither the alarm nor a read error. */
  predicate Undisturbed(schedule: seq<Step>)
  {
    AlarmFires !in schedule && ReadFails !in schedule
  }

  lemma {:induction false} UndisturbedGoesOn(file: seq<Octet>, schedule: seq<Step>)
    requires Undisturbed(schedule)
    ensures ALRM !in Play(file, schedule).toWriter && Play(file, schedule).w.at != Failed
    decreases |schedule|
  {
    hide ShiftRight, Repeat;
    if schedule != [] {
      var front, step := schedule[..|schedule| - 1], schedule[|schedule| - 1];
      UndisturbedGoesOn(file, front);
      assert step in schedule && step != AlarmFires && step != ReadFails;
    }
  }

  /** An undisturbed run that cannot go on, except by being disturbed, has transmitted the whole file, and
      both processes have returned. */
  lemma {:induction false} UndisturbedRunDelivers(file: seq<Octet>, schedule: seq<Step>)
    requires Undisturbed(schedule)
    requires forall step | CanStep(Play(file, schedule), step) :: step.AlarmFires? || step.ReadFails?
    ensures var s := Play(file, schedule); s.r.out == file && s.w.at == Finished && s.r.at == Ended
  {
    hide Inv, CanStep, Play;
    PlayKeeps(file, schedule);
    var s := Play(file, schedule);
    UndisturbedGoesOn(file, schedule);
    EveryRunIsFaithful(file, schedule);
    if !(s.w.at == Finished && s.r.at == Ended) { var step := NeverStuck(s, file); }
  }
}
