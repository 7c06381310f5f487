/** One writer and one reader moving a file through a single shared block: the two `do ... while`
    loops of the semaphore program, as steps that may interleave in any order. */
module Transfer {

  import opened Common

  const SIZE_BUF: nat := 4096

  /** Where the writer is: before `P (EMPTY)`, before `read`, before `V (FULL)`, before its loop
      test, out of the loop, or gone with an error.  `Absent` until a writer attaches. */
  datatype WriterAt = Absent | AwaitsEmpty | Fills | HandsOver | TestsSize | Finished | Failed

  /** The reader's counterpart; `Leaves` is out of the loop with the semaphores still there. */
  datatype ReaderAt = AwaitsFull | Prints | HandsBack | ChecksSize | Leaves | Ended | GaveUp

  datatype Link = Link(
    writer: WriterAt, reader: ReaderAt,
    empty: nat, full: nat, removed: bool,  // PERS::EMPTY, PERS::FULL, IPC_RMID done
    size: int, buf: seq<Byte>,             // currSizeData and buf
    unread: seq<Byte>, out: seq<Byte>,     // what the file still holds, what stdout received
    readFailed: bool, cutShort: bool)      // a `read` failed; it failed before the end of the file

  /** `InitPersSem` on freshly allocated, zeroed shared memory. */
  function Fresh(zeroed: seq<Byte>): (l: Link)
  {
    Link(Absent, AwaitsFull, 1, 0, false, 0, zeroed, [], [], false, false)
  }

  function Attach(l: Link, file: seq<Byte>): (t: Link)
  {
    l.(writer := AwaitsEmpty, unread := file)
  }

  datatype Action =
    | TakeEmpty | Fill(count: nat) | FillFails | GiveFull | TestSize | WriterTimesOut | WriterRefused
    | TakeFull | Print | GiveEmpty | CheckSize | Remove | ReaderTimesOut

  predicate ByWriter(a: Action)
  {
    a.TakeEmpty? || a.Fill? || a.FillFails? || a.GiveFull? || a.TestSize? || a.WriterTimesOut? || a.WriterRefused?
  }

  predicate Enabled(l: Link, a: Action)
  {
    match a
    case TakeEmpty => l.writer == AwaitsEmpty && !l.removed && l.empty > 0
    case Fill(count) =>
      l.writer == Fills && count <= SIZE_BUF && count <= |l.unread| && (count == 0 <==> l.unread == [])
    case FillFails => l.writer == Fills
    case GiveFull => l.writer == HandsOver && !l.removed
    case TestSize => l.writer == TestsSize
    case WriterTimesOut => l.writer == AwaitsEmpty && !l.removed && l.empty == 0
    case WriterRefused => (l.writer == AwaitsEmpty || l.writer == HandsOver) && l.removed
    case TakeFull => l.reader == AwaitsFull && l.full > 0
    case Print => l.reader == Prints && 0 <= l.size <= |l.buf|
    case GiveEmpty => l.reader == HandsBack
    case CheckSize => l.reader == ChecksSize
    case Remove => l.reader == Leaves
    case ReaderTimesOut => l.reader == AwaitsFull && l.full == 0
  }

  function Next(l: Link, a: Action): (t: Link)
    requires Enabled(l, a) && |l.buf| == SIZE_BUF
    ensures |t.buf| == SIZE_BUF
  {
    match a
    case TakeEmpty => l.(empty := l.empty - 1, writer := Fills)
    case Fill(count) =>
      l.(size := count, buf := l.unread[..count] + l.buf[count..], unread := l.unread[count..], writer := HandsOver)
    case FillFails => l.(size := -1, writer := Failed, readFailed := true, cutShort := l.unread != [])
    case GiveFull => l.(full := l.full + 1, writer := TestsSize)
    case TestSize => l.(writer := if l.size > 0 then AwaitsEmpty else Finished)
    case WriterTimesOut => l.(writer := Failed)
    case WriterRefused => l.(writer := Failed)
    case TakeFull => l.(full := l.full - 1, reader := Prints)
    case Print => l.(out := l.out + l.buf[..l.size], reader := HandsBack)
    case GiveEmpty => l.(empty := l.empty + 1, reader := ChecksSize)
    case CheckSize => l.(reader := if l.size > 0 then AwaitsFull else Leaves)
    case Remove => l.(removed := true, reader := Ended)
    case ReaderTimesOut => l.(reader := GaveUp)
  }

  // ------------------------------------------------------------------ what every step keeps

  predicate WriterHolds(l: Link) { l.writer == Fills || l.writer == HandsOver }

  predicate ReaderHolds(l: Link) { l.reader == Prints || l.reader == HandsBack }

  /** The block is filled and not yet printed. */
  predicate Loaded(l: Link) { l.full > 0 || l.writer == HandsOver || l.reader == Prints }

  function Pending(l: Link): (b: seq<Byte>)
    requires Loaded(l) ==> 0 <= l.size <= |l.buf|
  {
    if Loaded(l) then l.buf[..l.size] else []
  }

  /** The slot is one token: it is in EMPTY, in FULL, or with one of the processes. */
  predicate OneToken(l: Link)
  {
    var tokens := l.empty + l.full + (if WriterHolds(l) then 1 else 0) + (if ReaderHolds(l) then 1 else 0);
    tokens <= 1 && (l.writer != Failed ==> tokens == 1)
  }

  /** Some block has been filled already. */
  predicate Started(l: Link)
  {
    l.full > 0 || l.writer in {HandsOver, TestsSize, Finished} || l.reader !in {AwaitsFull, GaveUp}
  }

  predicate Sizes(l: Link)
  {
    && |l.buf| == SIZE_BUF && -1 <= l.size <= SIZE_BUF
    && (Loaded(l) ==> 0 <= l.size)
    && (l.size == -1 ==> l.readFailed)
    && (l.readFailed ==> l.writer == Failed && l.size == -1)
    && (l.cutShort <==> l.readFailed && l.unread != [])
    && (Started(l) && l.size == 0 ==> l.unread == [])
    && (Started(l) && (l.writer == AwaitsEmpty || l.writer == Fills) ==> l.size > 0)
    && (Started(l) && l.writer == TestsSize ==> 0 <= l.size)
    && (l.writer == Finished ==> l.size == 0)
    && (l.reader in {Leaves, Ended} ==> l.size <= 0)
    && (l.removed <==> l.reader == Ended)
    && (l.size == 0 && l.reader == AwaitsFull && l.writer in {HandsOver, TestsSize, Finished} ==> Loaded(l))
  }

  /** Every state of a link on which `file` is being sent. */
  predicate Inv(l: Link, file: seq<Byte>)
  {
    && OneToken(l) && Sizes(l)
    && (l.writer == Absent ==>
          l.empty == 1 && l.size == 0 && !l.readFailed && l.out == [] && l.reader in {AwaitsFull, GaveUp})
    && (l.writer != Absent ==> file == l.out + Pending(l) + l.unread)
  }

  lemma {:induction false} AttachKeeps(l: Link, file: seq<Byte>)
    requires Inv(l, []) && l.writer == Absent
    ensures Inv(Attach(l, file), file)
  {
  }

  lemma {:induction false} TokenKept(l: Link, a: Action)
    requires OneToken(l) && Enabled(l, a) && |l.buf| == SIZE_BUF
    ensures OneToken(Next(l, a))
  {
  }

  lemma {:induction false} SizesKept(l: Link, a: Action)
    requires OneToken(l) && Sizes(l) && Enabled(l, a)
    ensures Sizes(Next(l, a))
  {
  }

  /** Nothing gets lost between the file and stdout. */
  lemma {:induction false} BytesKept(l: Link, a: Action)
    requires OneToken(l) && Sizes(l) && Enabled(l, a) && Sizes(Next(l, a))
    ensures Next(l, a).out + Pending(Next(l, a)) + Next(l, a).unread == l.out + Pending(l) + l.unread
  {
    hide Sizes;
    SizesSay(l);
    SizesSay(Next(l, a));
    if a.Fill? {
      var block, rest := l.unread[..a.count], l.unread[a.count..];
      assert Next(l, a).buf[..a.count] == block && l.unread == block + rest;
    } else if a.Print? {
      assert l.out + l.buf[..l.size] + [] == l.out + l.buf[..l.size];
    }
  }

  lemma {:induction false} SizesSay(l: Link)
    requires Sizes(l)
    ensures |l.buf| == SIZE_BUF && (Loaded(l) ==> 0 <= l.size <= |l.buf|) && (Loaded(l) && l.removed ==> l.size == 0)
  {
  }

  lemma {:induction false} StepKeeps(l: Link, a: Action, file: seq<Byte>)
    requires Inv(l, file) && Enabled(l, a)
    ensures Inv(Next(l, a), file) && (l.writer != Absent ==> Next(l, a).writer != Absent)
  {
    hide Sizes, Pending;
    SizesSay(l);
    TokenKept(l, a);
    SizesKept(l, a);
    BytesKept(l, a);
  }

  // ------------------------------------------------------------------ runs

  /** The state after a schedule of steps; a step that is not enabled does not happen. */
  function Play(l: Link, schedule: seq<Action>): (t: Link)
    requires |l.buf| == SIZE_BUF
    ensures |t.buf| == SIZE_BUF
    decreases |schedule|
  {
    if schedule == [] then l
    else
      var before := Play(l, schedule[..|schedule| - 1]);
      var a := schedule[|schedule| - 1];
      if Enabled(before, a) then Next(before, a) else before
  }

  lemma {:induction false} PlayKeeps(l: Link, schedule: seq<Action>, file: seq<Byte>)
    requires Inv(l, file)
    ensures Inv(Play(l, schedule), file) && (l.writer != Absent ==> Play(l, schedule).writer != Absent)
    decreases |schedule|
  {
    hide Inv, Enabled, Next;
    BlockIsThere(l, file);
    if schedule != [] {
      var before, a := Play(l, schedule[..|schedule| - 1]), schedule[|schedule| - 1];
      PlayKeeps(l, schedule[..|schedule| - 1], file);
      if Enabled(before, a) { StepKeeps(before, a, file); }
    }
  }

  lemma BlockIsThere(l: Link, file: seq<Byte>)
    requires Inv(l, file)
    ensures |l.buf| == SIZE_BUF
  {
  }

  /** Stdout is a prefix of the file; the two sides never touch the block at the same time; a
      reader out of its loop has printed all that was read, and that is the whole file if and only if
      no `read` failed before the end of it. */
  predicate Safe(l: Link, file: seq<Byte>)
  {
    && l.out <= file
    && !(WriterHolds(l) && ReaderHolds(l))
    && (l.reader in {Leaves, Ended} ==>
          l.out + l.unread == file && (l.out == file <==> !l.cutShort))
    && (l.writer == Finished && l.reader in {HandsBack, ChecksSize, Leaves, Ended} ==> l.out == file)
  }

  lemma {:induction false} InvIsSafe(l: Link, file: seq<Byte>)
    requires Inv(l, file) && l.writer != Absent
    ensures Safe(l, file)
  {
  }

  /** One pair, every interleaving of its steps, with any block sizes, timeouts and read errors. */
  lemma {:induction false} TransferIsSafe(zeroed: seq<Byte>, file: seq<Byte>, schedule: seq<Action>)
    requires |zeroed| == SIZE_BUF
    ensures Safe(Play(Attach(Fresh(zeroed), file), schedule), file)
  {
    hide Play, Safe;
    var start := Attach(Fresh(zeroed), file);
    AttachKeeps(Fresh(zeroed), file);
    PlayKeeps(start, schedule, file);
    InvIsSafe(Play(start, schedule), file);
  }

  lemma {:induction false} PlayNext(start: Link, run: seq<Action>, a: Action)
    requires |start.buf| == SIZE_BUF
    ensures var l := Play(start, run); Play(start, run + [a]) == if Enabled(l, a) then Next(l, a) else l
  {
    hide Enabled, Next;
    assert (run + [a])[..|run|] == run;
  }

  /** The ways out: a reader before an empty FULL, and a writer before an empty EMPTY whose semaphores
      are still there, can time out, and a writer at `read` can fail; a `P` that can go on does not
      time out. */
  lemma {:induction false} Leaving(start: Link, run: seq<Action>)
    requires |start.buf| == SIZE_BUF
    ensures var l := Play(start, run);
            l.reader == AwaitsFull ==>
              Play(start, run + [ReaderTimesOut]).reader == if l.full == 0 then GaveUp else AwaitsFull
    ensures var l := Play(start, run);
            l.writer == AwaitsEmpty && !l.removed ==>
              Play(start, run + [WriterTimesOut]).writer == if l.empty == 0 then Failed else AwaitsEmpty
    ensures Play(start, run).writer == Fills ==> Play(start, run + [FillFails]).writer == Failed
  {
    hide Play;
    PlayNext(start, run, ReaderTimesOut);
    PlayNext(start, run, WriterTimesOut);
    PlayNext(start, run, FillFails);
  }

  /** At `read` the writer gets 1 to 4096 of the bytes there are, and 0 exactly at the end of the file. */
  lemma BlockSizes(l: Link, count: nat)
    ensures Enabled(l, Fill(count))
            <==> l.writer == Fills && if l.unread == [] then count == 0 else 1 <= count <= 4096 && count <= |l.unread|
  {
  }

  lemma {:induction false} Extend(start: Link, run: seq<Action>, l: Link, a: Action)
    returns (longer: seq<Action>, t: Link)
    requires |start.buf| == SIZE_BUF && Play(start, run) == l && Enabled(l, a)
    ensures longer == run + [a] && t == Next(l, a) == Play(start, longer)
  {
    longer, t := run + [a], Next(l, a);
    assert longer[..|longer| - 1] == run;
  }

  /** A failing `read` breaks the law: its -1 lands in the shared size after the reader has
      handed the slot back, the reader takes it for the end of the file and leaves normally. */
  lemma {:induction false} FailedReadTruncates(zeroed: seq<Byte>) returns (run: seq<Action>)
    requires |zeroed| == SIZE_BUF
    ensures var l := Play(Attach(Fresh(zeroed), "ab"), run); l.reader == Ended && l.out == "a"
  {
    hide Play;
    var start := Attach(Fresh(zeroed), "ab");
    var l := start;
    PlayNothing(start);
    run, l := Extend(start, [], l, TakeEmpty);
    run, l := Extend(start, run, l, Fill(1));
    assert l.buf[..1] == "a";
    run, l := Extend(start, run, l, GiveFull);
    run, l := Extend(start, run, l, TestSize);
    run, l := Extend(start, run, l, TakeFull);
    run, l := Extend(start, run, l, Print);
    run, l := Extend(start, run, l, GiveEmpty);
    run, l := Extend(start, run, l, TakeEmpty);
    run, l := Extend(start, run, l, FillFails);
    run, l := Extend(start, run, l, CheckSize);
    run, l := Extend(start, run, l, Remove);
  }

  lemma PlayNothing(l: Link)
    requires |l.buf| == SIZE_BUF
    ensures Play(l, []) == l
  {
  }

  /** An upper bound on the steps still to come. */
  function Measure(l: Link): (m: nat)
  {
    16 * |l.unread| + 6 * l.full
    + (match l.writer
       case AwaitsEmpty => 11
       case Fills => 10
       case HandsOver => if l.size > 0 then 20 else 9
       case TestsSize => if l.size > 0 then 12 else 1
       case _ => 0)
    + (match l.reader
       case Prints => 5
       case HandsBack => 4
       case ChecksSize => 3
       case AwaitsFull => 2
       case Leaves => 1
       case _ => 0)
  }

  /** Every step, of whatever kind, uses some of it up: no run goes on for ever. */
  lemma {:induction false} StepFalls(l: Link, a: Action)
    requires Enabled(l, a) && |l.buf| == SIZE_BUF
    ensures Measure(Next(l, a)) < Measure(l)
  {
    if a.Fill? { assert |Next(l, a).unread| == |l.unread| - a.count; }
  }

  /** No lost wake-up: with neither side gone, some step other than a timeout or a failing read is
      enabled until both have left their loops and the semaphores are removed. */
  lemma {:induction false} NeverStuck(l: Link, file: seq<Byte>) returns (a: Action)
    requires Inv(l, file) && l.writer !in {Absent, Failed} && l.reader != GaveUp
    requires !(l.writer == Finished && l.reader == Ended)
    ensures Enabled(l, a) && !a.WriterTimesOut? && !a.ReaderTimesOut? && !a.FillFails?
  {
    a := match l.writer
      case Fills => Fill(Least(|l.unread|, SIZE_BUF))
      case HandsOver => if l.removed then WriterRefused else GiveFull
      case TestsSize => TestSize
      case _ =>
        if l.writer == AwaitsEmpty && l.removed then WriterRefused
        else if l.writer == AwaitsEmpty && l.empty > 0 then TakeEmpty
        else match l.reader
          case AwaitsFull => TakeFull
          case Prints => Print
          case HandsBack => GiveEmpty
          case ChecksSize => CheckSize
          case _ => Remove;
  }
}
