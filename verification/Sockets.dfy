/** `writen` and `readn`: whole messages over a byte stream whose reads and writes may be short. */
module Sockets {
  import opened Common

  /** One direction of a connection: the bytes written and not yet read. */
  class Stream {
    var inFlight: seq<Byte>

    constructor ()
      ensures inFlight == []
    {
      inFlight := [];
    }

    /** `write`: the kernel takes up to `willing` bytes and says how many. */
    method Write(data: seq<Byte>, willing: nat) returns (count: nat)
      modifies this
      ensures count == Least(willing, |data|) && inFlight == old(inFlight) + data[..count]
    {
      count := Least(willing, |data|);
      inFlight := inFlight + data[..count];
    }

    /** `read`: up to `willing` of the bytes there are; none at the end of the stream. */
    method Read(len: nat, willing: nat) returns (data: seq<Byte>)
      modifies this
      ensures |data| == Least(willing, Least(len, |old(inFlight)|)) && old(inFlight) == data + inFlight
    {
      var count := Least(willing, Least(len, |inFlight|));
      data, inFlight := inFlight[..count], inFlight[count..];
    }
  }

  /** How much the kernel is willing to move at each call; unlimited after the listed ones. */
  function Willing(counts: seq<nat>, k: nat, len: nat): (w: nat)
  {
    if k < |counts| then counts[k] else len
  }

  predicate Positive(counts: seq<nat>)
  {
    forall k | 0 <= k < |counts| :: counts[k] > 0
  }

  /** What the calls before the first one that moves nothing are willing to move, all together. */
  function BeforeZero(counts: seq<nat>): (sum: nat)
  {
    if counts == [] || counts[0] == 0 then 0 else counts[0] + BeforeZero(counts[1..])
  }

  /** How much of `len` gets moved: all of it, unless a call that moves nothing comes first. */
  function Given(counts: seq<nat>, len: nat): (m: nat)
    ensures m <= len
  {
    if 0 in counts then Least(len, BeforeZero(counts)) else len
  }

  function Total(counts: seq<nat>): (sum: nat)
  {
    if counts == [] then 0 else counts[0] + Total(counts[1..])
  }

  /** A call that moves nothing ends it, whatever would follow: only what was moved before counts. */
  lemma {:induction false} StopsAtZero(front: seq<nat>, more: seq<nat>, len: nat)
    requires Positive(front)
    ensures Given(front + [0] + more, len) == Least(len, Total(front))
  {
    var counts := front + [0] + more;
    assert counts[|front|] == 0;
    if front != [] {
      assert counts[1..] == front[1..] + [0] + more;
      StopsAtZero(front[1..], more, BeforeZero(counts[1..]) + Total(front));
    }
  }

  /** One call after another. */
  lemma {:induction false} GivenNext(counts: seq<nat>, k: nat, len: nat, w: nat)
    requires if k < |counts| then w == counts[k] else w >= len
    ensures var m := Least(w, len);
            Given(Rest(counts, k), len) == if m == 0 then 0 else m + Given(Rest(counts, k + 1), len - m)
  {
    if k < |counts| {
      var rest := counts[k..];
      assert rest == [counts[k]] + counts[k + 1..] && rest[1..] == counts[k + 1..];
    }
  }

  function Rest(counts: seq<nat>, k: nat): (r: seq<nat>)
  {
    if k <= |counts| then counts[k..] else []
  }

  /** `writen`: the bytes of the message that follow what was in the stream are those moved before
      a call moved nothing; it succeeds exactly if that is the whole message, and not an empty one. */
  method Writen(stream: Stream, data: array<Byte>, len0: nat, counts: seq<nat>) returns (ok: bool)
    requires len0 <= data.Length
    modifies stream
    ensures stream.inFlight == old(stream.inFlight) + data[..Given(counts, len0)]
    ensures ok <==> len0 > 0 && Given(counts, len0) == len0
    ensures len0 > 0 && Positive(counts) ==> ok
  {
    hide Given;
    var at: nat, len: nat, k: nat := 0, len0, 0;
    assert Rest(counts, 0) == counts;
    while true
      invariant at + len == len0 && (len == 0 ==> len0 == 0)
      invariant Given(counts, len0) == at + Given(Rest(counts, k), len)
      invariant stream.inFlight == old(stream.inFlight) + data[..at]
      decreases len
    {
      GivenNext(counts, k, len, Willing(counts, k, len));
      var numWritten := stream.Write(data[at..at + len], Willing(counts, k, len));
      if numWritten == 0 {
        if Positive(counts) { NeverZero(counts, len0); }
        return false;
      }
      assert data[..at] + data[at..at + len][..numWritten] == data[..at + numWritten];
      at, len, k := at + numWritten, len - numWritten, k + 1;
      if len == 0 {
        return true;
      }
    }
  }

  lemma NeverZero(counts: seq<nat>, len: nat)
    requires Positive(counts)
    ensures Given(counts, len) == len
  {
  }

  /** `readn`: likewise, with no more to move than the stream holds: the next bytes of the stream, in
      order, get to the start of `data`, and no other is taken or overwritten. */
  method Readn(stream: Stream, data: array<Byte>, len0: nat, counts: seq<nat>) returns (ok: bool)
    requires len0 <= data.Length
    modifies stream, data
    ensures var m := Given(counts, Least(len0, |old(stream.inFlight)|));
            old(stream.inFlight) == data[..m] + stream.inFlight && data[m..] == old(data[m..])
            && (ok <==> len0 > 0 && m == len0)
    ensures len0 > 0 && Positive(counts) && |old(stream.inFlight)| >= len0 ==> ok
  {
    hide Given;
    var at: nat, len: nat, k: nat := 0, len0, 0;
    assert Rest(counts, 0) == counts;
    while true
      invariant at + len == len0 && (len == 0 ==> len0 == 0)
      invariant Given(counts, Least(len0, |old(stream.inFlight)|))
                == at + Given(Rest(counts, k), Least(len, |stream.inFlight|))
      invariant old(stream.inFlight) == data[..at] + stream.inFlight
      invariant data[at..] == old(data[at..])
      decreases len
    {
      GivenNext(counts, k, Least(len, |stream.inFlight|), Willing(counts, k, len));
      var got := stream.Read(len, Willing(counts, k, len));
      if got == [] {
        if Positive(counts) { NeverZero(counts, Least(len0, |old(stream.inFlight)|)); }
        return false;
      }
      ghost var before := data[..at];
      Joined(before, got, stream.inFlight);
      Store(data, at, got);
      at, len, k := at + |got|, len - |got|, k + 1;
      if len == 0 {
        return true;
      }
    }
  }

  lemma Joined(a: seq<Byte>, b: seq<Byte>, c: seq<Byte>)
    ensures a + (b + c) == (a + b) + c
  {
  }

  method Store(data: array<Byte>, at: nat, got: seq<Byte>)
    requires at + |got| <= data.Length
    modifies data
    ensures data[..at + |got|] == old(data[..at]) + got && data[at + |got|..] == old(data[at + |got|..])
  {
    for j := 0 to |got|
      invariant forall i | 0 <= i < data.Length :: data[i] == if at <= i < at + j then got[i - at] else old(data[i])
    {
      data[at + j] := got[j];
    }
  }

  /** One message after another: what `writen` sent is what `readn` gets, however the stream breaks
      it up, and the message behind it is untouched. */
  method Exchange(message: array<Byte>, behind: array<Byte>, received: array<Byte>,
        wcounts: seq<nat>, rcounts: seq<nat>)
    returns (stream: Stream)
    requires 0 < message.Length == received.Length && behind.Length > 0 && received != message && received != behind
    requires Positive(wcounts) && Positive(rcounts)
    modifies received
    ensures received[..] == message[..] && stream.inFlight == behind[..]
  {
    stream := new Stream();
    var sent := Writen(stream, message, message.Length, wcounts);
    sent := Writen(stream, behind, behind.Length, wcounts);
    ghost var before := stream.inFlight;
    assert before == message[..] + behind[..] by {
      assert message[..message.Length] == message[..] && behind[..behind.Length] == behind[..];
    }
    var got := Readn(stream, received, received.Length, rcounts);
    assert received[..received.Length] == received[..];
    assert before[..message.Length] == message[..] && before[message.Length..] == behind[..];
    assert before[..message.Length] == received[..] && before[message.Length..] == stream.inFlight;
  }
}
