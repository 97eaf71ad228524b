/**
 `ak_send` of `userspace/gnat-rts/gnat_user/aegir_gsocket.c`: one datagram, or a stream handed to
 the bridge in ring-slot sized chunks. The bridge is arbitrary: its answers are an argument, one
 round per turn of the loop, and a call that has used them up is still waiting.
 */
module SocketSend {
  import opened Bytes

  const MAX_PAYLOAD: nat := 996

  datatype Status = Done | Timeout | NotReady | BadArgs | OtherStatus

  /** One turn: what the poll says (whether it worked, and the sticky error), then what the send
      says. */
  datatype Round = Round(polled: bool, error: nat, status: Status)

  datatype Errno = ECONNREFUSED | EHOSTUNREACH | ETIMEDOUT | ECONNRESET | EIO | EWOULDBLOCK | EMSGSIZE | EINVAL

  datatype Answer = Sent(n: int) | Failed(errno: Errno) | Waiting

  /** `ak_sticky_errno` of a nonzero error word */
  function StickyErrno(error: nat): Errno
  {
    match error
    case 1 => ECONNREFUSED
    case 2 => EHOSTUNREACH
    case 4 => ECONNREFUSED
    case 5 => ETIMEDOUT
    case 6 => ECONNRESET
    case _ => EIO
  }

  predicate Dead(r: Round)
  {
    r.polled && r.error != 0
  }

  predicate Later(s: Status)
  {
    s == NotReady || s == Timeout
  }

  // ---------------------------------------------------------------------------
  // The reference: what a list of rounds decides
  // ---------------------------------------------------------------------------

  /** This round ends the call before all is sent. */
  predicate Stops(r: Round, nonblock: bool)
  {
    Dead(r) || (r.status != Done && (nonblock || !Later(r.status)))
  }

  function FirstStop(rounds: seq<Round>, nonblock: bool): (k: nat)
    ensures k <= |rounds|
    ensures forall i :: 0 <= i < k ==> !Stops(rounds[i], nonblock)
    ensures k < |rounds| ==> Stops(rounds[k], nonblock)
  {
    if rounds == [] || Stops(rounds[0], nonblock) then 0 else 1 + FirstStop(rounds[1..], nonblock)
  }

  /** How many rounds take their chunk. */
  function Taken(rounds: seq<Round>): nat
    decreases |rounds|
  {
    if rounds == [] then 0
    else Taken(rounds[..|rounds| - 1]) + (if rounds[|rounds| - 1].status == Done then 1 else 0)
  }

  /** How many chunks a stream of this length needs. */
  function ChunksOf(len: int): nat
  {
    if len <= 0 then 0 else (len + MAX_PAYLOAD - 1) / MAX_PAYLOAD
  }

  function ChunkEnd(len: int, k: nat): nat
  {
    if len <= 0 then 0 else if k * MAX_PAYLOAD < len then k * MAX_PAYLOAD else len
  }

  function Verdict(rounds: seq<Round>, len: int, nonblock: bool): Answer
  {
    var k := FirstStop(rounds, nonblock);
    var taken := Taken(rounds[..k]);
    if taken >= ChunksOf(len) then Sent(if len < 0 then 0 else len)
    else if k == |rounds| then Waiting
    else StopAnswer(rounds[k], taken)
  }

  function StopAnswer(r: Round, taken: nat): Answer
  {
    if Dead(r) then Failed(StickyErrno(r.error))
    else if Later(r.status) then (if taken > 0 then Sent(taken * MAX_PAYLOAD) else Failed(EWOULDBLOCK))
    else Failed(EIO)
  }

  /** The chunks that have gone out when a call ends. */
  function Delivered(rounds: seq<Round>, len: int, nonblock: bool): nat
  {
    var taken := Taken(rounds[..FirstStop(rounds, nonblock)]);
    if taken >= ChunksOf(len) then ChunksOf(len) else taken
  }

  lemma ChunkFacts(len: int, k: nat)
    requires k <= ChunksOf(len)
    ensures ChunkEnd(len, 0) == 0 && ChunkEnd(len, k) <= (if len < 0 then 0 else len)
    ensures ChunkEnd(len, k) < len <==> k < ChunksOf(len)
    ensures k < ChunksOf(len) ==>
      && ChunkEnd(len, k) == k * MAX_PAYLOAD
      && ChunkEnd(len, k + 1) == if len - k * MAX_PAYLOAD > MAX_PAYLOAD then (k + 1) * MAX_PAYLOAD else len
  {
  }

  lemma {:induction false} TakenMonotone(rounds: seq<Round>, i: nat, j: nat)
    requires i <= j <= |rounds|
    ensures Taken(rounds[..i]) <= Taken(rounds[..j])
    decreases j - i
  {
    if i < j {
      TakenMonotone(rounds, i, j - 1);
      assert rounds[..j][..j - 1] == rounds[..j - 1];
    }
  }

  lemma TakenNext(rounds: seq<Round>, i: nat)
    requires i < |rounds|
    ensures Taken(rounds[..i + 1]) == Taken(rounds[..i]) + if rounds[i].status == Done then 1 else 0
  {
    assert rounds[..i + 1][..i] == rounds[..i];
  }

  /** No stop before `i` and one at `i`: that is the first. */
  lemma StopAt(rounds: seq<Round>, nonblock: bool, i: nat)
    requires i <= |rounds| && forall j :: 0 <= j < i ==> !Stops(rounds[j], nonblock)
    ensures FirstStop(rounds, nonblock) >= i
    ensures i < |rounds| && Stops(rounds[i], nonblock) ==> FirstStop(rounds, nonblock) == i
  {
    hide FirstStop;
  }

  lemma EnoughTaken(rounds: seq<Round>, nonblock: bool, i: nat)
    requires i <= |rounds| && forall j :: 0 <= j < i ==> !Stops(rounds[j], nonblock)
    ensures Taken(rounds[..i]) <= Taken(rounds[..FirstStop(rounds, nonblock)])
  {
    StopAt(rounds, nonblock, i);
    TakenMonotone(rounds, i, FirstStop(rounds, nonblock));
  }

  // ---------------------------------------------------------------------------
  // The stream
  // ---------------------------------------------------------------------------

  /** The chunks handed over are a prefix of the buffer, cut into slots. */
  ghost predicate PrefixInSlots(buf: seq<byte>, len: int, handed: seq<seq<byte>>)
    requires len <= |buf|
  {
    && Flatten(handed) == buf[..ChunkEnd(len, |handed|)]
    && forall i :: 0 <= i < |handed| ==> 0 < |handed[i]| <= MAX_PAYLOAD
  }

  lemma NextSlot(buf: seq<byte>, len: int, handed: seq<seq<byte>>, chunk: nat)
    requires len <= |buf| && PrefixInSlots(buf, len, handed)
    requires |handed| < ChunksOf(len)
    requires var left := len - ChunkEnd(len, |handed|); chunk == if left > MAX_PAYLOAD then MAX_PAYLOAD else left
    ensures var sent := ChunkEnd(len, |handed|);
            && sent + chunk == ChunkEnd(len, |handed| + 1) <= |buf|
            && PrefixInSlots(buf, len, handed + [buf[sent..sent + chunk]])
  {
    ChunkFacts(len, |handed|);
    hide ChunkEnd, ChunksOf;
    var sent := ChunkEnd(len, |handed|);
    var more := handed + [buf[sent..sent + chunk]];
    FlattenSnoc(handed, buf[sent..sent + chunk]);
    assert buf[..sent] + buf[sent..sent + chunk] == buf[..sent + chunk];
  }

  /** The verdict once the rounds before `i` have all gone on without finishing. */
  lemma Stopped(rounds: seq<Round>, len: int, nonblock: bool, i: nat)
    requires i <= |rounds| && forall j :: 0 <= j < i ==> !Stops(rounds[j], nonblock)
    requires Taken(rounds[..i]) < ChunksOf(len) && (i < |rounds| ==> Stops(rounds[i], nonblock))
    ensures Delivered(rounds, len, nonblock) == Taken(rounds[..i])
    ensures Verdict(rounds, len, nonblock) == if i < |rounds| then StopAnswer(rounds[i], Taken(rounds[..i])) else Waiting
  {
    hide FirstStop, Taken, ChunksOf, StopAnswer;
    StopAt(rounds, nonblock, i);
  }

  lemma Finished(rounds: seq<Round>, len: int, nonblock: bool, i: nat)
    requires i <= |rounds| && forall j :: 0 <= j < i ==> !Stops(rounds[j], nonblock)
    requires Taken(rounds[..i]) == ChunksOf(len)
    ensures Delivered(rounds, len, nonblock) == ChunksOf(len)
    ensures Verdict(rounds, len, nonblock) == Sent(if len < 0 then 0 else len)
  {
    hide FirstStop, Taken, ChunksOf, StopAnswer;
    EnoughTaken(rounds, nonblock, i);
  }

  /** What goes out is a prefix of the buffer, cut into full slots except for the last chunk of
      the whole; a count that is returned is the length of that prefix, all of it for a blocking
      call, and the verdict is the one the rounds decide. */
  method SendStream(buf: seq<byte>, len: int, nonblock: bool, rounds: seq<Round>)
      returns (r: Answer, handed: seq<seq<byte>>)
    requires len <= |buf|
    ensures r == Verdict(rounds, len, nonblock)
    ensures |handed| == Delivered(rounds, len, nonblock)
    ensures PrefixInSlots(buf, len, handed)
    ensures r.Sent? ==> r.n == ChunkEnd(len, |handed|)
    ensures r.Sent? && !nonblock ==> r.n == if len < 0 then 0 else len
  {
    assert Taken(rounds[..0]) == 0;
    ChunkFacts(len, 0);
    hide FirstStop, Taken, ChunksOf, ChunkEnd, Flatten, Verdict, Delivered;
    handed := [];
    assert PrefixInSlots(buf, len, handed) by { EmptyPrefix(buf, len); }
    hide PrefixInSlots;
    var sent, i := 0, 0;
    while sent < len
      invariant 0 <= i <= |rounds|
      invariant forall j :: 0 <= j < i ==> !Stops(rounds[j], nonblock)
      invariant Taken(rounds[..i]) == |handed| <= ChunksOf(len)
      invariant sent == ChunkEnd(len, |handed|)
      invariant PrefixInSlots(buf, len, handed)
      decreases |rounds| - i
    {
      ChunkFacts(len, |handed|);
      if i == |rounds| {
        Stopped(rounds, len, nonblock, i);
        return Waiting, handed;
      }
      var chunk := len - sent;
      if chunk > MAX_PAYLOAD {
        chunk := MAX_PAYLOAD;
      }
      var round := rounds[i];
      if Stops(round, nonblock) {
        Stopped(rounds, len, nonblock, i);
      }
      TakenNext(rounds, i);
      if round.polled && round.error != 0 {
        return Failed(StickyErrno(round.error)), handed;
      }
      if round.status == Done {
        NextSlot(buf, len, handed, chunk);
        handed := handed + [buf[sent..sent + chunk]];
        sent := sent + chunk;
      } else if Later(round.status) {
        if nonblock {
          return if sent > 0 then Sent(sent) else Failed(EWOULDBLOCK), handed;
        }
      } else {
        return Failed(EIO), handed;
      }
      i := i + 1;
    }
    ChunkFacts(len, |handed|);
    Finished(rounds, len, nonblock, i);
    r := Sent(sent);
  }

  lemma EmptyPrefix(buf: seq<byte>, len: int)
    requires len <= |buf|
    ensures PrefixInSlots(buf, len, [])
  {
  }

  /** Why a stream call failed, for every run of the bridge: the rounds before the deciding one went
      on, the bytes were not all out, and the errno tells which sticky error the deciding poll
      brought, that a nonblocking call had to wait with nothing sent, or that the send broke. */
  lemma FailureTells(rounds: seq<Round>, len: int, nonblock: bool) returns (k: nat)
    ensures k <= |rounds|
    ensures forall i :: 0 <= i < k ==>
              (rounds[i].polled ==> rounds[i].error == 0) && rounds[i].status in (if nonblock then {Done} else {Done, NotReady, Timeout})
    ensures var v := Verdict(rounds, len, nonblock);
            var undecided := k < |rounds| && Taken(rounds[..k]) * 996 < len;
            && (v.Failed? ==> undecided)
            && (v.Waiting? <==> k == |rounds| && Taken(rounds[..k]) * 996 < len)
            && (undecided ==>
                  var sticky := if rounds[k].polled then rounds[k].error else 0;
                  && (v == Failed(ECONNREFUSED) <==> sticky in {1, 4})
                  && (v == Failed(EHOSTUNREACH) <==> sticky == 2)
                  && (v == Failed(ETIMEDOUT) <==> sticky == 5)
                  && (v == Failed(ECONNRESET) <==> sticky == 6)
                  && (v == Failed(EIO) <==> sticky !in {0, 1, 2, 4, 5, 6} || (sticky == 0 && rounds[k].status in {BadArgs, OtherStatus}))
                  && (v == Failed(EWOULDBLOCK) <==>
                        sticky == 0 && nonblock && rounds[k].status in {NotReady, Timeout} && Taken(rounds[..k]) == 0))
  {
    hide FirstStop, Taken;
    k := FirstStop(rounds, nonblock);
    if Taken(rounds[..k]) < ChunksOf(len) {
      ChunkFacts(len, Taken(rounds[..k]));
    } else {
      ChunkFacts(len, ChunksOf(len));
      MulLe(ChunksOf(len), Taken(rounds[..k]), MAX_PAYLOAD);
    }
  }

  /** Some bridge makes a stream of more than one slot fail after bytes have gone out. */
  lemma SomeBridgeLosesBytes(len: int, nonblock: bool)
    requires len > MAX_PAYLOAD
    ensures exists rounds :: Verdict(rounds, len, nonblock) == Failed(ECONNRESET) && Delivered(rounds, len, nonblock) == 1
  {
    var rounds := [Round(true, 0, Done), Round(true, 6, Done)];
    StopAt(rounds, nonblock, 1);
    TakenNext(rounds, 0);
    assert Verdict(rounds, len, nonblock) == Failed(ECONNRESET);
  }

  /** A failed call has sent nothing, whatever the bridge does, exactly when the length fits one
      slot. */
  lemma FailureSentNothingIff(len: int, nonblock: bool)
    ensures (forall rounds :: Verdict(rounds, len, nonblock).Failed? ==> Delivered(rounds, len, nonblock) == 0)
       <==> len <= 996
  {
    if len <= MAX_PAYLOAD {
      hide FirstStop, Taken;
      assert ChunksOf(len) <= 1;
    } else {
      SomeBridgeLosesBytes(len, nonblock);
    }
  }

  // ---------------------------------------------------------------------------
  // The datagram
  // ---------------------------------------------------------------------------

  /** What the bridge is given: a start and a size as an unsigned 64-bit word. A negative length is
      not refused; it becomes a size that no buffer has. */
  datatype Datagram = Datagram(payload: seq<byte>, size: nat)

  function DatagramOf(buf: seq<byte>, len: int): (d: Datagram)
    requires len <= |buf| && -0x8000_0000 <= len < 0x8000_0000
    ensures len >= 0 ==> d == Datagram(buf[..len], len)
    ensures len < 0 ==> d.size >= 0x1_0000_0000
  {
    Datagram(if len < 0 then [] else buf[..len], len % 0x1_0000_0000_0000_0000)
  }

  /** One datagram goes out, once, exactly when the length is reported: when it fits a slot and the
      first send that is not put off is accepted. */
  method SendDatagram(buf: seq<byte>, len: int, nonblock: bool, answers: seq<Status>)
      returns (r: Answer, handed: seq<Datagram>)
    requires len <= |buf| && -0x8000_0000 <= len < 0x8000_0000
    ensures r.Sent? ==> r.n == len && handed == [DatagramOf(buf, len)]
    ensures !r.Sent? ==> handed == []
    ensures r == Failed(EMSGSIZE) <==> len > MAX_PAYLOAD
    ensures len <= MAX_PAYLOAD ==>
      (r.Waiting? <==> answers == [] || (!nonblock && forall j :: 0 <= j < |answers| ==> Later(answers[j])))
    ensures r.Sent? <==>
      && len <= MAX_PAYLOAD
      && exists k :: 0 <= k < |answers| && answers[k] == Done && (forall j :: 0 <= j < k ==> !nonblock && Later(answers[j]))
    ensures r == Failed(EWOULDBLOCK) <==> len <= MAX_PAYLOAD && nonblock && answers != [] && Later(answers[0])
    ensures r == Failed(EINVAL) <==>
      && len <= MAX_PAYLOAD
      && exists k :: 0 <= k < |answers| && (forall j :: 0 <= j < k ==> !nonblock && Later(answers[j]))
                     && (answers[k] == BadArgs || (len == 0 && answers[k] == OtherStatus))
    ensures r == Failed(EIO) <==>
      && len <= MAX_PAYLOAD && len != 0
      && exists k :: 0 <= k < |answers| && answers[k] == OtherStatus && (forall j :: 0 <= j < k ==> !nonblock && Later(answers[j]))
  {
    handed := [];
    if len > MAX_PAYLOAD {
      return Failed(EMSGSIZE), handed;
    }
    var i := 0;
    while i < |answers|
      invariant 0 <= i <= |answers|
      invariant i > 0 ==> !nonblock
      invariant forall j :: 0 <= j < i ==> Later(answers[j])
    {
      if answers[i] == Done {
        return Sent(len), [DatagramOf(buf, len)];
      }
      if !Later(answers[i]) {
        return Failed(if len == 0 || answers[i] == BadArgs then EINVAL else EIO), handed;
      }
      if nonblock {
        return Failed(EWOULDBLOCK), handed;
      }
      i := i + 1;
    }
    r := Waiting;
  }
}
