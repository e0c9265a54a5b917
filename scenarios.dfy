/**
 * Whole runs of a freshly connected client, interleaving calls, the listener
 * and the waits the way the event loop may schedule them.
 */
module Scenarios {
  import opened Wrappers
  import opened Framing
  import opened Counters
  import opened Registry
  import opened Session

  /** The bytes the server sends back for correlation id `cid`. */
  function ReplyFrame(cid: nat, payload: seq<byte>): seq<byte>
    requires cid < CidLimit && |payload| + 2 < LengthLimit
  {
    RequestFrameLayout(cid, payload);
    Frame(CidMessage(cid, payload)).value
  }

  /** The listener reading b's reply and then a's while both calls wait. */
  method ListenBoth(client: Client, qa: Mailbox, qb: Mailbox, replyA: seq<byte>, replyB: seq<byte>)
    requires client.Valid() && client.messageDict == map[0 := qa, 1 := qb]
    requires client.stopped == None && qa.item == None && qb.item == None
    requires |replyA| + 2 < LengthLimit && |replyB| + 2 < LengthLimit
    modifies client`stopped, qa, qb
    ensures qa.item == Some(replyA) && qb.item == Some(replyB)
  {
    RequestFrameLayout(0, replyA);
    RequestFrameLayout(1, replyB);
    var inbound := Frame(CidMessage(1, replyB)).value + Frame(CidMessage(0, replyA)).value;
    ghost var before := client.Slots();
    OutOfOrderReplies(before, 0, 1, replyA, replyB);
    var stop := client.Listen(inbound);
    assert client.Slots() == before[0 := Some(replyA)][1 := Some(replyB)];
    assert client.Slots()[0] == qa.item && client.Slots()[1] == qb.item;
  }

  /** Two calls in flight; the second call's reply arrives first. Each caller
      still gets its own reply. */
  method OutOfOrder(serialize: Pdu -> seq<byte>, wellFormed: seq<byte> -> bool,
                    a: Command, b: Command, replyA: seq<byte>, replyB: seq<byte>)
    returns (ra: Outcome, rb: Outcome)
    requires |serialize(Pdu(Version(0, 1), 0, a))| + 2 < LengthLimit
    requires |serialize(Pdu(Version(0, 1), 1, b))| + 2 < LengthLimit
    requires |replyA| + 2 < LengthLimit && |replyB| + 2 < LengthLimit
    requires wellFormed(replyA) && wellFormed(replyB)
    ensures ra == Returned(Parsed(replyA)) && rb == Returned(Parsed(replyB))
  {
    var client := new Client();
    assert MakePdu(a).(transactionId := 0) == Pdu(Version(0, 1), 0, a);
    var sa := client.Send(MakePdu(a), serialize);
    assert sa.Success? && client.Slots() == map[0 := None];
    assert MakePdu(b).(transactionId := 1) == Pdu(Version(0, 1), 1, b);
    var sb := client.Send(MakePdu(b), serialize);
    assert sb.Success? && client.Slots() == map[0 := None, 1 := None];
    var pa, pb := sa.value, sb.value;
    assert client.messageDict == map[0 := pa.mailbox, 1 := pb.mailbox];
    ListenBoth(client, pa.mailbox, pb.mailbox, replyA, replyB);
    ra := client.Await(pa, wellFormed);
    rb := client.Await(pb, wellFormed);
  }

  /** The listener reading a reply for the unregistered cid 0, then the reply
      for the waiting cid 1, then reaching the end of the stream. */
  method ListenLate(client: Client, qb: Mailbox, late: seq<byte>, replyB: seq<byte>)
    returns (stop: Stop)
    requires client.Valid() && client.messageDict == map[1 := qb]
    requires client.stopped == None && qb.item == None
    requires |late| + 2 < LengthLimit && |replyB| + 2 < LengthLimit
    modifies client`stopped, qb
    ensures stop == ReadFailed && qb.item == Some(replyB)
  {
    assert client.Slots() == map[1 := None];
    DemuxDropsUnregistered(client.Slots(), 0, late, ReplyFrame(1, replyB));
    DemuxFillsWaiting(client.Slots(), 1, replyB, []);
    assert ReplyFrame(1, replyB) + [] == ReplyFrame(1, replyB);
    stop := client.Listen(ReplyFrame(0, late) + ReplyFrame(1, replyB));
    assert client.Slots()[1] == qb.item;
  }

  /** A call times out; its reply arrives afterwards, ahead of the reply to the
      next call. The late reply is dropped and the next call gets its own. */
  method LateReply(serialize: Pdu -> seq<byte>, wellFormed: seq<byte> -> bool,
                   a: Command, b: Command, late: seq<byte>, replyB: seq<byte>)
    returns (ra: Outcome, stop: Stop, rb: Outcome)
    requires |serialize(Pdu(Version(0, 1), 0, a))| + 2 < LengthLimit
    requires |serialize(Pdu(Version(0, 1), 1, b))| + 2 < LengthLimit
    requires |late| + 2 < LengthLimit && |replyB| + 2 < LengthLimit
    requires wellFormed(replyB)
    ensures ra == Returned(TransportError("timeout"))
    ensures stop == ReadFailed
    ensures rb == Returned(Parsed(replyB))
  {
    var client := new Client();
    assert MakePdu(a).(transactionId := 0) == Pdu(Version(0, 1), 0, a);
    var sa := client.Send(MakePdu(a), serialize);
    assert sa.Success?;
    ra := client.Await(sa.value, wellFormed);
    assert client.messageDict == map[] && client.stopped == None;
    assert MakePdu(b).(transactionId := 1) == Pdu(Version(0, 1), 1, b);
    var sb := client.Send(MakePdu(b), serialize);
    assert sb.Success?;
    var pb := sb.value;
    assert client.messageDict == map[1 := pb.mailbox];
    stop := ListenLate(client, pb.mailbox, late, replyB);
    rb := client.Await(pb, wellFormed);
  }

  /** Moving the next id of a run onto the list of ids already returned. */
  lemma IssuedNext(ids: seq<nat>, c: nat, m: nat, max: nat)
    requires c <= max && m > 0
    ensures ids + Issued(c, m, max) == (ids + [c]) + Issued(Advance(c, max), m - 1, max)
  {
    assert Issued(c, m, max) == [c] + Issued(Advance(c, max), m - 1, max);
  }

  /** `n` consecutive `_get_cid` calls return `Issued` from the counter's
      value, so `CidsExactlyOnce` applies to what the client hands out. */
  method ConsecutiveCids(client: Client, n: nat) returns (ids: seq<nat>)
    requires client.Valid()
    modifies client`cid
    ensures client.Valid()
    ensures ids == Issued(old(client.cid), n, MaxCid)
  {
    ghost var start := client.cid;
    ids := [];
    var i := 0;
    while i < n
      invariant 0 <= i <= n && client.Valid()
      invariant ids + Issued(client.cid, n - i, MaxCid) == Issued(start, n, MaxCid)
    {
      IssuedNext(ids, client.cid, n - i, MaxCid);
      var c := client.GetCid();
      ids := ids + [c];
      i := i + 1;
    }
    assert Issued(client.cid, 0, MaxCid) == [];
    assert ids + [] == ids;
  }

  /** `n` consecutive `_get_tid` calls return `Issued` from the counter's
      value, so `TidsExactlyOnce` applies to what the client hands out. */
  method ConsecutiveTids(client: Client, n: nat) returns (ids: seq<nat>)
    requires client.Valid()
    modifies client`tid
    ensures client.Valid()
    ensures ids == Issued(old(client.tid), n, MaxTid)
  {
    ghost var start := client.tid;
    ids := [];
    var i := 0;
    while i < n
      invariant 0 <= i <= n && client.Valid()
      invariant ids + Issued(client.tid, n - i, MaxTid) == Issued(start, n, MaxTid)
    {
      IssuedNext(ids, client.tid, n - i, MaxTid);
      var t := client.GetTid();
      ids := ids + [t];
      i := i + 1;
    }
    assert Issued(client.tid, 0, MaxTid) == [];
    assert ids + [] == ids;
  }

  /** The server answers one call twice before the caller has taken the first
      answer: the mailbox keeps the first, and QueueFull ends the listener.
      Nothing restarts it, so the next call times out although the server
      answers it. */
  method DuplicateReply(serialize: Pdu -> seq<byte>, wellFormed: seq<byte> -> bool,
                        a: Command, first: seq<byte>, second: seq<byte>,
                        b: Command, replyB: seq<byte>)
    returns (stop: Stop, ra: Outcome, rb: Outcome)
    requires |serialize(Pdu(Version(0, 1), 0, a))| + 2 < LengthLimit
    requires |serialize(Pdu(Version(0, 1), 1, b))| + 2 < LengthLimit
    requires |first| + 2 < LengthLimit && |second| + 2 < LengthLimit
    requires wellFormed(first)
    ensures stop == QueueFull(0)
    ensures ra == Returned(Parsed(first))
    ensures rb == Returned(TransportError("timeout"))
  {
    var client := new Client();
    var sa := client.Send(MakePdu(a), serialize);
    var pa := sa.value;
    assert client.Slots() == map[0 := None];
    DemuxFillsWaiting(client.Slots(), 0, first, ReplyFrame(0, second));
    DemuxStopsOnFull(client.Slots()[0 := Some(first)], 0, second, []);
    assert ReplyFrame(0, second) + [] == ReplyFrame(0, second);
    stop := client.Listen(ReplyFrame(0, first) + ReplyFrame(0, second));
    ra := client.Await(pa, wellFormed);
    rb := client.Request(b, serialize, Some(replyB), wellFormed);
  }

  /** One more call on `client` that the server answers in time, leaving the
      table and every waiting mailbox as they were. */
  method AnswerOne(client: Client, command: Command, serialize: Pdu -> seq<byte>,
                   answer: seq<byte>, wellFormed: seq<byte> -> bool)
    requires client.Valid() && client.stopped == None && client.cid !in client.messageDict
    requires forall t :: |serialize(Pdu(Version(0, 1), t, command))| + 2 < LengthLimit
    requires wellFormed(answer)
    modifies client, client.messageDict.Values
    ensures client.Valid() && client.stopped == None
    ensures client.cid == Advance(old(client.cid), MaxCid)
    ensures client.messageDict == old(client.messageDict)
    ensures forall m :: m in old(client.messageDict.Values) ==> m.item == old(m.item)
  {
    var r := client.Request(command, serialize, Some(answer), wellFormed);
    assert r == Returned(Parsed(answer));
    assert old(client.messageDict) - {old(client.cid)} == old(client.messageDict);
  }

  /** Correlation ids are reused without checking for a live entry. A first
      call gets no answer. Within its 60 seconds, 65535 further calls are
      each sent and answered, and the next call gets the first call's id; its
      mailbox replaces the first call's in the table. The first call's
      deadline passes before the newer call's, and its cleanup deletes the
      newer call's entry. The newer call's reply, arriving after that, is
      dropped, and the newer call's own cleanup raises KeyError. */
  method StaleCleanupAfterWrap(serialize: Pdu -> seq<byte>, wellFormed: seq<byte> -> bool,
                               command: Command, answer: seq<byte>, reply: seq<byte>)
    returns (older: Outcome, stop: Stop, newer: Outcome)
    requires forall t :: |serialize(Pdu(Version(0, 1), t, command))| + 2 < LengthLimit
    requires wellFormed(answer) && |reply| + 2 < LengthLimit
    ensures older == Returned(TransportError("timeout"))
    ensures stop == ReadFailed
    ensures newer == Raised(KeyError)
  {
    var client: Client := new Client();
    assert MakePdu(command).(transactionId := 0) == Pdu(Version(0, 1), 0, command);
    var s0 := client.Send(MakePdu(command), serialize);
    assert s0.Success?;
    var p0 := s0.value;
    var i := 1;
    while i <= MaxCid
      invariant 1 <= i <= MaxCid + 1
      invariant client.Valid() && client.cid == if i <= MaxCid then i else 0
      invariant client.messageDict == map[0 := p0.mailbox]
      invariant p0.cid == 0 && p0.mailbox.cid == 0 && p0.mailbox.item == None
      invariant client.stopped == None
      modifies client, p0.mailbox
    {
      AnswerOne(client, command, serialize, answer, wellFormed);
      i := i + 1;
    }
    assert client.cid == 0;
    ghost var t := client.tid;
    assert MakePdu(command).(transactionId := t) == Pdu(Version(0, 1), t, command);
    var s1 := client.Send(MakePdu(command), serialize);
    assert s1.Success?;
    var p1 := s1.value;
    assert client.messageDict == map[0 := p1.mailbox];
    older := client.Await(p0, wellFormed);
    assert client.messageDict == map[];
    assert client.Slots() == map[];
    DemuxDropsUnregistered(client.Slots(), 0, reply, []);
    assert ReplyFrame(0, reply) + [] == ReplyFrame(0, reply);
    stop := client.Listen(ReplyFrame(0, reply));
    newer := client.Await(p1, wellFormed);
  }
}
