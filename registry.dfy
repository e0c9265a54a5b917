/**
 * The value view of `message_dict` in pundun/client.py and of what the
 * listener does to it. A table maps each registered correlation id to the
 * content of its single-slot mailbox (`asyncio.Queue(maxsize = 1)`): None
 * while empty, Some(payload) once a reply sits in it.
 */
module Registry {
  import opened Wrappers
  import opened Framing

  type Slots = map<nat, Option<seq<byte>>>

  /** What the listener's body did with one frame. */
  datatype Delivery =
    | Delivered  // the payload went into the waiting mailbox
    | Dropped    // no entry for the id: the payload is discarded
    | Full       // `put_nowait` on a full mailbox raised QueueFull

  /** Why the listener loop ended: both `read_data` failing and QueueFull are
      re-raised by the loop's `except Exception` handler. */
  datatype Stop = ReadFailed | QueueFull(cid: nat)

  /** One pass of the listener's body over the frame body `ciddata`. */
  function Deliver(slots: Slots, ciddata: seq<byte>): (r: (Delivery, Slots))
    ensures r.1.Keys == slots.Keys
    ensures r.0 == Dropped <==> SplitCid(ciddata).0 !in slots
    ensures r.0 == Full <==> SplitCid(ciddata).0 in slots && slots[SplitCid(ciddata).0].Some?
    ensures r.0 == Delivered ==> r.1 == slots[SplitCid(ciddata).0 := Some(SplitCid(ciddata).1)]
    ensures r.0 != Delivered ==> r.1 == slots
    ensures forall k :: k in slots && k != SplitCid(ciddata).0 ==> r.1[k] == slots[k]
    ensures forall k :: k in slots && slots[k].Some? ==> r.1[k] == slots[k]
  {
    var (cid, payload) := SplitCid(ciddata);
    if cid !in slots then (Dropped, slots)
    else if slots[cid].Some? then (Full, slots)
    else (Delivered, slots[cid := Some(payload)])
  }

  /** The listener loop run over every byte the connection will still deliver:
      the final table and the reason the loop stopped. */
  function Demux(slots: Slots, inbound: seq<byte>): (r: (Slots, Stop))
    ensures r.0.Keys == slots.Keys
    decreases |inbound|
  {
    match Unframe(inbound)
    case Failure(_) => (slots, ReadFailed)
    case Success(Read(ciddata, rest)) =>
      var (d, next) := Deliver(slots, ciddata);
      if d == Full then (slots, QueueFull(SplitCid(ciddata).0))
      else Demux(next, rest)
  }

  /** A reply for an id with no entry (its call timed out, or never existed) is
      dropped: the table is as if the frame had not arrived and the listener
      carries on. */
  lemma DemuxDropsUnregistered(slots: Slots, cid: nat, payload: seq<byte>, rest: seq<byte>)
    requires cid < CidLimit && |payload| + 2 < LengthLimit && cid !in slots
    ensures Demux(slots, Frame(CidMessage(cid, payload)).value + rest) == Demux(slots, rest)
  {
    RequestFrameRoundTrip(cid, payload, rest);
  }

  /** A reply for an id whose mailbox is empty lands in that mailbox and nowhere else. */
  lemma DemuxFillsWaiting(slots: Slots, cid: nat, payload: seq<byte>, rest: seq<byte>)
    requires cid < CidLimit && |payload| + 2 < LengthLimit
    requires cid in slots && slots[cid] == None
    ensures Demux(slots, Frame(CidMessage(cid, payload)).value + rest)
         == Demux(slots[cid := Some(payload)], rest)
  {
    RequestFrameRoundTrip(cid, payload, rest);
  }

  /** A second reply for a mailbox that already holds one stops the listener
      with QueueFull and does not replace the stored payload. */
  lemma DemuxStopsOnFull(slots: Slots, cid: nat, payload: seq<byte>, rest: seq<byte>)
    requires cid < CidLimit && |payload| + 2 < LengthLimit
    requires cid in slots && slots[cid].Some?
    ensures Demux(slots, Frame(CidMessage(cid, payload)).value + rest) == (slots, QueueFull(cid))
  {
    RequestFrameRoundTrip(cid, payload, rest);
  }

  /** The listener never replaces a payload already in a mailbox. */
  lemma {:induction false} DemuxKeepsFull(slots: Slots, inbound: seq<byte>)
    ensures forall k :: k in slots && slots[k].Some? ==> Demux(slots, inbound).0[k] == slots[k]
    decreases |inbound|
  {
    match Unframe(inbound)
    case Failure(_) =>
    case Success(Read(ciddata, rest)) =>
      var (d, next) := Deliver(slots, ciddata);
      if d != Full {
        DemuxKeepsFull(next, rest);
      }
  }

  /** Replies may arrive in any order: with calls a and b waiting, b's reply
      arriving first still leaves each reply in its own caller's mailbox. */
  lemma OutOfOrderReplies(slots: Slots, a: nat, b: nat, replyA: seq<byte>, replyB: seq<byte>)
    requires a < CidLimit && b < CidLimit && a != b
    requires |replyA| + 2 < LengthLimit && |replyB| + 2 < LengthLimit
    requires a in slots && slots[a] == None && b in slots && slots[b] == None
    ensures var inbound := Frame(CidMessage(b, replyB)).value + Frame(CidMessage(a, replyA)).value;
      Demux(slots, inbound) == (slots[a := Some(replyA)][b := Some(replyB)], ReadFailed)
  {
    RequestFrameLayout(a, replyA);
    RequestFrameLayout(b, replyB);
    var frameA := Frame(CidMessage(a, replyA)).value;
    var frameB := Frame(CidMessage(b, replyB)).value;
    var afterB := slots[b := Some(replyB)];
    var afterBoth := afterB[a := Some(replyA)];
    calc {
      Demux(slots, frameB + frameA);
      { DemuxFillsWaiting(slots, b, replyB, frameA); }
      Demux(afterB, frameA);
      { DemuxFillsWaiting(afterB, a, replyA, []); assert frameA + [] == frameA; }
      Demux(afterBoth, []);
      { assert Unframe([]).Failure?; }
      (afterBoth, ReadFailed);
    }
    assert afterBoth == slots[a := Some(replyA)][b := Some(replyB)];
  }
}
