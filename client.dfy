/**
 * The `Client` object of pundun/client.py with its asyncio scheduling taken
 * out: the id counters, the bytes handed to the connection's writer, the
 * `message_dict` correlation table with its single-slot mailboxes, the
 * listener loop, and `_write_pdu`, through which every public operation
 * sends exactly one PDU.
 */
module Session {
  import opened Wrappers
  import opened Framing
  import opened Counters
  import opened Registry

  /** A sub-message built by a helper outside this model (`utils.make_fields`,
      `make_table_options`, `make_posting_filter`, `make_update_operation_list`,
      `make_index_config_list`, or a server-issued iterator), carried as its bytes. */
  type Opaque = seq<byte>

  /** The request a public operation puts into its PDU, one variant per operation. */
  datatype Command =
    | CreateTable(tableName: string, keys: seq<string>, tableOptions: seq<Opaque>)
    | DeleteTable(tableName: string)
    | OpenTable(tableName: string)
    | CloseTable(tableName: string)
    | TableInfo(tableName: string, attributes: seq<string>)
    | Write(tableName: string, key: seq<Opaque>, columns: seq<Opaque>)
    | Delete(tableName: string, key: seq<Opaque>)
    | Update(tableName: string, key: seq<Opaque>, updateOperation: seq<Opaque>)
    | ReadKey(tableName: string, key: seq<Opaque>)
    | IndexRead(tableName: string, columnName: string, term: string, filter: Opaque)
    | ReadRange(tableName: string, startKey: seq<Opaque>, endKey: seq<Opaque>, limit: int)
    | ReadRangeN(tableName: string, startKey: seq<Opaque>, n: int)
    | First(tableName: string)
    | Last(tableName: string)
    | Seek(tableName: string, key: seq<Opaque>)
    | Next(it: Opaque)
    | Prev(it: Opaque)
    | AddIndex(tableName: string, config: seq<Opaque>)
    | RemoveIndex(tableName: string, columnNames: seq<string>)
    | ListTables

  datatype Version = Version(major: nat, minor: nat)

  /** The outbound `ApolloPdu`: protocol version, transaction id and request. */
  datatype Pdu = Pdu(version: Version, transactionId: nat, command: Command)

  /** `_make_pdu` followed by filling in the request: version 0.1, the
      transaction id still at its default until `_write_pdu` sets it. */
  function MakePdu(command: Command): (r: Pdu)
    ensures r.version == Version(0, 1) && r.command == command
    ensures forall t :: r.(transactionId := t) == Pdu(Version(0, 1), t, command)
  {
    Pdu(Version(0, 1), 0, command)
  }

  /** What a call raises instead of returning: `ParseFromString` failing,
      `del message_dict[cid]` finding no entry, or `write_data` failing to
      frame the message. */
  datatype Raise = DecodeError | KeyError | FrameError(error: Error)

  /** The `rpdu` `_write_pdu` returns: the reply bytes it parsed, or a PDU whose
      only content is `error.transport`. */
  datatype Rpdu = Parsed(rdata: seq<byte>) | TransportError(reason: string)

  /** How a `_write_pdu` call ends: it returns an rpdu or raises. */
  datatype Outcome = Returned(rpdu: Rpdu) | Raised(error: Raise)

  /** `asyncio.Queue(maxsize = 1)`. The ghost `cid` records the id the mailbox
      was registered under; the program never reads it. */
  class Mailbox {
    ghost const cid: nat
    var item: Option<seq<byte>>

    constructor (ghost cid: nat)
      ensures this.cid == cid && item == None
    {
      this.cid := cid;
      item := None;
    }

    /** `put_nowait`: false stands for the QueueFull it raises on a full queue. */
    method PutNowait(x: seq<byte>) returns (ok: bool)
      modifies this
      ensures ok <==> old(item) == None
      ensures item == if ok then Some(x) else old(item)
    {
      ok := item == None;
      if ok {
        item := Some(x);
      }
    }

    /** The waiter's `get` once the wait is over: the item, if one arrived in
        time, leaves the queue. */
    method Take() returns (x: Option<seq<byte>>)
      modifies this
      ensures x == old(item) && item == None
    {
      x := item;
      item := None;
    }
  }

  /** A `_write_pdu` call suspended at its wait: its correlation id and the
      queue it is waiting on. */
  datatype Pending = Pending(cid: nat, mailbox: Mailbox)

  class Client {
    var tid: nat
    var cid: nat
    /** Everything handed to the connection's writer, in order. */
    var outbound: seq<byte>
    var messageDict: map<nat, Mailbox>
    /** Why the listener task ended, or None while it runs. `__init__` starts
        it once and nothing restarts it. */
    var stopped: Option<Stop>

    /** Counters in range; every entry is a 16-bit id holding the mailbox that
        was registered under that id (so no mailbox sits under two ids). */
    ghost predicate Valid()
      reads this
    {
      && tid <= MaxTid
      && cid <= MaxCid
      && forall k :: k in messageDict ==> k <= MaxCid && messageDict[k].cid == k
    }

    /** The value view of the table: each id's mailbox content. */
    ghost function Slots(): Slots
      reads this`messageDict, messageDict.Values
    {
      map k | k in messageDict :: messageDict[k].item
    }

    /** `__init__` after connecting and authenticating: both counters at 0,
        no call in flight, the listener started. */
    constructor ()
      ensures Valid()
      ensures tid == 0 && cid == 0 && outbound == [] && messageDict == map[]
      ensures stopped == None
    {
      tid, cid := 0, 0;
      outbound := [];
      messageDict := map[];
      stopped := None;
    }

    /** `_get_tid`: the current transaction id; the counter moves on, 4294967295 wrapping to 0. */
    method GetTid() returns (t: nat)
      requires Valid()
      modifies this`tid
      ensures Valid()
      ensures t == old(tid) && tid == Advance(old(tid), MaxTid)
    {
      t := tid;
      if tid == MaxTid {
        tid := 0;
      } else {
        tid := tid + 1;
      }
    }

    /** `_get_cid`: the current correlation id; the counter moves on, 65535 wrapping to 0. */
    method GetCid() returns (c: nat)
      requires Valid()
      modifies this`cid
      ensures Valid()
      ensures c == old(cid) && cid == Advance(old(cid), MaxCid)
    {
      c := cid;
      if cid == MaxCid {
        cid := 0;
      } else {
        cid := cid + 1;
      }
    }

    /** `write_data`: false stands for the OverflowError raised before anything is written. */
    method WriteData(msg: seq<byte>) returns (ok: bool)
      modifies this`outbound
      ensures ok <==> |msg| < LengthLimit
      ensures outbound == old(outbound) + (if ok then Frame(msg).value else [])
    {
      var frame := Frame(msg);
      ok := frame.Success?;
      if ok {
        outbound := outbound + frame.value;
      }
    }

    /** One pass of the running listener's loop body over a frame body just
        read. QueueFull ends the listener. */
    method Dispatch(ciddata: seq<byte>) returns (d: Delivery)
      requires Valid() && stopped == None
      modifies this`stopped, messageDict.Values
      ensures Valid() && messageDict == old(messageDict)
      ensures (d, Slots()) == Deliver(old(Slots()), ciddata)
      ensures stopped == if d == Full then Some(QueueFull(SplitCid(ciddata).0)) else None
    {
      var (c, payload) := SplitCid(ciddata);
      if c in messageDict {
        var ok := messageDict[c].PutNowait(payload);
        d := if ok then Delivered else Full;
        if !ok {
          stopped := Some(QueueFull(c));
        }
      } else {
        d := Dropped;
      }
      assert Slots() == Deliver(old(Slots()), ciddata).1;
    }

    /** `_listener`: read frames off `inbound`, every byte the connection will
        still deliver, and deliver each to its mailbox until a read fails or a
        mailbox is already full. Either exception ends the listener for good. */
    method Listen(inbound: seq<byte>) returns (stop: Stop)
      requires Valid() && stopped == None
      modifies this`stopped, messageDict.Values
      ensures Valid() && messageDict == old(messageDict)
      ensures (Slots(), stop) == Demux(old(Slots()), inbound)
      ensures stopped == Some(stop)
    {
      var rest := inbound;
      while true
        invariant Valid() && messageDict == old(messageDict) && stopped == None
        invariant Demux(Slots(), rest) == Demux(old(Slots()), inbound)
        decreases |rest|
      {
        match Unframe(rest)
        case Failure(_) =>
          stopped := Some(ReadFailed);
          return ReadFailed;
        case Success(Read(ciddata, next)) =>
          var d := Dispatch(ciddata);
          if d == Full {
            return QueueFull(SplitCid(ciddata).0);
          }
          rest := next;
      }
    }

    /** `_write_pdu` up to its wait: take a tid and stamp it into the PDU,
        serialise, take a cid, write the frame, register a fresh mailbox under
        the cid. An oversized frame raises from `write_data` after both ids
        are spent and before anything is registered. */
    method Send(pdu: Pdu, serialize: Pdu -> seq<byte>) returns (r: Result<Pending, Raise>)
      requires Valid()
      modifies this`tid, this`cid, this`outbound, this`messageDict
      ensures Valid()
      ensures tid == Advance(old(tid), MaxTid) && cid == Advance(old(cid), MaxCid)
      ensures var data := serialize(pdu.(transactionId := old(tid)));
        if |data| + 2 < LengthLimit then
          && r.Success?
          && r.value.cid == old(cid) && r.value.mailbox.cid == old(cid)
          && fresh(r.value.mailbox) && r.value.mailbox.item == None
          && outbound == old(outbound) + Frame(CidMessage(old(cid), data)).value
          && messageDict == old(messageDict)[old(cid) := r.value.mailbox]
          && Slots() == old(Slots())[old(cid) := None]
        else
          && r == Failure(FrameError(OverflowError))
          && outbound == old(outbound)
          && messageDict == old(messageDict)
    {
      var t := GetTid();
      var data := serialize(pdu.(transactionId := t));
      var c := GetCid();
      var ok := WriteData(CidMessage(c, data));
      if !ok {
        return Failure(FrameError(OverflowError));
      }
      var q := new Mailbox(c);
      messageDict := messageDict[c := q];
      r := Success(Pending(c, q));
    }

    /** `_write_pdu` from its wait on: take the reply if one arrived in time,
        otherwise time out with `error.transport = 'timeout'`; parse; delete
        the table entry for the cid. A parse failure raises before the delete,
        leaving the entry in place; a delete that finds no entry raises KeyError. */
    method Await(p: Pending, wellFormed: seq<byte> -> bool) returns (r: Outcome)
      requires Valid() && p.mailbox.cid == p.cid
      modifies this`messageDict, p.mailbox
      ensures Valid()
      ensures p.mailbox.item == None
      ensures r == match old(p.mailbox.item)
        case Some(rdata) =>
          if !wellFormed(rdata) then Raised(DecodeError)
          else if p.cid in old(messageDict) then Returned(Parsed(rdata))
          else Raised(KeyError)
        case None =>
          if p.cid in old(messageDict) then Returned(TransportError("timeout"))
          else Raised(KeyError)
      ensures messageDict == if r == Raised(DecodeError) then old(messageDict)
                             else old(messageDict) - {p.cid}
      ensures r != Raised(DecodeError) ==> Slots() == old(Slots()) - {p.cid}
    {
      var reply := p.mailbox.Take();
      var rpdu: Rpdu;
      match reply {
        case Some(rdata) =>
          if !wellFormed(rdata) {
            return Raised(DecodeError);
          }
          rpdu := Parsed(rdata);
        case None =>
          rpdu := TransportError("timeout");
      }
      if p.cid !in messageDict {
        return Raised(KeyError);
      }
      messageDict := messageDict - {p.cid};
      r := Returned(rpdu);
    }

    /** The listener's one pass for the reply to a call just sent, if it
        runs and the server answered: the reply lands in the call's mailbox. */
    method Arrive(p: Pending, reply: Option<seq<byte>>)
      requires Valid() && p.cid in messageDict && messageDict[p.cid] == p.mailbox
      requires p.mailbox.item == None
      modifies this`stopped, messageDict.Values
      ensures Valid() && messageDict == old(messageDict) && stopped == old(stopped)
      ensures p.mailbox.item == if old(stopped) == None then reply else None
      ensures Slots() == old(Slots())[p.cid := p.mailbox.item]
      ensures forall m :: m in old(messageDict.Values) && m != p.mailbox ==> m.item == old(m.item)
    {
      if reply.Some? && stopped == None {
        SplitCidMessage(p.cid, reply.value);
        var d := Dispatch(CidMessage(p.cid, reply.value));
        forall m | m in old(messageDict.Values) && m != p.mailbox
          ensures m.item == old(m.item)
        {
          var k :| k in messageDict && messageDict[k] == m;
          assert Slots()[k] == m.item;
        }
      }
    }

    /** `_write_pdu` after `Send` when nothing else runs before its wait: the
        listener's pass for the reply, if any, then the wait and the cleanup. */
    method Complete(p: Pending, reply: Option<seq<byte>>, wellFormed: seq<byte> -> bool)
      returns (r: Outcome)
      requires Valid() && p.cid in messageDict && messageDict[p.cid] == p.mailbox
      requires p.mailbox.cid == p.cid && p.mailbox.item == None
      modifies this`stopped, this`messageDict, messageDict.Values
      ensures Valid() && stopped == old(stopped)
      ensures r == match (if old(stopped) == None then reply else None)
        case None => Returned(TransportError("timeout"))
        case Some(rdata) => if wellFormed(rdata) then Returned(Parsed(rdata)) else Raised(DecodeError)
      ensures messageDict == if r == Raised(DecodeError) then old(messageDict)
                             else old(messageDict) - {p.cid}
      ensures r != Raised(DecodeError) ==> Slots() == old(Slots()) - {p.cid}
      ensures r == Raised(DecodeError) ==> Slots() == old(Slots())
      ensures forall m :: m in old(messageDict.Values) && m != p.mailbox ==> m.item == old(m.item)
    {
      Arrive(p, reply);
      r := Await(p, wellFormed);
    }

    /** `_write_pdu` as one call with no other call and no other listener
        pass between its send and its wait: `reply` is the payload the server
        sends for this call before the 60-second deadline, or None when the
        deadline passes first. A listener that has already stopped delivers
        nothing, so the call times out. Interleaved calls are `Send` and
        `Await` run by the caller; after the cid wraps they can raise KeyError. */
    method WritePdu(pdu: Pdu, serialize: Pdu -> seq<byte>, reply: Option<seq<byte>>,
                    wellFormed: seq<byte> -> bool) returns (r: Outcome)
      requires Valid()
      modifies this, messageDict.Values
      ensures Valid()
      ensures tid == Advance(old(tid), MaxTid) && cid == Advance(old(cid), MaxCid)
      ensures stopped == old(stopped)
      ensures var data := serialize(pdu.(transactionId := old(tid)));
        var arrived := if old(stopped) == None then reply else None;
        if |data| + 2 < LengthLimit then
          && outbound == old(outbound) + Frame(CidMessage(old(cid), data)).value
          && r == match arrived
               case None => Returned(TransportError("timeout"))
               case Some(rdata) => if wellFormed(rdata) then Returned(Parsed(rdata)) else Raised(DecodeError)
        else
          r == Raised(FrameError(OverflowError)) && outbound == old(outbound)
      ensures r != Raised(KeyError)
      ensures r == Raised(FrameError(OverflowError)) ==> messageDict == old(messageDict) && Slots() == old(Slots())
      ensures r.Returned? ==> messageDict == old(messageDict) - {old(cid)}
      ensures r.Returned? ==> Slots() == old(Slots()) - {old(cid)}
      ensures forall m :: m in old(messageDict.Values) ==> m.item == old(m.item)
      ensures r == Raised(DecodeError) ==>
        old(cid) in messageDict && messageDict - {old(cid)} == old(messageDict) - {old(cid)}
      ensures r == Raised(DecodeError) ==> Slots() == old(Slots())[old(cid) := None]
    {
      var sent := Send(pdu, serialize);
      if sent.Failure? {
        return Raised(sent.error);
      }
      var p := sent.value;
      ghost var registered := messageDict;
      r := Complete(p, reply, wellFormed);
      assert old(messageDict) - {p.cid} == registered - {p.cid};
    }

    /** Every public operation (`_create_table` ... `_list_tables`): build one
        PDU with version 0.1 and the operation's request, and make exactly one
        `_write_pdu` call. */
    method Request(command: Command, serialize: Pdu -> seq<byte>, reply: Option<seq<byte>>,
                   wellFormed: seq<byte> -> bool) returns (r: Outcome)
      requires Valid()
      modifies this, messageDict.Values
      ensures Valid()
      ensures tid == Advance(old(tid), MaxTid) && cid == Advance(old(cid), MaxCid)
      ensures stopped == old(stopped)
      ensures var data := serialize(Pdu(Version(0, 1), old(tid), command));
        var arrived := if old(stopped) == None then reply else None;
        if |data| + 2 < LengthLimit then
          && outbound == old(outbound) + Frame(CidMessage(old(cid), data)).value
          && r == match arrived
               case None => Returned(TransportError("timeout"))
               case Some(rdata) => if wellFormed(rdata) then Returned(Parsed(rdata)) else Raised(DecodeError)
        else
          r == Raised(FrameError(OverflowError)) && outbound == old(outbound)
      ensures r != Raised(KeyError)
      ensures r == Raised(FrameError(OverflowError)) ==> messageDict == old(messageDict) && Slots() == old(Slots())
      ensures r.Returned? ==> messageDict == old(messageDict) - {old(cid)}
      ensures r.Returned? ==> Slots() == old(Slots()) - {old(cid)}
      ensures forall m :: m in old(messageDict.Values) ==> m.item == old(m.item)
      ensures r == Raised(DecodeError) ==>
        old(cid) in messageDict && messageDict - {old(cid)} == old(messageDict) - {old(cid)}
      ensures r == Raised(DecodeError) ==> Slots() == old(Slots())[old(cid) := None]
    {
      r := WritePdu(MakePdu(command), serialize, reply, wellFormed);
    }
  }
}
