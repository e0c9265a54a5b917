# pundun client: request/response correlation

A Dafny model of the correlation engine of the pundun Python client
(`pundun/client.py`). One connection carries many calls. Each outbound
PDU is framed with a 4-byte big-endian length and a 2-byte big-endian
correlation id (cid). A listener loop reads inbound frames and routes each
payload to the single-slot mailbox registered under the frame's cid. The
calling coroutine then takes its reply, or times out after 60 seconds, and
deletes its entry from `message_dict`.

The asyncio scheduling is taken out. What is left is sequential. Between
suspension points the event loop may run the listener, other calls, or a
call's wait, subject to each call's 60-second deadline, which starts when the
call is sent. Each scenario below fixes one order that the program can run.

Modules:

- `Framing` (framing.dfy): `to_bytes`/`from_bytes` big-endian, the `write_data`
  frame, the `read_data` parser and the listener's cid split, all as pure
  functions with round-trip lemmas.
- `Counters` (counters.dfy): the wrap-around step shared by `_get_cid` and
  `_get_tid`, and what runs of consecutive calls return.
- `Registry` (registry.dfy): the value view of `message_dict`. It maps each cid
  to its mailbox content and defines what one listener pass (`Deliver`) and the
  whole listener loop (`Demux`) do to it.
- `Session` (client.dfy): the `Client` object as a class. It has the `tid`/`cid`
  counters, the bytes handed to the writer (`outbound`), `message_dict` as a
  map from cid to `Mailbox` objects, where a `Mailbox` is an
  `asyncio.Queue(maxsize = 1)`, and why the listener task has stopped, if it has
  (`stopped`). The class's methods are the counters, `write_data`,
  the listener body and loop, and `_write_pdu`. `_write_pdu` is split at its one
  suspension point into `Send` and `Await`. `WritePdu` runs both halves, with the
  wait's outcome as a parameter.
- `Scenarios` (scenarios.dfy): whole runs starting from a fresh `Client`.

Behaviour of the code that the model keeps as written:

- A `Queue` object defines neither `__len__` nor `__bool__`, so `if q:` tests only
  whether the entry exists.
- `put_nowait` on a full mailbox raises QueueFull. The listener's
  `except Exception` handler re-raises it, so the listener stops. A read that
  runs past the end of the stream stops it the same way. `__init__` starts the
  listener once and nothing restarts it, so every later call times out
  (`Session.Client.stopped`, `Scenarios.DuplicateReply`).
- A reply that does not parse makes `ParseFromString` raise before
  `del message_dict[cid]`. The entry then stays in the table.
- `_get_cid` hands out ids without checking for a live entry. After the counter
  wraps, a new call's mailbox replaces a pending call's mailbox. The older
  call's cleanup then deletes the newer call's entry
  (`Scenarios.StaleCleanupAfterWrap`).
- The code has no resource-exhausted failure in place of reusing a live id. It
  also does not fail the pending calls when the connection drops; they each
  wait out their own timeout. The model has neither safeguard.

## Model

| member | source | states |
|---|---|---|
| `Framing.ToBytesBe` | pundun/client.py:61 | `to_bytes(w, 'big')` yields exactly `w` bytes |
| `Framing.FromBytesBe` | pundun/client.py:73 | `from_bytes(s, 'big')` is below 256^len(s); the empty string decodes to 0 |
| `Framing.FromToBytesBe` | pundun/client.py:73 | decoding the big-endian bytes of a number that fits the width returns the number |
| `Framing.ToFromBytesBe` | pundun/client.py:93 | re-encoding a decoded byte string at its own width returns the string |
| `Framing.Frame` | pundun/client.py:59-62 | `write_data` emits `len(msg) + 4` bytes: the length prefix, then `msg` unchanged; it raises OverflowError exactly when `len(msg) >= 2^32` |
| `Framing.Unframe` | pundun/client.py:67-76 | `read_data` either raises IncompleteReadError or splits the stream into 4 prefix bytes, the message and the untouched rest |
| `Framing.UnframeFrame` | pundun/client.py:59-76 | `read_data` after `write_data` returns the message and leaves what follows on the stream |
| `Framing.FrameUnframe` | pundun/client.py:67-76 | a successful `read_data` consumed exactly one frame that `write_data` would produce for the message it returned |
| `Framing.CidMessage` | pundun/client.py:446-448 | the message `_write_pdu` writes is 2 bytes longer than the PDU, with the serialised PDU after the cid bytes |
| `Framing.SplitCid` | pundun/client.py:92-93 | the listener's cid is below 65536; a body of 2 or more bytes is the cid bytes followed by the payload; a 1-byte body gives that byte as the cid, an empty body cid 0, and both an empty payload |
| `Framing.SplitCidMessage` | pundun/client.py:446-448 | splitting the message `_write_pdu` built recovers its cid and PDU bytes |
| `Framing.RequestFrameLayout` | pundun/client.py:445-449 | a request frame is `uint32_be(len(data)+2) ++ uint16_be(cid) ++ data` and exists exactly when `len(data) + 2 < 2^32` |
| `Framing.RequestFrameRoundTrip` | pundun/client.py:59-93 | reading and splitting a request frame recovers cid, PDU bytes and the rest of the stream |
| `Counters.Advance` | pundun/client.py:463-477 | one counter step stays in `0..max` and equals `(c + 1) mod (max + 1)` |
| `Counters.Issued` | pundun/client.py:463-477 | n consecutive calls return n ids, each in `0..max`; `Scenarios.ConsecutiveCids` and `Scenarios.ConsecutiveTids` show that the client's counters return exactly these |
| `Counters.IssuedAt` | pundun/client.py:463-477 | within one period the i-th returned id is `start + i`, wrapped once past `max` |
| `Counters.IssuedDistinct` | pundun/client.py:463-477 | no id repeats within `max + 1` consecutive calls |
| `Counters.IssuedCovers` | pundun/client.py:463-477 | `max + 1` consecutive calls return every id in `0..max` |
| `Counters.CidsExactlyOnce` | pundun/client.py:471-477 | 65536 consecutive `_get_cid` calls return each of 0..65535 exactly once, from any start |
| `Counters.TidsExactlyOnce` | pundun/client.py:463-469 | 2^32 consecutive `_get_tid` calls return each of 0..4294967295 exactly once |
| `Registry.Deliver` | pundun/client.py:93-99 | one listener pass keeps the table's ids; it drops the payload exactly when the cid has no entry; it finds the mailbox full exactly when the cid's entry already holds a payload; a delivery puts the payload in the cid's mailbox and changes nothing else; otherwise the table is unchanged |
| `Registry.Demux` | pundun/client.py:87-111 | the listener loop never adds or removes a table entry |
| `Registry.DemuxDropsUnregistered` | pundun/client.py:94-100 | a frame for an unregistered cid leaves the table as if it never arrived, and the loop goes on |
| `Registry.DemuxFillsWaiting` | pundun/client.py:94-97 | a frame for a waiting, empty mailbox puts its payload there and the loop goes on |
| `Registry.DemuxStopsOnFull` | pundun/client.py:94-107 | a second frame for a full mailbox stops the listener with QueueFull and keeps the first payload |
| `Registry.DemuxKeepsFull` | pundun/client.py:87-111 | over any inbound stream, the listener never replaces a payload already in a mailbox |
| `Registry.OutOfOrderReplies` | pundun/client.py:92-99 | with two calls waiting, replies that arrive in reverse order each reach their own mailbox |
| `Session.Mailbox.constructor` | pundun/client.py:450 | a new queue is empty |
| `Session.Mailbox.PutNowait` | pundun/client.py:96 | `put_nowait` stores the item exactly when the queue is empty, and raises QueueFull otherwise |
| `Session.Mailbox.Take` | pundun/client.py:452-455 | the waiter takes the item, if any, and leaves the queue empty |
| `Session.Client.constructor` | pundun/client.py:21-32 | both counters start at 0, the table is empty, nothing has been written and the listener is running |
| `Session.Client.GetTid` | pundun/client.py:463-469 | returns the old tid; the tid counter advances with wrap-around; the cid counter is untouched |
| `Session.Client.GetCid` | pundun/client.py:471-477 | returns the old cid; the cid counter advances with wrap-around; the tid counter is untouched |
| `Session.Client.WriteData` | pundun/client.py:59-65 | appends the frame of `msg` to the outbound bytes, or raises OverflowError and writes nothing |
| `Session.MakePdu` | pundun/client.py:434-438 | a fresh PDU has version 0.1 and carries the operation's request; stamping a tid into it gives the PDU `_write_pdu` serialises |
| `Session.Client.Dispatch` | pundun/client.py:92-107 | one pass of the running listener changes the mailboxes as `Registry.Deliver` says and keeps the table; QueueFull stops the listener, recording the cid |
| `Session.Client.Listen` | pundun/client.py:87-111 | the running listener's loop leaves the mailboxes and its stop reason as `Registry.Demux` gives them, and the listener stays stopped for that reason |
| `Session.Client.Send` | pundun/client.py:440-451 | takes a tid, stamps it into the PDU before serialising, takes a cid, appends the request frame and registers a fresh empty mailbox under the cid, replacing any entry there; an oversized frame raises `write_data`'s OverflowError after both ids are spent, with nothing written or registered |
| `Session.Client.Await` | pundun/client.py:452-461 | a received reply is parsed, or the call times out with `error.transport = 'timeout'`; the cid's entry is then deleted and no other entry changes; a parse failure keeps the entry; a missing entry raises KeyError |
| `Session.Client.Arrive` | pundun/client.py:92-96 | the running listener puts the server's reply to a just-sent call into that call's empty mailbox; a stopped listener delivers nothing; no other id's mailbox changes and the listener keeps running |
| `Session.Client.Complete` | pundun/client.py:452-461 | with nothing run between, the call's wait returns the delivered reply parsed, times out when none was delivered, or raises DecodeError leaving the table and every mailbox as they were, its own emptied by the wait; otherwise the cid's entry is deleted; no other call's mailbox changes |
| `Session.Client.WritePdu` | pundun/client.py:440-461 | for a call with no other call and no listener pass between its send and its wait: an oversized PDU raises OverflowError with nothing written or registered; otherwise exactly one request frame is written; the server's reply is returned if the listener is still running and the reply parses, the call times out with `error.transport = 'timeout'` if no reply arrives, and a reply that does not parse raises DecodeError; after a return the call's cid has no entry, after DecodeError the cid keeps the call's own emptied mailbox; other entries and every mailbox an earlier call waits on are unchanged, including one this call's entry replaced; such a call never raises KeyError |
| `Session.Client.Request` | pundun/client.py:148-438 | every public operation makes one `_write_pdu` call with a PDU of version 0.1, the fresh tid and its request, and has that call's outcome: OverflowError with nothing sent, a parsed reply, a timeout, or DecodeError; the table and other calls' mailboxes change only as `WritePdu` says |
| `Scenarios.OutOfOrder` | pundun/client.py:92-99 | two concurrent calls whose replies arrive in reverse order each return their own reply |
| `Scenarios.LateReply` | pundun/client.py:94-100 | a reply that arrives after its call timed out is dropped; the next call still gets its own reply |
| `Scenarios.ConsecutiveCids` | pundun/client.py:471-477 | n `_get_cid` calls in a row return `Counters.Issued` from the counter's value, so `Counters.CidsExactlyOnce` holds of the client |
| `Scenarios.ConsecutiveTids` | pundun/client.py:463-469 | n `_get_tid` calls in a row return `Counters.Issued` from the counter's value, so `Counters.TidsExactlyOnce` holds of the client |
| `Scenarios.DuplicateReply` | pundun/client.py:94-107 | a second reply for a call whose first reply is still in its mailbox ends the listener with QueueFull; the call returns the first reply; the next call times out although the server answers it |
| `Scenarios.StaleCleanupAfterWrap` | pundun/client.py:445-460 | while an unanswered call waits, 65535 further calls are answered and the cid counter then returns the waiting call's id; the older call's timeout deletes the newer call's entry, the newer call's reply is dropped, and its own cleanup raises KeyError |

## Left out

- The asyncio machinery: the event loop, `run_until_complete`, `run_coroutine_threadsafe`, `Task`, `wait_for` and task cancellation (`pundun/client.py:26`, `42-57`, `431-432`). The 60-second wait is modelled by when the caller's `Await` runs relative to the listener, or by the `reply` parameter of `WritePdu`.
- The synchronous and `do_async` entry points (`create_table` … `list_tables`). Except in one case, they only choose how the coroutine is scheduled. The exception is `add_index(..., do_async=True)` (`pundun/client.py:390-392`), which calls `self.loop._run_coroutine`. The event loop has no such method, so this raises AttributeError before any PDU is sent.
- The listener's loop condition `self.loop.is_running()`. The loop is running whenever the listener task runs, so the model's loop ends only by an exception.
- Deadlines. `Await` models a timeout whenever it runs with an empty mailbox, so the model alone does not keep calls from timing out out of the order in which they were sent. The scenarios are written in orders that respect the deadlines.
- `read_data`'s `timeout` argument. The listener always calls it without a timeout.
- TLS connection, SCRAM authentication (`_connect`, `_auth`), `_disconnect`, `cleanup` and `__del__`. These are network and foreign-library calls. The authentication exchange also writes through `write_data`; the model's outbound bytes start after it.
- Protobuf construction, `SerializeToString` and `ParseFromString`. The PDU schema is not part of this model. Serialisation is a function parameter, and whether a reply parses is a predicate parameter.
- `utils.make_fields`, `make_table_options`, `make_posting_filter`, `make_update_operation_list`, `make_index_config_list` and `format_rpdu`. Their bodies are not part of this model. Their results are opaque byte strings in `Command`, and a call returns the rpdu before `format_rpdu`.
- Logging, `pprint` and the `print` in the listener's handler.
- `pundun/constants.py`: enum tables with no behaviour. Note that `CharFilter.nfkd = 2` makes it an alias of `nfkc`.
- Detecting id exhaustion, and failing pending calls on disconnect. The code does neither.
- `Session.Client.WritePdu`: covers only a call with no other call and no listener pass between its send and its wait. With interleaving, the promises that other entries are unchanged and that KeyError is never raised do not hold. `Send` and `Await`, run separately, model that case, and `Scenarios.StaleCleanupAfterWrap` shows the KeyError.
- `Session.Client.Send`: the cid is taken after serialising, as in the code. The model cannot observe this order, because serialisation is a pure function of the PDU.
