/**
 * The length-prefixed framing of pundun/client.py: `write_data` puts a
 * 4-byte big-endian length in front of a message, `read_data` reads it back,
 * `_write_pdu` puts a 2-byte big-endian correlation id in front of the
 * serialised PDU and the listener splits it off again.
 */
module Framing {
  import opened Wrappers

  newtype byte = x: int | 0 <= x < 256

  /** The exceptions the framing code can raise. */
  datatype Error =
    | OverflowError        // int.to_bytes: the value does not fit the width
    | IncompleteReadError  // StreamReader.readexactly: the stream ended early

  /** The number of values a field of `w` bytes can hold. */
  function Pow256(w: nat): nat
  {
    if w == 0 then 1 else 256 * Pow256(w - 1)
  }

  /** One past the largest length `write_data` can encode (2^32). */
  const LengthLimit: nat := 0x1_0000_0000

  /** One past the largest correlation id that fits two bytes (2^16). */
  const CidLimit: nat := 0x1_0000

  lemma Pow256Widths()
    ensures Pow256(2) == CidLimit && Pow256(4) == LengthLimit
  {
    assert Pow256(1) == 256;
    assert Pow256(2) == 65536;
    assert Pow256(3) == 16777216;
  }

  /** `n.to_bytes(w, byteorder='big')`: exactly `w` bytes, most significant first. */
  function ToBytesBe(n: nat, w: nat): (r: seq<byte>)
    requires n < Pow256(w)
    ensures |r| == w
    decreases w
  {
    if w == 0 then []
    else
      assert n / 256 < Pow256(w - 1);
      ToBytesBe(n / 256, w - 1) + [(n % 256) as byte]
  }

  /** `int.from_bytes(s, byteorder='big')`; the empty string decodes to 0. */
  function FromBytesBe(s: seq<byte>): (r: nat)
    ensures r < Pow256(|s|)
  {
    if s == [] then 0
    else
      var high := FromBytesBe(s[..|s| - 1]);
      assert high * 256 + s[|s| - 1] as nat < 256 * Pow256(|s| - 1) by {
        assert high <= Pow256(|s| - 1) - 1;
        assert high * 256 <= (Pow256(|s| - 1) - 1) * 256;
      }
      high * 256 + s[|s| - 1] as nat
  }

  /** Decoding the big-endian bytes of a number gives the number back. */
  lemma {:induction false} FromToBytesBe(n: nat, w: nat)
    requires n < Pow256(w)
    ensures FromBytesBe(ToBytesBe(n, w)) == n
    decreases w
  {
    if w > 0 {
      var s := ToBytesBe(n, w);
      assert s[..w - 1] == ToBytesBe(n / 256, w - 1);
      FromToBytesBe(n / 256, w - 1);
      assert FromBytesBe(s) == (n / 256) * 256 + n % 256;
    }
  }

  /** Encoding the decoded value of a byte string at its own width gives the string back. */
  lemma {:induction false} ToFromBytesBe(s: seq<byte>)
    ensures ToBytesBe(FromBytesBe(s), |s|) == s
    decreases |s|
  {
    if s != [] {
      var init := s[..|s| - 1];
      var v := FromBytesBe(s);
      assert v == FromBytesBe(init) * 256 + s[|s| - 1] as nat;
      assert v / 256 == FromBytesBe(init) && v % 256 == s[|s| - 1] as nat;
      ToFromBytesBe(init);
      assert s == init + [s[|s| - 1]];
    }
  }

  /** The bytes `write_data(msg)` hands to the writer, or the OverflowError
      `len(msg).to_bytes(4, ...)` raises when the length needs more than 4 bytes. */
  function Frame(msg: seq<byte>): (r: Result<seq<byte>, Error>)
    ensures r.Success? <==> |msg| < LengthLimit
    ensures r.Failure? ==> r.error == OverflowError
    ensures r.Success? ==> |r.value| == |msg| + 4 && r.value[4..] == msg
  {
    Pow256Widths();
    if |msg| < Pow256(4) then Success(ToBytesBe(|msg|, 4) + msg) else Failure(OverflowError)
  }

  /** What one `read_data` call takes off the stream, and what stays there. */
  datatype Read = Read(data: seq<byte>, rest: seq<byte>)

  /** `read_data` on the bytes the stream will still deliver: `readexactly(4)`,
      the big-endian length, then `readexactly(length)`. Either read running
      past the end of the stream raises IncompleteReadError. */
  function Unframe(stream: seq<byte>): (r: Result<Read, Error>)
    ensures r.Failure? ==> r.error == IncompleteReadError
    ensures r.Success? ==> |stream| == 4 + |r.value.data| + |r.value.rest|
    ensures r.Success? ==> stream[4..] == r.value.data + r.value.rest
  {
    if |stream| < 4 then Failure(IncompleteReadError)
    else
      var length := FromBytesBe(stream[..4]);
      if |stream| - 4 < length then Failure(IncompleteReadError)
      else Success(Read(stream[4..4 + length], stream[4 + length..]))
  }

  /** `read_data` is the inverse of `write_data`: whatever follows a frame on the
      stream is left for the next read. */
  lemma UnframeFrame(msg: seq<byte>, rest: seq<byte>)
    requires Frame(msg).Success?
    ensures Unframe(Frame(msg).value + rest) == Success(Read(msg, rest))
  {
    Pow256Widths();
    var stream := Frame(msg).value + rest;
    assert stream[..4] == ToBytesBe(|msg|, 4);
    FromToBytesBe(|msg|, 4);
    assert stream[4..4 + |msg|] == msg;
    assert stream[4 + |msg|..] == rest;
  }

  /** A successful `read_data` consumed exactly one frame that `write_data`
      could have written: the parser accepts nothing else. */
  lemma FrameUnframe(stream: seq<byte>)
    requires Unframe(stream).Success?
    ensures Frame(Unframe(stream).value.data).Success?
    ensures stream == Frame(Unframe(stream).value.data).value + Unframe(stream).value.rest
  {
    Pow256Widths();
    var r := Unframe(stream).value;
    ToFromBytesBe(stream[..4]);
    assert |r.data| == FromBytesBe(stream[..4]);
    assert stream == stream[..4] + stream[4..];
  }

  /** The message `_write_pdu` passes to `write_data`: the 2-byte big-endian
      correlation id followed by the serialised PDU. */
  function CidMessage(cid: nat, data: seq<byte>): (r: seq<byte>)
    requires cid < CidLimit
    ensures |r| == |data| + 2 && r[2..] == data
  {
    Pow256Widths();
    ToBytesBe(cid, 2) + data
  }

  /** The listener's split of a frame body into correlation id and payload:
      `int.from_bytes(ciddata[:2], 'big')` and `ciddata[2:]`. Python slicing
      accepts a body shorter than two bytes: the id is then decoded from what
      is there and the payload is empty. */
  function SplitCid(ciddata: seq<byte>): (r: (nat, seq<byte>))
    ensures r.0 < CidLimit
    ensures |ciddata| >= 2 ==> ciddata == CidMessage(r.0, r.1)
    ensures |ciddata| < 2 ==> r.1 == [] && r.0 < Pow256(|ciddata|)
    ensures |ciddata| == 1 ==> r.0 == ciddata[0] as nat
    ensures |ciddata| == 0 ==> r.0 == 0
  {
    Pow256Widths();
    if |ciddata| < 2 then
      (FromBytesBe(ciddata), [])
    else
      ToFromBytesBe(ciddata[..2]);
      assert ciddata == ciddata[..2] + ciddata[2..];
      (FromBytesBe(ciddata[..2]), ciddata[2..])
  }

  /** The listener recovers exactly the id and the PDU bytes `_write_pdu` framed. */
  lemma SplitCidMessage(cid: nat, data: seq<byte>)
    requires cid < CidLimit
    ensures SplitCid(CidMessage(cid, data)) == (cid, data)
  {
    Pow256Widths();
    var m := CidMessage(cid, data);
    assert m[..2] == ToBytesBe(cid, 2);
    FromToBytesBe(cid, 2);
  }

  /** A request frame on the wire is `uint32_be(len(data) + 2) ++ uint16_be(cid) ++ data`,
      six bytes longer than the PDU; it exists exactly when `len(data) + 2 < 2^32`. */
  lemma RequestFrameLayout(cid: nat, data: seq<byte>)
    requires cid < CidLimit
    ensures Frame(CidMessage(cid, data)).Success? <==> |data| + 2 < LengthLimit
    ensures Frame(CidMessage(cid, data)).Success? ==>
      Pow256(4) == LengthLimit && Pow256(2) == CidLimit &&
      Frame(CidMessage(cid, data)).value == ToBytesBe(|data| + 2, 4) + ToBytesBe(cid, 2) + data
  {
    Pow256Widths();
  }

  /** Reading a request frame off the stream and splitting it recovers the
      correlation id, the PDU bytes and the untouched remainder of the stream. */
  lemma RequestFrameRoundTrip(cid: nat, data: seq<byte>, rest: seq<byte>)
    requires cid < CidLimit && |data| + 2 < LengthLimit
    ensures Frame(CidMessage(cid, data)).Success?
    ensures var r := Unframe(Frame(CidMessage(cid, data)).value + rest);
      r.Success? && r.value.rest == rest && SplitCid(r.value.data) == (cid, data)
  {
    UnframeFrame(CidMessage(cid, data), rest);
    SplitCidMessage(cid, data);
  }
}
