/**
 * Length-prefixed framing of the server's wire messages
 * (send_with_length / recv_with_length in snake_server.py).
 *
 * A frame is the payload's length as 4 big-endian bytes followed by the
 * payload itself.  The receiver reads from a stream socket whose `recv(n)`
 * may return any non-empty prefix of at most `n` of the pending bytes, so it
 * loops until the 4 length bytes and then the whole payload have arrived.
 */
module Framing {
  import opened Wrappers

  newtype byte = x: int | 0 <= x < 256

  /** `length.to_bytes(4, 'big')` overflows at this length. */
  const FrameLimit: nat := 0x1_0000_0000

  /** Raised as ConnectionError by recv_with_length. */
  datatype ConnError =
    | ClosedBeforeLength    // the peer closed before the 4 length bytes arrived
    | ClosedBeforeMessage   // the peer closed before the declared payload arrived

  function Pow256(n: nat): nat
  {
    if n == 0 then 1 else 256 * Pow256(n - 1)
  }

  /** `int.from_bytes(bs, byteorder='big')`. */
  function BigEndianValue(bs: seq<byte>): (v: nat)
    ensures v < Pow256(|bs|)
  {
    if bs == [] then 0
    else
      var high := BigEndianValue(bs[..|bs| - 1]);
      assert high + 1 <= Pow256(|bs| - 1);
      assert (high + 1) * 256 <= Pow256(|bs| - 1) * 256;
      high * 256 + bs[|bs| - 1] as nat
  }

  /** `n.to_bytes(width, byteorder='big')` for an `n` that fits in `width` bytes. */
  function ToBytes(n: nat, width: nat): (bs: seq<byte>)
    requires n < Pow256(width)
    ensures |bs| == width && BigEndianValue(bs) == n
  {
    if width == 0 then []
    else
      assert n / 256 < Pow256(width - 1);
      var bs := ToBytes(n / 256, width - 1) + [(n % 256) as byte];
      assert bs[..width - 1] == ToBytes(n / 256, width - 1);
      bs
  }

  /** Any bytes are the encoding of their own big-endian value at their own width. */
  lemma {:induction false} ToBytesOfValue(bs: seq<byte>)
    ensures ToBytes(BigEndianValue(bs), |bs|) == bs
  {
    if bs != [] {
      var init := bs[..|bs| - 1];
      var v := BigEndianValue(bs);
      assert v == BigEndianValue(init) * 256 + bs[|bs| - 1] as nat;
      assert v / 256 == BigEndianValue(init) && v % 256 == bs[|bs| - 1] as nat;
      ToBytesOfValue(init);
      assert init + [bs[|bs| - 1]] == bs;
    }
  }

  /**
   * send_with_length: the bytes written for `data`, or None when the length
   * does not fit in 4 bytes (to_bytes raises OverflowError and nothing is sent).
   */
  function Encode(data: seq<byte>): (frame: Option<seq<byte>>)
    ensures frame.Some? <==> |data| < FrameLimit
    ensures frame.Some? ==>
      |frame.value| == 4 + |data| &&
      BigEndianValue(frame.value[..4]) == |data| &&
      frame.value[4..] == data
  {
    assert Pow256(4) == FrameLimit;
    if |data| < FrameLimit then
      var frame := ToBytes(|data|, 4) + data;
      assert frame[..4] == ToBytes(|data|, 4);
      Some(frame)
    else None
  }

  /**
   * What recv_with_length does with the bytes the peer will ever send on the
   * connection: the payload of the first frame and the bytes left after it,
   * or the ConnectionError raised when the stream ends too early.
   */
  function DecodeFrame(stream: seq<byte>): (r: Result<(seq<byte>, seq<byte>), ConnError>)
    ensures r.Success? ==> 4 + |r.value.0| + |r.value.1| == |stream| && r.value.1 == stream[4 + |r.value.0|..]
  {
    if |stream| < 4 then Failure(ClosedBeforeLength)
    else
      var n := BigEndianValue(stream[..4]);
      if |stream| - 4 < n then Failure(ClosedBeforeMessage)
      else Success((stream[4..4 + n], stream[4 + n..]))
  }

  /**
   * What the receiver returns is the payload of a frame the stream starts
   * with; it reports a missing length exactly when fewer than 4 bytes come.
   */
  lemma DecodeFrameIsFrame(stream: seq<byte>)
    ensures DecodeFrame(stream).Success? ==>
      var (payload, rest) := DecodeFrame(stream).value;
      Encode(payload).Some? && stream == Encode(payload).value + rest
    ensures DecodeFrame(stream) == Failure(ClosedBeforeLength) <==> |stream| < 4
  {
    if DecodeFrame(stream).Success? {
      var n := BigEndianValue(stream[..4]);
      ToBytesOfValue(stream[..4]);
      assert stream == stream[..4] + stream[4..4 + n] + stream[4 + n..];
    }
  }

  /** Round trip: a stream that starts with a frame decodes to its payload and leaves the rest. */
  lemma DecodeEncode(data: seq<byte>, rest: seq<byte>)
    requires Encode(data).Some?
    ensures DecodeFrame(Encode(data).value + rest) == Success((data, rest))
  {
    var stream := Encode(data).value + rest;
    assert stream[..4] == Encode(data).value[..4];
    assert stream[4..4 + |data|] == data;
    assert stream[4 + |data|..] == rest;
  }

  /** A stream that ends inside a frame is reported as closed, never as a short payload. */
  lemma DecodeTruncated(data: seq<byte>, k: nat)
    requires Encode(data).Some? && k < |Encode(data).value|
    ensures DecodeFrame(Encode(data).value[..k]) ==
      (if k < 4 then Failure(ClosedBeforeLength) else Failure(ClosedBeforeMessage))
  {
    var frame := Encode(data).value;
    if k >= 4 {
      assert frame[..k][..4] == frame[..4];
    }
  }

  /** Bytes received after a prefix of the stream extend that prefix. */
  lemma Received(stream: seq<byte>, got: seq<byte>, more: seq<byte>)
    requires |got| <= |stream| && got == stream[..|got|]
    requires |more| <= |stream| - |got| && more == stream[|got|..][..|more|]
    ensures got + more == stream[..|got| + |more|]
    ensures stream[|got|..][|more|..] == stream[|got| + |more|..]
  {
  }

  lemma DecodeWholeFrame(stream: seq<byte>, lengthBytes: seq<byte>, data: seq<byte>, rest: seq<byte>)
    requires |stream| >= 4 && lengthBytes == stream[..4] && |data| == BigEndianValue(lengthBytes)
    requires 4 + |data| <= |stream| && data == stream[4..4 + |data|] && rest == stream[4 + |data|..]
    ensures DecodeFrame(stream) == Success((data, rest))
  {
  }

  lemma DecodeShortPayload(stream: seq<byte>, lengthBytes: seq<byte>, data: seq<byte>)
    requires |stream| >= 4 && lengthBytes == stream[..4] && |data| < BigEndianValue(lengthBytes)
    requires |stream| == 4 + |data|
    ensures DecodeFrame(stream) == Failure(ClosedBeforeMessage)
  {
  }

  /**
   * The receiving end of a stream socket.  `pending` holds the bytes the peer
   * has sent (and will send) that have not been received yet.
   */
  class Socket {
    var pending: seq<byte>

    constructor (incoming: seq<byte>)
      ensures pending == incoming
    {
      pending := incoming;
    }

    /**
     * `sock.recv(n)`: some non-empty prefix of at most `n` pending bytes; the
     * empty string once the peer has closed and everything was received (or
     * when `n` is 0).  How many bytes arrive is chosen freely.
     */
    method Recv(n: nat) returns (chunk: seq<byte>)
      modifies this
      ensures |chunk| <= n && |chunk| <= |old(pending)|
      ensures chunk == old(pending)[..|chunk|] && pending == old(pending)[|chunk|..]
      ensures chunk == [] <==> n == 0 || old(pending) == []
    {
      if n == 0 || pending == [] {
        chunk := [];
      } else {
        var k :| 1 <= k <= n && k <= |pending|;
        chunk := pending[..k];
        pending := pending[k..];
      }
    }
  }

  /**
   * recv_with_length: reads exactly one frame, asking each `recv` for no more
   * than the bytes still missing, so nothing after the frame is consumed.
   */
  method RecvWithLength(sock: Socket) returns (r: Result<seq<byte>, ConnError>)
    modifies sock
    ensures DecodeFrame(old(sock.pending)).Success? ==>
      r == Success(DecodeFrame(old(sock.pending)).value.0) &&
      sock.pending == DecodeFrame(old(sock.pending)).value.1
    ensures DecodeFrame(old(sock.pending)).Failure? ==>
      r == Failure(DecodeFrame(old(sock.pending)).error) && sock.pending == []
  {
    ghost var stream := sock.pending;
    var lengthBytes: seq<byte> := [];
    while |lengthBytes| < 4
      invariant |lengthBytes| <= 4 && |lengthBytes| <= |stream|
      invariant lengthBytes == stream[..|lengthBytes|] && sock.pending == stream[|lengthBytes|..]
      decreases 4 - |lengthBytes|
    {
      var more := sock.Recv(4 - |lengthBytes|);
      if more == [] {
        return Failure(ClosedBeforeLength);
      }
      Received(stream, lengthBytes, more);
      lengthBytes := lengthBytes + more;
    }
    var length := BigEndianValue(lengthBytes);
    var data: seq<byte> := [];
    while |data| < length
      invariant |data| <= length && 4 + |data| <= |stream|
      invariant data == stream[4..4 + |data|] && sock.pending == stream[4 + |data|..]
      decreases length - |data|
    {
      var more := sock.Recv(length - |data|);
      if more == [] {
        DecodeShortPayload(stream, lengthBytes, data);
        return Failure(ClosedBeforeMessage);
      }
      Received(stream[4..], data, more);
      data := data + more;
    }
    DecodeWholeFrame(stream, lengthBytes, data, sock.pending);
    r := Success(data);
  }

  /**
   * A frame sent by send_with_length and received by recv_with_length comes
   * back unchanged, however the stream splits it across `recv` calls, and the
   * bytes sent after it stay unread.
   */
  method SendThenReceive(data: seq<byte>, later: seq<byte>) returns (r: Result<seq<byte>, ConnError>, unread: seq<byte>)
    requires |data| < FrameLimit
    ensures r == Success(data) && unread == later
  {
    var sock := new Socket(Encode(data).value + later);
    DecodeEncode(data, later);
    r := RecvWithLength(sock);
    unread := sock.pending;
  }
}
