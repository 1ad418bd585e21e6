/** The frame encoder, writing into the caller's buffer or one it allocates. */
module SerialEncoder {
  import opened Bits
  import opened Types
  import opened Frame

  /** What smp_serial_protocol_encode insists on: the frame at its largest, counting one byte for
      escaping the checksum whether it is needed or not. */
  function PayloadSize(p: seq<byte>): nat {
    |p| + 4 + MagicCount(p)
  }

  /** The demand covers every frame and exceeds it by at most the one checksum byte. */
  lemma PayloadSizeBound(p: seq<byte>)
    ensures |Wire(p)| <= PayloadSize(p) <= |Wire(p)| + 1
    ensures PayloadSize(p) == |Wire(p)| <==> IsMagic(Checksum(p))
    ensures PayloadSize(p) <= 2 * |p| + 4
  {
    WireLength(p);
  }

  /** compute_payload_size, in the arithmetic of size_t. */
  method ComputePayloadSize(word: Word, buf: array<byte>, size: nat) returns (ret: nat)
    requires size <= buf.Length && size < word.Modulus()
    ensures ret == PayloadSize(buf[..size]) % word.Modulus()
  {
    ret := WrappedSum(word, size, 4);
    for i := 0 to size
      invariant ret == (size + 4 + MagicCount(buf[..i])) % word.Modulus()
    {
      assert buf[..i + 1][..i] == buf[..i];
      if IsMagic(buf[i]) {
        WrappedSumIs(word, size + 4 + MagicCount(buf[..i]), 1);
        ret := WrappedSum(word, ret, 1);
      }
    }
  }

  method ComputeChecksum(buf: array<byte>, size: nat) returns (checksum: byte)
    requires size <= buf.Length
    ensures checksum == Checksum(buf[..size])
  {
    checksum := 0;
    for i := 0 to size
      invariant checksum == Checksum(buf[..i])
    {
      assert buf[..i + 1][..i] == buf[..i];
      checksum := XorByte(checksum, buf[i]);
    }
  }

  /** Write b at dest[at..], escaped if need be, and return the number of bytes written. */
  method WriteByte(dest: array<byte>, at: nat, b: byte) returns (n: nat)
    requires at + |EscapeByte(b)| <= dest.Length
    modifies dest
    ensures n == |EscapeByte(b)|
    ensures dest[..at + n] == old(dest[..at]) + EscapeByte(b)
    ensures forall k :: at + n <= k < dest.Length ==> dest[k] == old(dest[k])
  {
    n := 0;
    if IsMagic(b) {
      dest[at] := ESC;
      n := 1;
    }
    dest[at + n] := b;
    n := n + 1;
  }

  /** One more payload byte: the bytes already written and the new ones still fit the whole. */
  lemma EscapeStep(p: seq<byte>, i: nat)
    requires i < |p|
    ensures Escape(p[..i + 1]) == Escape(p[..i]) + EscapeByte(p[i])
    ensures |Escape(p[..i + 1])| <= |Escape(p)|
  {
    assert p[..i + 1][..i] == p[..i];
    assert p == p[..i + 1] + p[i + 1..];
    EscapeConcat(p[..i + 1], p[i + 1..]);
  }

  lemma Regroup(x: seq<byte>, y: seq<byte>)
    ensures [START] + (x + y) + [END] == [START] + x + y + [END]
  {
  }

  lemma {:induction false} BodySplit(p: seq<byte>)
    ensures Wire(p) == [START] + Escape(p) + EscapeByte(Checksum(p)) + [END]
  {
    EscapeConcat(p, [Checksum(p)]);
    EscapeOne(Checksum(p));
    Regroup(Escape(p), EscapeByte(Checksum(p)));
  }

  /** The loop of the encoder: the payload, escaped, at txbuf[at..]. */
  method WritePayload(inbuf: array<byte>, insize: nat, txbuf: array<byte>, at: nat, ghost p: seq<byte>)
      returns (offset: nat)
    requires inbuf != txbuf && insize <= inbuf.Length && p == inbuf[..insize]
    requires at + |Escape(p)| <= txbuf.Length
    modifies txbuf
    ensures offset == at + |Escape(p)|
    ensures txbuf[..offset] == old(txbuf[..at]) + Escape(p)
    ensures forall k :: offset <= k < txbuf.Length ==> txbuf[k] == old(txbuf[k])
  {
    ghost var before := txbuf[..at];
    offset := at;
    for i := 0 to insize
      invariant offset == at + |Escape(p[..i])| && offset <= txbuf.Length
      invariant txbuf[..offset] == before + Escape(p[..i])
      invariant forall k :: offset <= k < txbuf.Length ==> txbuf[k] == old(txbuf[k])
    {
      EscapeStep(p, i);
      var n := WriteByte(txbuf, offset, inbuf[i]);
      offset := offset + n;
    }
    assert p[..insize] == p;
  }

  /** The end of a frame: the checksum and END. */
  method WriteTail(txbuf: array<byte>, at: nat, cs: byte) returns (offset: nat)
    requires at + |EscapeByte(cs)| < txbuf.Length
    modifies txbuf
    ensures offset == at + |EscapeByte(cs)| + 1
    ensures txbuf[..offset] == old(txbuf[..at]) + EscapeByte(cs) + [END]
    ensures forall k :: offset <= k < txbuf.Length ==> txbuf[k] == old(txbuf[k])
  {
    var n := WriteByte(txbuf, at, cs);
    offset := at + n;
    txbuf[offset] := END;
    offset := offset + 1;
  }

  /** The encoder once the output buffer is known: it writes exactly the frame, and nothing
      after it. */
  method WriteFrame(inbuf: array<byte>, insize: nat, txbuf: array<byte>) returns (offset: nat)
    requires inbuf != txbuf && insize <= inbuf.Length
    requires PayloadSize(inbuf[..insize]) <= txbuf.Length
    modifies txbuf
    ensures offset <= txbuf.Length && txbuf[..offset] == Wire(inbuf[..insize])
    ensures forall k :: offset <= k < txbuf.Length ==> txbuf[k] == old(txbuf[k])
  {
    ghost var p := inbuf[..insize];
    PayloadSizeBound(p);
    BodySplit(p);
    txbuf[0] := START;
    offset := WritePayload(inbuf, insize, txbuf, 1, p);
    var cs := ComputeChecksum(inbuf, insize);
    offset := WriteTail(txbuf, offset, cs);
  }

  /** smp_serial_protocol_encode. With a buffer of the caller's, the frame is refused when the
      buffer is smaller than PayloadSize, and then nothing is written; without one, the frame
      goes to a fresh buffer. */
  method Encode(word: Word, inbuf: array?<byte>, insize: nat, outbuf: array?<byte>, outsize: nat)
      returns (status: Status, size: nat, txbuf: array?<byte>)
    requires inbuf != null ==> insize <= inbuf.Length && PayloadSize(inbuf[..insize]) < word.Modulus()
    requires outbuf != null ==> outsize <= outbuf.Length && inbuf != outbuf
    modifies outbuf
    ensures status == (if inbuf == null || (outbuf != null && outsize == 0) then Failed(InvalidParam)
                       else if outbuf != null && outsize < PayloadSize(inbuf[..insize]) then Failed(OverflowError)
                       else Ok)
    ensures status != Ok && outbuf != null ==> outbuf[..] == old(outbuf[..])
    ensures status == Ok ==> txbuf != null && size <= txbuf.Length && txbuf[..size] == Wire(old(inbuf[..insize]))
    ensures status == Ok && outbuf != null ==> txbuf == outbuf && outbuf[size..] == old(outbuf[size..])
    ensures status == Ok && outbuf == null ==> fresh(txbuf) && txbuf.Length == PayloadSize(inbuf[..insize])
  {
    size, txbuf := 0, outbuf;
    if inbuf == null { return Failed(InvalidParam), size, txbuf; }
    if !(outbuf == null || outsize > 0) { return Failed(InvalidParam), size, txbuf; }
    var payloadSize := ComputePayloadSize(word, inbuf, insize);
    Unwrapped(word, PayloadSize(inbuf[..insize]));
    if outbuf == null {
      txbuf := new byte[payloadSize];
    } else if outsize < payloadSize {
      return Failed(OverflowError), size, txbuf;
    }
    size := WriteFrame(inbuf, insize, txbuf);
    status := Ok;
  }
}
