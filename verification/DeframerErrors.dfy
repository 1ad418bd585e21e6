/** Error detection on the wire, and unique decodability of the frame encoding. */
module DeframerErrors {
  import opened Bits
  import opened Types
  import opened Frame
  import opened Deframer
  import opened DeframerRuns

  /** Where on the wire the content byte i of the frame for p travels (after its ESC, if any). */
  function WirePos(p: seq<byte>, i: nat): (k: nat)
    requires i <= |p|
    ensures 1 <= k
  {
    1 + |Escape(Content(p)[..i])| + (if IsMagic(Content(p)[i]) then 1 else 0)
  }

  lemma EscapeSplit(x: seq<byte>, b: byte, y: seq<byte>)
    ensures Escape(x + ([b] + y)) == Escape(x) + (EscapeByte(b) + Escape(y))
  {
    EscapeConcat(x, [b] + y);
    EscapeCons(b, y);
  }

  /** The frame around the content byte i. */
  lemma WireSplit(p: seq<byte>, i: nat)
    requires i <= |p|
    ensures var c := Content(p);
            Wire(p) == [START] + (Escape(c[..i]) + (EscapeByte(c[i]) + Escape(c[i + 1..]))) + [END]
  {
    var c := Content(p);
    assert c == c[..i] + ([c[i]] + c[i + 1..]);
    EscapeSplit(c[..i], c[i], c[i + 1..]);
  }

  /** The content byte i sits at its wire position, between START and END. */
  lemma WirePosHolds(p: seq<byte>, i: nat)
    requires i <= |p|
    ensures WirePos(p, i) < |Wire(p)| - 1 && Wire(p)[WirePos(p, i)] == Content(p)[i]
    ensures IsMagic(Content(p)[i]) ==> Wire(p)[WirePos(p, i) - 1] == ESC
  {
    WireSplit(p, i);
  }

  /** Every wire byte strictly inside the frame is a content byte or the ESC before one. */
  lemma {:induction false} EscapePositions(c: seq<byte>, k: nat) returns (i: nat)
    requires k < |Escape(c)|
    ensures i < |c|
    ensures var e := EscapeByte(c[i]);
            |Escape(c[..i])| <= k < |Escape(c[..i])| + |e| && Escape(c)[k] == e[k - |Escape(c[..i])|]
  {
    var n := |c| - 1;
    if k < |Escape(c[..n])| {
      i := EscapePositions(c[..n], k);
      assert c[..n][..i] == c[..i];
    } else {
      i := n;
    }
  }

  lemma WirePositionsCovered(p: seq<byte>, k: nat) returns (i: nat)
    requires 0 < k < |Wire(p)| - 1
    ensures i <= |p|
    ensures k == WirePos(p, i) || (k + 1 == WirePos(p, i) && IsMagic(Content(p)[i]) && Wire(p)[k] == ESC)
  {
    i := EscapePositions(Content(p), k - 1);
  }

  /** The frame for p with its content byte i replaced by b on the line. */
  function Corrupted(p: seq<byte>, i: nat, b: byte): (s: seq<byte>)
    requires i <= |p|
    ensures |s| == |Wire(p)|
  {
    WirePosHolds(p, i);
    Wire(p)[WirePos(p, i) := b]
  }

  lemma UnescapeReplaced(x: seq<byte>, u: seq<byte>, b: byte, y: seq<byte>)
    requires (u == [b] && !IsMagic(b)) || u == [ESC, b]
    ensures Unescape(Escape(x) + (u + Escape(y))) == Some(x + ([b] + y))
  {
    UnescapeEscape(x);
    UnescapeEscape(y);
    assert u[|u|..] == [] && [b] + [] == [b];
    UnescapeConcat(u, Escape(y));
    UnescapeConcat(Escape(x), u + Escape(y));
  }

  lemma ReplaceLast(x: seq<byte>, e: seq<byte>, v: byte, b: byte, y: seq<byte>)
    ensures ([START] + (x + (e + [v] + y)) + [END])[1 + |x| + |e| := b]
         == [START] + (x + (e + [b] + y)) + [END]
  {
  }

  lemma CorruptedSplit(p: seq<byte>, i: nat, b: byte)
    requires i <= |p|
    ensures var c := Content(p);
            var u := if IsMagic(c[i]) then [ESC, b] else [b];
            Corrupted(p, i, b) == [START] + (Escape(c[..i]) + (u + Escape(c[i + 1..]))) + [END]
  {
    var c := Content(p);
    var e: seq<byte> := if IsMagic(c[i]) then [ESC] else [];
    var x, y, v := Escape(c[..i]), Escape(c[i + 1..]), c[i];
    WireSplit(p, i);
    assert EscapeByte(v) == e + [v];
    assert WirePos(p, i) == 1 + |x| + |e|;
    ReplaceLast(x, e, v, b, y);
    assert (if IsMagic(v) then [ESC, b] else [b]) == e + [b];
  }

  lemma {:induction false} RefusedSegment(bd: Bound, m: Core, w: seq<byte>, c: seq<byte>)
    requires Valid(bd, m) && m.state != InFrameEsc
    requires Unescape(w) == Some(c) && |c| <= bd.limit && (c == [] || Checksum(c) != 0)
    ensures var s := [START] + w + [END];
            && Outs(bd, m, s)[|s| - 1] == Error(BadMessage)
            && NoFrame(Outs(bd, m, s)) && QuietInside(Outs(bd, m, s))
            && (m.state == WaitHeader ==> Outs(bd, m, s)[0] == Quiet)
            && After(bd, m, s) == Idle
  {
    FeedSegment(bd, m, w);
    if c != [] { ChecksumZeroIff(c); }
  }

  lemma ContentIsZero(p: seq<byte>)
    ensures Checksum(Content(p)) == 0
  {
    ChecksumZeroIff(Content(p));
    assert Content(p)[..|p|] == p;
  }

  /** A corrupted frame is a readable segment whose content does not XOR to zero. */
  lemma {:induction false} CorruptedSegment(p: seq<byte>, i: nat, b: byte) returns (w: seq<byte>, c: seq<byte>)
    requires i <= |p| && b != Content(p)[i] && (IsMagic(Content(p)[i]) || !IsMagic(b))
    ensures Corrupted(p, i, b) == [START] + w + [END] && Unescape(w) == Some(c)
    ensures |c| == |p| + 1 && Checksum(c) != 0
  {
    c := Content(p);
    var u := if IsMagic(c[i]) then [ESC, b] else [b];
    w := Escape(c[..i]) + (u + Escape(c[i + 1..]));
    CorruptedSplit(p, i, b);
    UnescapeReplaced(c[..i], u, b, c[i + 1..]);
    assert c[..i] + ([b] + c[i + 1..]) == c[i := b];
    ContentIsZero(p);
    ChecksumDetects(c, i, b);
    c := c[i := b];
  }

  /** One content byte of a fitting frame changed on the line, without making or unmaking a
      reserved byte out of an unescaped one, is always detected: BAD_MESSAGE at the END, nothing
      delivered, and the receiver idle again. */
  lemma {:induction false} CorruptionDetected(bd: Bound, m: Core, p: seq<byte>, i: nat, b: byte)
    requires Valid(bd, m) && m.state != InFrameEsc && |p| + 1 <= bd.limit
    requires i <= |p| && b != Content(p)[i] && (IsMagic(Content(p)[i]) || !IsMagic(b))
    ensures var s := Corrupted(p, i, b);
            && Outs(bd, m, s)[|s| - 1] == Error(BadMessage)
            && NoFrame(Outs(bd, m, s))
            && After(bd, m, s) == Idle
  {
    var w, c := CorruptedSegment(p, i, b);
    RefusedSegment(bd, m, w, c);
  }

  /** From WaitHeader nothing else is reported. */
  lemma {:induction false} CorruptionOnlyReport(bd: Bound, p: seq<byte>, i: nat, b: byte)
    requires |p| + 1 <= bd.limit
    requires i <= |p| && b != Content(p)[i] && (IsMagic(Content(p)[i]) || !IsMagic(b))
    ensures var o := Outs(bd, Idle, Corrupted(p, i, b)); AllQuiet(o[..|o| - 1])
  {
    var w, c := CorruptedSegment(p, i, b);
    RefusedSegment(bd, Idle, w, c);
  }

  /** The exact reach of the checksum: a well-formed body that fits is refused at its END if and
      only if it is empty or the XOR of its content, checksum included, is not zero. */
  lemma {:induction false} RefusedIff(bd: Bound, m: Core, w: seq<byte>)
    requires Valid(bd, m) && m.state != InFrameEsc
    requires Unescape(w).Some? && |Unescape(w).value| <= bd.limit
    ensures var s := [START] + w + [END];
            var c := Unescape(w).value;
            Outs(bd, m, s)[|s| - 1] == Error(BadMessage) <==> c == [] || Checksum(c) != 0
  {
    FeedSegment(bd, m, w);
    if Unescape(w).value != [] { ChecksumZeroIff(Unescape(w).value); }
  }

  /** A START followed by an END at once is refused. */
  lemma StartEnd(bd: Bound)
    ensures Outs(bd, Idle, [0x10, 0xFF]) == [Quiet, Error(BadMessage)]
  {
    RunTwo(bd, Idle, START, END);
  }

  lemma QuietBeforeEnd(bd: Bound, p: seq<byte>, k: nat)
    requires |p| + 1 <= bd.limit && k < |Wire(p)| - 1
    ensures Outs(bd, Idle, Wire(p))[k] == Quiet
  {
    FeedWire(bd, Idle, p);
  }

  /** No frame is a proper prefix of another, and two payloads never share a frame. */
  lemma PrefixFree(p: seq<byte>, q: seq<byte>)
    requires Wire(p) <= Wire(q)
    ensures p == q
  {
    var bd, n := Bound(|p| + |q| + 1, TooBig), |Wire(p)| - 1;
    OutsPrefix(bd, Idle, Wire(q), n + 1);
    assert Wire(q)[..n + 1] == Wire(p);
    FeedWire(bd, Idle, p);
    assert Outs(bd, Idle, Wire(q))[n] == Outs(bd, Idle, Wire(q))[..n + 1][n] == Delivered(p);
    if n < |Wire(q)| - 1 { QuietBeforeEnd(bd, q, n); } else { FeedWire(bd, Idle, q); }
  }

  /** A delivered segment is what the encoder would have sent if and only if each of its ESCs
      protects a reserved byte. */
  lemma ReencodesIff(w: seq<byte>, f: seq<byte>)
    requires Unescape(w) == Some(Content(f))
    ensures Wire(f) == [START] + w + [END] <==> Canonical(w)
  {
    EscapeUnescapeIff(w);
    if Wire(f) == [START] + w + [END] {
      assert Wire(f)[1..|Wire(f)| - 1] == Escape(Content(f));
      assert ([START] + w + [END])[1..|w| + 1] == w;
    }
  }
}
