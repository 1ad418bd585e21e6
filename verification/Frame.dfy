/** The wire format of a serial frame: START, the escaped payload and checksum, END. */
module Frame {
  import opened Bits
  import opened Types

  const START: byte := 0x10
  const END: byte := 0xFF
  const ESC: byte := 0x1B

  predicate IsMagic(b: byte) {
    b == START || b == END || b == ESC
  }

  /** The XOR of all bytes. */
  function Checksum(s: seq<byte>): byte {
    if s == [] then 0 else XorByte(Checksum(s[..|s| - 1]), s[|s| - 1])
  }

  function EscapeByte(b: byte): seq<byte> {
    if IsMagic(b) then [ESC, b] else [b]
  }

  function Escape(s: seq<byte>): seq<byte> {
    if s == [] then [] else Escape(s[..|s| - 1]) + EscapeByte(s[|s| - 1])
  }

  /** The payload followed by its checksum: what a receiver collects before END. */
  function Content(p: seq<byte>): seq<byte> {
    p + [Checksum(p)]
  }

  /** The bytes sent for the payload p. */
  function Wire(p: seq<byte>): seq<byte> {
    [START] + Escape(Content(p)) + [END]
  }

  function MagicCount(s: seq<byte>): (n: nat)
    ensures n <= |s|
  {
    if s == [] then 0 else MagicCount(s[..|s| - 1]) + (if IsMagic(s[|s| - 1]) then 1 else 0)
  }

  function Prepend(s: seq<byte>, rest: Option<seq<byte>>): Option<seq<byte>> {
    match rest
    case None => None
    case Some(t) => Some(s + t)
  }

  /** The documented grammar, read from the left: a body holds no bare START or END, and an ESC
      is always followed by the byte it protects. The value is the body's content. */
  function Unescape(w: seq<byte>): Option<seq<byte>> {
    if w == [] then Some([])
    else if w[0] == ESC then
      if |w| < 2 then None else Prepend([w[1]], Unescape(w[2..]))
    else if IsMagic(w[0]) then None
    else Prepend([w[0]], Unescape(w[1..]))
  }

  /** Every ESC of the body protects a byte that needs it. */
  predicate Canonical(w: seq<byte>) {
    if w == [] then true
    else if w[0] == ESC then |w| >= 2 && IsMagic(w[1]) && Canonical(w[2..])
    else Canonical(w[1..])
  }

  // ---- Escaping -------------------------------------------------------------------------

  lemma {:induction false} EscapeConcat(s: seq<byte>, t: seq<byte>)
    ensures Escape(s + t) == Escape(s) + Escape(t)
    decreases |t|
  {
    if t == [] {
      assert s + t == s;
    } else {
      var n := |t| - 1;
      assert (s + t)[..|s + t| - 1] == s + t[..n];
      EscapeConcat(s, t[..n]);
    }
  }

  lemma EscapeOne(b: byte)
    ensures Escape([b]) == EscapeByte(b)
  {
    assert [b][..0] == [];
  }

  lemma {:induction false} EscapeCons(b: byte, s: seq<byte>)
    ensures Escape([b] + s) == EscapeByte(b) + Escape(s)
  {
    EscapeConcat([b], s);
    EscapeOne(b);
  }

  lemma PrependTwice(s: seq<byte>, t: seq<byte>, rest: Option<seq<byte>>)
    ensures Prepend(s, Prepend(t, rest)) == Prepend(s + t, rest)
  {
    match rest
    case None =>
    case Some(r) => assert s + (t + r) == (s + t) + r;
  }

  lemma {:induction false} UnescapeConcat(w: seq<byte>, v: seq<byte>)
    requires Unescape(w).Some?
    ensures Unescape(w + v) == Prepend(Unescape(w).value, Unescape(v))
    decreases |w|
  {
    if w == [] {
      assert w + v == v;
      match Unescape(v) { case None => case Some(r) => assert [] + r == r; }
    } else {
      var k := if w[0] == ESC then 2 else 1;
      assert (w + v)[k..] == w[k..] + v;
      UnescapeConcat(w[k..], v);
      PrependTwice([w[k - 1]], Unescape(w[k..]).value, Unescape(v));
    }
  }

  lemma UnescapeEscapedByte(b: byte)
    ensures Unescape(EscapeByte(b)) == Some([b])
  {
    var e := EscapeByte(b);
    assert e[|e|..] == [];
    assert [b] + [] == [b];
  }

  /** Unescaping inverts escaping. */
  lemma {:induction false} UnescapeEscape(s: seq<byte>)
    ensures Unescape(Escape(s)) == Some(s)
  {
    if s != [] {
      var n := |s| - 1;
      UnescapeEscape(s[..n]);
      UnescapeConcat(Escape(s[..n]), EscapeByte(s[n]));
      UnescapeEscapedByte(s[n]);
      assert s[..n] + [s[n]] == s;
    }
  }

  /** Escaping inverts unescaping exactly on the canonical bodies. */
  lemma {:induction false} EscapeUnescapeIff(w: seq<byte>)
    requires Unescape(w).Some?
    ensures Escape(Unescape(w).value) == w <==> Canonical(w)
    decreases |w|
  {
    if w != [] {
      var k := if w[0] == ESC then 2 else 1;
      var rest := Unescape(w[k..]).value;
      EscapeUnescapeIff(w[k..]);
      EscapeCons(w[k - 1], rest);
      var e := EscapeByte(w[k - 1]) + Escape(rest);
      if IsMagic(w[k - 1]) || k == 1 {
        assert |EscapeByte(w[k - 1])| == k && e[..k] == EscapeByte(w[k - 1]) == w[..k];
        assert e[k..] == Escape(rest);
        assert w == w[..k] + w[k..];
        assert e == e[..k] + e[k..];
      } else {
        assert e[0] != ESC;
      }
    }
  }

  // ---- Length ---------------------------------------------------------------------------

  lemma {:induction false} EscapeLength(s: seq<byte>)
    ensures |Escape(s)| == |s| + MagicCount(s)
  {
    if s != [] { EscapeLength(s[..|s| - 1]); }
  }

  /** A frame takes 3 + |p| bytes, one more for each reserved byte of the payload, and one more
      for a reserved checksum. */
  lemma WireLength(p: seq<byte>)
    ensures |Wire(p)| == 3 + |p| + MagicCount(p) + (if IsMagic(Checksum(p)) then 1 else 0)
    ensures |Wire(p)| <= 2 * |p| + 4
  {
    EscapeLength(Content(p));
    assert Content(p)[..|p|] == p;
  }

  // ---- Checksum -------------------------------------------------------------------------

  /** Content is what ends in the checksum of the rest, which is what XORs to zero. */
  lemma {:induction false} ChecksumZeroIff(c: seq<byte>)
    requires c != []
    ensures Checksum(c) == 0 <==> c[|c| - 1] == Checksum(c[..|c| - 1])
    ensures Checksum(c) == 0 <==> c == Content(c[..|c| - 1])
  {
    var n := |c| - 1;
    XorZero(Checksum(c[..n]), c[n]);
    assert c == c[..n] + [c[n]];
  }

  /** Changing one byte always changes the checksum. */
  lemma {:induction false} ChecksumDetects(s: seq<byte>, i: nat, b: byte)
    requires i < |s| && b != s[i]
    ensures Checksum(s[i := b]) != Checksum(s)
  {
    var n := |s| - 1;
    var t := s[i := b];
    if i == n {
      assert t[..n] == s[..n];
      if Checksum(t) == Checksum(s) { XorInjective(s[n], b, Checksum(s[..n])); }
    } else {
      assert t[..n] == s[..n][i := b];
      ChecksumDetects(s[..n], i, b);
      if Checksum(t) == Checksum(s) { XorInjective(Checksum(s[..n]), Checksum(t[..n]), s[n]); }
    }
  }
}
