/** The other round trip: which buffers are reproduced by encoding what was decoded from them. */
module MessageReencode {
  import opened Bits
  import opened Types
  import opened LittleEndian
  import opened MessageFormat
  import opened MessageDecode
  import opened MessageRoundTrip

  /** The first value of a well-formed payload, with the bytes it takes. */
  ghost predicate Reads(word: Word, s: seq<byte>, v: Value, k: nat) {
    && DecodeValue(word, s) == Good(v, k) && k <= |s|
    && Proper(v) && Kept(v)
    && EncodeValue(v) == s[..k]
    && WellFormedArgs(s[k..])
  }

  lemma ScalarBytes(s: seq<byte>, k: nat, u: nat)
    requires 1 <= k <= |s| && ToLE(u, k - 1) == s[1..k]
    ensures [s[0]] + ToLE(u, k - 1) == s[..k]
  {
  }

  lemma ReadScalar(word: Word, s: seq<byte>) returns (v: Value, k: nat)
    requires s != [] && |s| < word.Modulus() && IsScalar(s[0]) && WellFormedArgs(s)
    ensures Reads(word, s, v, k)
  {
    k := 1 + TypeSize(s[0]);
    var u := FromLE(s[1..k]);
    ToFromLE(s[1..k]);
    BitsRoundTripBack(s[0], u);
    v := Scalar(s[0], FromBits(s[0], u));
    ScalarBytes(s, k, u);
  }

  lemma StrLenAt(s: seq<byte>, n: nat)
    requires n < |s| && s[n] == 0 && 0 !in s[..n]
    ensures StrLen(s) == Some(n)
  {
    StrLenOf(s[..n], s[n + 1..]);
    assert s == s[..n] + [0] + s[n + 1..];
  }

  lemma FieldSlices(s: seq<byte>, n: nat)
    requires 3 + n <= |s|
    ensures s[1..][..2] == s[1..3] && s[1..][2..] == s[3..]
    ensures s[1..][2..2 + n] == s[3..3 + n] && s[3..][..n] == s[3..3 + n]
  {
  }

  /** s starts with a string argument of n characters. */
  predicate StringHead(s: seq<byte>, n: nat) {
    4 + n <= |s| && s[0] == STRING && FromLE(s[1..3]) == n + 1 && s[3 + n] == 0 && 0 !in s[3..3 + n]
  }

  lemma StringDecodes(word: Word, s: seq<byte>, n: nat)
    requires |s| < word.Modulus() && StringHead(s, n)
    ensures DecodeValue(word, s) == Good(Str(s[3..3 + n]), 4 + n)
  {
    FieldSlices(s, n);
    StrLenAt(s[3..], n);
    StringOf(word, s[1..], n);
    StringArg(word, s, s[3..3 + n]);
  }

  lemma StringEncodes(s: seq<byte>, n: nat)
    requires StringHead(s, n)
    ensures n < UINT16_MAX && [STRING] + ToLE(n + 1, 2) + s[3..3 + n] + [0] == s[..4 + n]
  {
    ToFromLE(s[1..3]);
    assert Pow256(2) == 65536;
  }

  lemma ReadString(word: Word, s: seq<byte>) returns (v: Value, k: nat)
    requires s != [] && |s| < word.Modulus() && s[0] == STRING && WellFormedArgs(s)
    ensures Reads(word, s, v, k)
  {
    var n := FromLE(s[1..3]) - 1;
    StringDecodes(word, s, n);
    StringEncodes(s, n);
    v, k := Str(s[3..3 + n]), 4 + n;
  }

  lemma RawDecodes(word: Word, s: seq<byte>, n: nat)
    requires 3 + n <= |s| < word.Modulus() && s[0] == RAW && FromLE(s[1..3]) == n
    ensures DecodeValue(word, s) == Good(Raw(s[3..3 + n]), 3 + n)
  {
    FieldSlices(s, n);
    RawOf(word, s[1..], n);
    RawArg(word, s, s[3..3 + n]);
  }

  lemma RawEncodes(s: seq<byte>, n: nat)
    requires 3 + n <= |s| && s[0] == RAW && FromLE(s[1..3]) == n
    ensures n <= UINT16_MAX && [RAW] + ToLE(n, 2) + s[3..3 + n] == s[..3 + n]
  {
    ToFromLE(s[1..3]);
    assert Pow256(2) == 65536;
  }

  lemma ReadRaw(word: Word, s: seq<byte>) returns (v: Value, k: nat)
    requires s != [] && |s| < word.Modulus() && s[0] == RAW && WellFormedArgs(s)
    ensures Reads(word, s, v, k)
  {
    var n := FromLE(s[1..3]);
    RawDecodes(word, s, n);
    RawEncodes(s, n);
    v, k := Raw(s[3..3 + n]), 3 + n;
  }

  lemma ReadValue(word: Word, s: seq<byte>) returns (v: Value, k: nat)
    requires s != [] && |s| < word.Modulus() && WellFormedArgs(s)
    ensures Reads(word, s, v, k)
  {
    if IsScalar(s[0]) { v, k := ReadScalar(word, s); }
    else if s[0] == STRING { v, k := ReadString(word, s); }
    else { v, k := ReadRaw(word, s); }
  }

  ghost predicate AllKept(vs: seq<Value>) {
    forall i :: 0 <= i < |vs| ==> Proper(vs[i]) && Kept(vs[i])
  }

  lemma ParsePrepend(word: Word, s: seq<byte>, v: Value, k: nat, vs: seq<Value>)
    requires s != [] && |s| < word.Modulus() && Reads(word, s, v, k)
    requires ParseArgs(word, s[k..]) == Some(vs)
    ensures ParseArgs(word, s) == Some([v] + vs)
  {
  }

  lemma EncodePrepend(s: seq<byte>, v: Value, k: nat, vs: seq<Value>)
    requires k <= |s| && EncodeValue(v) == s[..k] && EncodeArgs(vs) == s[k..]
    ensures EncodeArgs([v] + vs) == s
  {
    EncodeArgsCons(v, vs);
    assert s == s[..k] + s[k..];
  }

  /** A well-formed payload parses, to values the encoder turns back into the same bytes. */
  lemma {:induction false} WellFormedReencodes(word: Word, s: seq<byte>)
    requires |s| < word.Modulus() && WellFormedArgs(s)
    ensures ParseArgs(word, s).Some?
    ensures var vs := ParseArgs(word, s).value; AllKept(vs) && EncodeArgs(vs) == s
    decreases |s|
  {
    if s != [] {
      var v, k := ReadValue(word, s);
      WellFormedReencodes(word, s[k..]);
      var vs := ParseArgs(word, s[k..]).value;
      ParsePrepend(word, s, v, k, vs);
      EncodePrepend(s, v, k, vs);
    }
  }

  /** The parts of an argument that carries its size. */
  lemma FieldAt(tag: byte, n: nat, d: seq<byte>, rest: seq<byte>)
    requires n == |d| <= UINT16_MAX
    ensures var b := [tag] + ToLE(n, 2) + d + rest;
            && |b| >= 3 + n && b[0] == tag && FromLE(b[1..3]) == n
            && b[3..3 + n] == d && b[3 + n..] == rest
            && (n > 0 ==> b[2 + n] == d[n - 1] && b[3..2 + n] == d[..n - 1])
  {
    var b := [tag] + ToLE(n, 2) + d + rest;
    assert b[1..3] == ToLE(n, 2);
    SizeField(n, []);
    assert ToLE(n, 2) + [] == ToLE(n, 2);
    assert b[3..3 + n] == d;
  }

  lemma PrependWellFormed(v: Value, s: seq<byte>)
    requires Proper(v) && Kept(v) && WellFormedArgs(s)
    ensures WellFormedArgs(EncodeValue(v) + s)
  {
    match v
    case Scalar(_, _) =>
      var e := EncodeValue(v);
      assert (e + s)[|e|..] == s;
    case Str(c) =>
      Assoc([STRING] + ToLE(|c| + 1, 2), c, [0]);
      FieldAt(STRING, |c| + 1, c + [0], s);
      assert (c + [0])[..|c|] == c;
    case Raw(d) => FieldAt(RAW, |d|, d, s);
  }

  /** What the encoder produces is well formed. */
  lemma {:induction false} EncodedIsWellFormed(vs: seq<Value>)
    requires AllProper(vs)
    ensures WellFormedArgs(EncodeArgs(vs))
  {
    if vs != [] {
      var v, rest := vs[0], vs[1..];
      EncodedIsWellFormed(rest);
      assert vs == [v] + rest;
      EncodeArgsCons(v, rest);
      if Kept(v) { PrependWellFormed(v, EncodeArgs(rest)); } else { assert [] + EncodeArgs(rest) == EncodeArgs(rest); }
    }
  }

  // ---- The round trip -------------------------------------------------------------------

  /** A fresh message that can grow. */
  ghost predicate Fresh(word: Word, m: Msg) {
    ValidMsg(word, m) && Cleared(m) && !m.fixed
  }

  /** b builds into m, and encoding the result is defined and gives b back. */
  ghost predicate Reproduced(word: Word, m: Msg, b: seq<byte>)
    requires Fresh(word, m)
  {
    var (r, status) := Build(word, m, b);
    && status == Ok && AllReadable(r.values)
    && |EncodeArgs(r.values)| < Pow256(4)
    && EncodeMessage(r.id, r.values) == b
  }

  lemma {:induction false} EncodeEmpty(n: nat)
    ensures EncodeArgs(Empty(n)) == []
    decreases n
  {
    if n > 0 {
      assert Empty(n)[..n - 1] == Empty(n - 1);
      EncodeEmpty(n - 1);
    }
  }

  lemma LittleEndianOf(x: seq<byte>, w: nat)
    requires |x| == w
    ensures ToLE(FromLE(x), w) == x && FromLE(x) < Pow256(w)
  {
    ToFromLE(x);
  }

  lemma RejoinHeader(b: seq<byte>, x: seq<byte>, y: seq<byte>, z: seq<byte>)
    requires |b| >= 8 && x == b[..4] && y == b[4..8] && z == b[8..]
    ensures x + y + z == b
  {
  }

  lemma EncodedFromParts(b: seq<byte>, id: nat, n: nat, vs: seq<Value>)
    requires |b| >= 8 && ToLE(id, 4) == b[..4] && ToLE(n, 4) == b[4..8]
    requires EncodeArgs(vs) == b[8..] && |EncodeArgs(vs)| == n < Pow256(4)
    ensures EncodeMessage(id, vs) == b
  {
    RejoinHeader(b, ToLE(id, 4), ToLE(n, 4), EncodeArgs(vs));
  }

  lemma {:induction false} AllAreKept(vs: seq<Value>)
    requires AllKept(vs)
    ensures KeptOf(vs) == vs
  {
    if vs != [] {
      AllAreKept(vs[..|vs| - 1]);
      assert vs == vs[..|vs| - 1] + [vs[|vs| - 1]];
    }
  }

  lemma {:induction false} HeaderOfWellFormed(b: seq<byte>)
    requires WellFormed(b)
    ensures FromLE(b[..4]) < Pow256(4) && ToLE(FromLE(b[..4]), 4) == b[..4]
    ensures |b| - 8 < Pow256(4) && ToLE(|b| - 8, 4) == b[4..8]
  {
    LittleEndianOf(b[..4], 4);
    LittleEndianOf(b[4..8], 4);
  }

  /** A well-formed buffer is the encoding of the values in it. */
  lemma WellFormedIsEncoded(word: Word, b: seq<byte>) returns (id: nat, vs: seq<Value>)
    requires |b| < word.Modulus() && WellFormed(b)
    ensures AllKept(vs) && id < Pow256(4) && |EncodeArgs(vs)| < Pow256(4)
    ensures EncodeMessage(id, vs) == b
  {
    WellFormedReencodes(word, b[8..]);
    vs := ParseArgs(word, b[8..]).value;
    id := FromLE(b[..4]);
    HeaderOfWellFormed(b);
    EncodedFromParts(b, id, |b| - 8, vs);
  }

  lemma ReadablePadded(vs: seq<Value>, n: nat)
    requires AllKept(vs)
    ensures AllReadable(vs + Empty(n)) && EncodeArgs(vs + Empty(n)) == EncodeArgs(vs)
  {
    EncodeArgsConcat(vs, Empty(n));
    EncodeEmpty(n);
  }

  lemma WellFormedIsReproduced(word: Word, m: Msg, b: seq<byte>)
    requires Fresh(word, m) && |b| < word.Modulus() && WellFormed(b)
    ensures Reproduced(word, m, b)
  {
    var id, vs := WellFormedIsEncoded(word, b);
    AllAreKept(vs);
    RoundTrip(word, m, id, vs);
    var r := Build(word, m, b).0;
    ReadablePadded(vs, |r.values| - |vs|);
  }

  lemma EncodedMessageIsWellFormed(id: nat, vs: seq<Value>)
    requires AllProper(vs) && |EncodeArgs(vs)| < Pow256(4)
    ensures WellFormed(EncodeMessage(id, vs))
  {
    SplitHeader(ToLE(id, 4), ToLE(|EncodeArgs(vs)|, 4), EncodeArgs(vs));
    FromToLE(|EncodeArgs(vs)|, 4);
    EncodedIsWellFormed(vs);
  }

  /** Exactly the buffers of the documented grammar survive decoding and encoding byte for byte. */
  lemma ReproducedIff(word: Word, m: Msg, b: seq<byte>)
    requires Fresh(word, m) && |b| < word.Modulus()
    ensures Reproduced(word, m, b) <==> WellFormed(b)
  {
    if WellFormed(b) {
      WellFormedIsReproduced(word, m, b);
    } else if Reproduced(word, m, b) {
      var r := Build(word, m, b).0;
      EncodedMessageIsWellFormed(r.id, r.values);
    }
  }
}
