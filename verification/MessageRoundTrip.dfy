/** Encoding and decoding of messages invert each other. */
module MessageRoundTrip {
  import opened Bits
  import opened Types
  import opened LittleEndian
  import opened MessageFormat
  import opened MessageDecode
  import opened MessageBuild

  // ---- One value ------------------------------------------------------------------------

  lemma HalfPow256(w: nat)
    requires w >= 1
    ensures Pow256(w) == 2 * (Pow256(w) / 2)
  {
    var p := Pow256(w - 1);
    assert Pow256(w) == 256 * p;
    assert (256 * p) / 2 == 128 * p;
  }

  lemma ModInRange(n: int, p: nat)
    requires 0 < p && 0 <= n + p && n < p
    ensures n % p == if n < 0 then n + p else n
  {
  }

  lemma BitsRoundTrip(tag: byte, n: int)
    requires InRange(tag, n)
    ensures FromBits(tag, ToBits(tag, n)) == n
  {
    HalfPow256(TypeSize(tag));
    ModInRange(n, Pow256(TypeSize(tag)));
  }

  lemma BitsRoundTripBack(tag: byte, u: nat)
    requires IsScalar(tag) && u < Pow256(TypeSize(tag))
    ensures InRange(tag, FromBits(tag, u)) && ToBits(tag, FromBits(tag, u)) == u
  {
    HalfPow256(TypeSize(tag));
    ModInRange(FromBits(tag, u), Pow256(TypeSize(tag)));
  }

  lemma DecodeEncodedScalar(word: Word, v: Value, rest: seq<byte>)
    requires v.Scalar? && Proper(v) && |EncodeValue(v) + rest| < word.Modulus()
    ensures DecodeValue(word, EncodeValue(v) + rest) == Good(v, |EncodeValue(v)|)
  {
    var u, w := ToBits(v.tag, v.n), TypeSize(v.tag);
    var b := EncodeValue(v) + rest;
    assert b[1..1 + w] == ToLE(u, w);
    FromToLE(u, w);
    BitsRoundTrip(v.tag, v.n);
  }

  /** The size field and the data behind it, as they follow the type byte. */
  lemma SizeField(n: nat, rest: seq<byte>)
    requires n <= UINT16_MAX
    ensures var b := ToLE(n, 2) + rest; b[..2] == ToLE(n, 2) && FromLE(b[..2]) == n && b[2..] == rest
  {
    assert Pow256(2) == 65536;
    FromToLE(n, 2);
  }

  lemma {:induction false} StrLenOf(c: seq<byte>, rest: seq<byte>)
    requires 0 !in c
    ensures StrLen(c + [0] + rest) == Some(|c|)
  {
    var s := c + [0] + rest;
    if c != [] {
      assert s[1..] == c[1..] + [0] + rest;
      StrLenOf(c[1..], rest);
    }
  }

  lemma StringOf(word: Word, b: seq<byte>, n: nat)
    requires n + 3 <= |b| < word.Modulus() && FromLE(b[..2]) == n + 1
    requires b[n + 2] == 0 && StrLen(b[2..]) == Some(n)
    ensures DecodeString(word, b) == Data(b[2..2 + n])
  {
  }

  lemma {:induction false} DecodeEncodedString(word: Word, c: seq<byte>, rest: seq<byte>)
    requires 0 !in c && |c| < UINT16_MAX && |c| + |rest| + 3 < word.Modulus()
    ensures DecodeString(word, ToLE(|c| + 1, 2) + (c + [0] + rest)) == Data(c)
  {
    var t := c + [0] + rest;
    SizeField(|c| + 1, t);
    StrLenOf(c, rest);
    StringOf(word, ToLE(|c| + 1, 2) + t, |c|);
    assert (ToLE(|c| + 1, 2) + t)[2..2 + |c|] == c;
  }

  lemma RawOf(word: Word, b: seq<byte>, n: nat)
    requires n + 2 <= |b| < word.Modulus() && FromLE(b[..2]) == n
    ensures DecodeRaw(word, b) == Data(b[2..2 + n])
  {
  }

  lemma {:induction false} DecodeEncodedRaw(word: Word, d: seq<byte>, rest: seq<byte>)
    requires |d| <= UINT16_MAX && |d| + |rest| + 2 < word.Modulus()
    ensures DecodeRaw(word, ToLE(|d|, 2) + (d + rest)) == Data(d)
  {
    SizeField(|d|, d + rest);
    RawOf(word, ToLE(|d|, 2) + (d + rest), |d|);
    assert (ToLE(|d|, 2) + (d + rest))[2..2 + |d|] == d;
  }

  lemma Assoc(x: seq<byte>, y: seq<byte>, z: seq<byte>)
    ensures x + (y + z) == (x + y) + z
  {
  }

  lemma SplitField(tag: byte, n: nat, d: seq<byte>, rest: seq<byte>)
    ensures var b := [tag] + ToLE(n, 2) + d + rest;
            b[0] == tag && b[1..] == ToLE(n, 2) + (d + rest)
  {
  }

  lemma StringArg(word: Word, b: seq<byte>, c: seq<byte>)
    requires 4 <= |b| < word.Modulus() && b[0] == STRING && DecodeString(word, b[1..]) == Data(c)
    ensures DecodeValue(word, b) == Good(Str(c), 4 + |c|)
  {
  }

  lemma RawArg(word: Word, b: seq<byte>, d: seq<byte>)
    requires 3 <= |b| < word.Modulus() && b[0] == RAW && DecodeRaw(word, b[1..]) == Data(d)
    ensures DecodeValue(word, b) == Good(Raw(d), 3 + |d|)
  {
  }

  lemma {:induction false} DecodeEncodedStr(word: Word, c: seq<byte>, rest: seq<byte>)
    requires 0 !in c && |c| < UINT16_MAX && |c| + |rest| + 4 < word.Modulus()
    ensures DecodeValue(word, [STRING] + ToLE(|c| + 1, 2) + (c + [0]) + rest) == Good(Str(c), |c| + 4)
  {
    SplitField(STRING, |c| + 1, c + [0], rest);
    DecodeEncodedString(word, c, rest);
    StringArg(word, [STRING] + ToLE(|c| + 1, 2) + (c + [0]) + rest, c);
  }

  lemma {:induction false} DecodeEncodedBytes(word: Word, d: seq<byte>, rest: seq<byte>)
    requires |d| <= UINT16_MAX && |d| + |rest| + 3 < word.Modulus()
    ensures DecodeValue(word, [RAW] + ToLE(|d|, 2) + d + rest) == Good(Raw(d), |d| + 3)
  {
    SplitField(RAW, |d|, d, rest);
    DecodeEncodedRaw(word, d, rest);
    RawArg(word, [RAW] + ToLE(|d|, 2) + d + rest, d);
  }

  /** Whatever follows it, an encoded value decodes to itself and takes its own length. */
  lemma DecodeEncodedValue(word: Word, v: Value, rest: seq<byte>)
    requires Proper(v) && Kept(v) && |EncodeValue(v) + rest| < word.Modulus()
    ensures DecodeValue(word, EncodeValue(v) + rest) == Good(v, |EncodeValue(v)|)
  {
    match v
    case Scalar(_, _) => DecodeEncodedScalar(word, v, rest);
    case Str(c) =>
      Assoc([STRING] + ToLE(|c| + 1, 2), c, [0]);
      DecodeEncodedStr(word, c, rest);
    case Raw(d) => DecodeEncodedBytes(word, d, rest);
  }

  // ---- A payload ------------------------------------------------------------------------

  lemma {:induction false} EncodeArgsConcat(u: seq<Value>, v: seq<Value>)
    ensures EncodeArgs(u + v) == EncodeArgs(u) + EncodeArgs(v)
    decreases |v|
  {
    if v == [] {
      assert u + v == u;
    } else {
      assert (u + v)[..|u + v| - 1] == u + v[..|v| - 1];
      EncodeArgsConcat(u, v[..|v| - 1]);
      Assoc(EncodeArgs(u), EncodeArgs(v[..|v| - 1]), EncodeValue(v[|v| - 1]));
    }
  }

  lemma {:induction false} KeptOfConcat(u: seq<Value>, v: seq<Value>)
    ensures KeptOf(u + v) == KeptOf(u) + KeptOf(v)
    decreases |v|
  {
    if v == [] {
      assert u + v == u;
    } else {
      assert (u + v)[..|u + v| - 1] == u + v[..|v| - 1];
      KeptOfConcat(u, v[..|v| - 1]);
    }
  }

  lemma EncodeArgsOne(v: Value)
    ensures EncodeArgs([v]) == EncodeValue(v)
    ensures KeptOf([v]) == if Kept(v) then [v] else []
  {
    assert [v][..0] == [];
  }

  lemma EncodeArgsCons(v: Value, vs: seq<Value>)
    ensures EncodeArgs([v] + vs) == EncodeValue(v) + EncodeArgs(vs)
    ensures KeptOf([v] + vs) == (if Kept(v) then [v] else []) + KeptOf(vs)
  {
    EncodeArgsConcat([v], vs);
    KeptOfConcat([v], vs);
    EncodeArgsOne(v);
  }

  /** Parsing the encoding of any slots yields the values kept, in order. */
  lemma {:induction false} ParseEncoded(word: Word, vs: seq<Value>)
    requires AllProper(vs) && |EncodeArgs(vs)| < word.Modulus()
    ensures ParseArgs(word, EncodeArgs(vs)) == Some(KeptOf(vs))
  {
    if vs != [] {
      var v, rest := vs[0], vs[1..];
      assert vs == [v] + rest;
      EncodeArgsCons(v, rest);
      ParseEncoded(word, rest);
      var b := EncodeValue(v) + EncodeArgs(rest);
      if Kept(v) {
        DecodeEncodedValue(word, v, EncodeArgs(rest));
        assert b[|EncodeValue(v)|..] == EncodeArgs(rest);
      } else {
        assert b == EncodeArgs(rest) && [] + KeptOf(rest) == KeptOf(rest);
      }
    }
  }

  // ---- Messages -------------------------------------------------------------------------

  ghost predicate Cleared(m: Msg) {
    |m.values| >= 1 && m.values == Empty(|m.values|)
  }

  lemma SplitHeader(x: seq<byte>, y: seq<byte>, z: seq<byte>)
    requires |x| == |y| == 4
    ensures var b := x + y + z; b[..4] == x && b[4..8] == y && b[8..] == z
  {
  }

  lemma DemandExact(word: Word, n: nat)
    requires n < Pow256(4) && HEADER_SIZE + n < word.Modulus()
    ensures HeaderDemand(word, n) == HEADER_SIZE + n
  {
  }

  /** The header of an encoded message reads back as it was written. */
  lemma HeaderRoundTrip(word: Word, id: nat, vs: seq<Value>)
    requires |EncodeArgs(vs)| < Pow256(4) && id < Pow256(4)
    requires |EncodeMessage(id, vs)| < word.Modulus()
    ensures var b := EncodeMessage(id, vs);
            && |b| == HEADER_SIZE + |EncodeArgs(vs)|
            && FromLE(b[..4]) == id && FromLE(b[4..8]) == |EncodeArgs(vs)|
            && HeaderDemand(word, |EncodeArgs(vs)|) == |b|
            && b[HEADER_SIZE..] == EncodeArgs(vs)
  {
    SplitHeader(ToLE(id, 4), ToLE(|EncodeArgs(vs)|, 4), EncodeArgs(vs));
    FromToLE(id, 4);
    FromToLE(|EncodeArgs(vs)|, 4);
    DemandExact(word, |EncodeArgs(vs)|);
  }

  /** A successful build of any buffer is its header's id over the overlay of its payload. */
  lemma BuildIff(word: Word, m: Msg, b: seq<byte>)
    requires ValidMsg(word, m) && |m.values| >= 1 && HEADER_SIZE <= |b| < word.Modulus()
    ensures FromLE(b[4..8]) < Pow256(4)
    ensures Build(word, m, b).1 == Ok <==>
            && |b| >= HeaderDemand(word, FromLE(b[4..8]))
            && ParseArgs(word, b[8..]).Some?
            && (m.fixed ==> |ParseArgs(word, b[8..]).value| <= |m.values|)
    ensures Build(word, m, b).1 == Ok ==>
            var vs := ParseArgs(word, b[8..]).value;
            var cap := FinalCapacity(m.fixed, |m.values|, |vs|);
            |vs| <= cap && Build(word, m, b).0 == Msg(FromLE(b[..4]), Overlay(m.values, cap, 0, vs), m.fixed)
  {
    ToFromLE(b[4..8]);
    match ParseArgs(word, b[8..])
    case None => BuildArgsRefused(word, m.fixed, m.values, 0, b[8..]);
    case Some(vs) => BuildArgsParsed(word, m.fixed, m.values, 0, b[8..], vs);
  }

  lemma OverlayCleared(m: Msg, cap: nat, k: seq<Value>)
    requires Cleared(m) && |m.values| <= cap && |k| <= cap
    ensures Overlay(m.values, cap, 0, k) == k + Empty(cap - |k|)
  {
  }

  lemma BuildEncoded(word: Word, m: Msg, id: nat, vs: seq<Value>)
    requires ValidMsg(word, m) && |EncodeArgs(vs)| < Pow256(4) && id < Pow256(4)
    requires |EncodeMessage(id, vs)| < word.Modulus()
    ensures var r := BuildArgs(word, m.fixed, m.values, 0, EncodeArgs(vs));
            Build(word, m, EncodeMessage(id, vs)) == (Msg(id, r.values, m.fixed), r.status)
  {
    HeaderRoundTrip(word, id, vs);
  }

  /** What a message built from k must look like. */
  ghost predicate Holds(m: Msg, id: nat, k: seq<Value>) {
    m.id == id && |k| <= |m.values| && m.values == k + Empty(|m.values| - |k|)
  }

  /** Building a cleared message from the encoding of any other gives the same id and exactly the
      values kept, in order, in the first slots, with nothing after them; a message that cannot
      grow and has too few slots is refused with TOO_BIG. */
  lemma {:induction false} RoundTrip(word: Word, m: Msg, id: nat, vs: seq<Value>)
    requires ValidMsg(word, m) && Cleared(m)
    requires AllProper(vs) && |EncodeArgs(vs)| < Pow256(4) && id < Pow256(4)
    requires |EncodeMessage(id, vs)| < word.Modulus()
    ensures var (r, status) := Build(word, m, EncodeMessage(id, vs));
            if m.fixed && |KeptOf(vs)| > |m.values| then status == Failed(TooBig)
            else status == Ok && Holds(r, id, KeptOf(vs)) && |r.values| == FinalCapacity(m.fixed, |m.values|, |KeptOf(vs)|)
  {
    BuildEncoded(word, m, id, vs);
    ParseEncoded(word, vs);
    var k := KeptOf(vs);
    BuildArgsParsed(word, m.fixed, m.values, 0, EncodeArgs(vs), k);
    var cap := FinalCapacity(m.fixed, |m.values|, |k|);
    if |k| <= cap { OverlayCleared(m, cap, k); }
  }

  lemma {:induction false} KeptAreValues(vs: seq<Value>)
    ensures forall i :: 0 <= i < |KeptOf(vs)| ==> KeptOf(vs)[i] != NoValue
  {
    if vs != [] { KeptAreValues(vs[..|vs| - 1]); }
  }

  /** So n_args of the message received is the number of values kept by the sender. */
  lemma ArgsOfReceived(m: Msg, id: nat, vs: seq<Value>)
    requires Holds(m, id, KeptOf(vs))
    ensures CountArgs(m.values) == |KeptOf(vs)|
  {
    KeptAreValues(vs);
    CountArgsIs(m.values, |KeptOf(vs)|);
  }
}
