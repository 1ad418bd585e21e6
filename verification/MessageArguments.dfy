/** What one decoding step yields, for every buffer: the argument that stands there, an argument
    without data, or a failure. Together with BeyondIff these cases are all there are. */
module MessageArguments {
  import opened Bits
  import opened Types
  import opened LittleEndian
  import opened MessageFormat
  import opened MessageDecode
  import opened MessageBuild
  import opened MessageRoundTrip

  /** s starts with the C string c. */
  predicate StartsWithString(s: seq<byte>, c: seq<byte>) {
    |c| < |s| && s[..|c|] == c && s[|c|] == 0 && 0 !in c
  }

  lemma StrLenIff(s: seq<byte>, c: seq<byte>)
    ensures StartsWithString(s, c) <==> StrLen(s) == Some(|c|) && c == s[..|c|]
  {
    if StartsWithString(s, c) {
      StrLenOf(c, s[|c| + 1..]);
      assert s == c + [0] + s[|c| + 1..];
    }
  }

  /** String data is the C string after the size, provided the declared size is there and ends
      in a NUL. */
  lemma DecodeStringIff(word: Word, b: seq<byte>, c: seq<byte>)
    requires |b| < word.Modulus()
    ensures DecodeString(word, b) == Data(c) <==>
            && 2 <= |b| && FromLE(b[..2]) + 2 <= |b| && b[FromLE(b[..2]) + 1] == 0
            && StartsWithString(b[2..], c)
  {
    if |b| >= 2 {
      ToFromLE(b[..2]);
      SizeBytes(b[..2]);
      StrLenIff(b[2..], c);
    }
  }

  /** Raw data is what the size declares, provided it is there. */
  lemma DecodeRawIff(word: Word, b: seq<byte>, d: seq<byte>)
    requires |b| < word.Modulus()
    ensures DecodeRaw(word, b) == Data(d) <==>
            2 <= |b| && FromLE(b[..2]) + 2 <= |b| && d == b[2..2 + FromLE(b[..2])]
  {
    if |b| >= 2 {
      ToFromLE(b[..2]);
    }
  }

  lemma {:induction false} NumberStands(word: Word, b: seq<byte>, v: Value)
    requires |b| < word.Modulus() && v.Scalar? && Proper(v) && EncodeValue(v) <= b
    ensures DecodeValue(word, b) == Good(v, |EncodeValue(v)|)
  {
    var k := |EncodeValue(v)|;
    DecodeEncodedScalar(word, v, b[k..]);
    assert EncodeValue(v) + b[k..] == b;
  }

  lemma {:induction false} NumberDecoded(word: Word, b: seq<byte>, v: Value, k: nat)
    requires |b| < word.Modulus() && v.Scalar? && DecodeValue(word, b) == Good(v, k)
    ensures Proper(v) && EncodeValue(v) <= b && k == |EncodeValue(v)|
  {
    ToFromLE(b[1..k]);
    BitsRoundTripBack(v.tag, FromLE(b[1..k]));
    assert [b[0]] + b[1..k] == b[..k];
  }

  /** A number is decoded if and only if its encoding stands there. */
  lemma {:induction false} NumberIff(word: Word, b: seq<byte>, v: Value, k: nat)
    requires |b| < word.Modulus() && v.Scalar?
    ensures DecodeValue(word, b) == Good(v, k) <==> Proper(v) && EncodeValue(v) <= b && k == |EncodeValue(v)|
  {
    if DecodeValue(word, b) == Good(v, k) {
      NumberDecoded(word, b, v, k);
    } else if Proper(v) && EncodeValue(v) <= b {
      NumberStands(word, b, v);
    }
  }

  lemma FieldOf(b: seq<byte>)
    requires 3 <= |b|
    ensures b[1..][..2] == b[1..3] && b[1..][2..] == b[3..]
  {
  }

  /** The declared size of a string or raw argument. */
  function ArgumentSize(b: seq<byte>): nat
    requires 3 <= |b|
  {
    FromLE(b[1..3])
  }

  /** A string is decoded if and only if the declared bytes are there and end in a NUL; its
      characters are those up to the first NUL, and only they are consumed. */
  lemma StringIff(word: Word, b: seq<byte>, c: seq<byte>, k: nat)
    requires |b| < word.Modulus()
    ensures DecodeValue(word, b) == Good(Str(c), k) <==>
            && 4 <= |b| && b[0] == STRING && k == 4 + |c|
            && ArgumentSize(b) + 3 <= |b| && b[ArgumentSize(b) + 2] == 0
            && StartsWithString(b[3..], c)
  {
    if |b| >= 4 {
      FieldOf(b);
      DecodeStringIff(word, b[1..], c);
    }
  }

  /** Raw data is decoded if and only if the declared bytes are there. */
  lemma RawIff(word: Word, b: seq<byte>, d: seq<byte>, k: nat)
    requires |b| < word.Modulus()
    ensures DecodeValue(word, b) == Good(Raw(d), k) <==>
            && 3 <= |b| && b[0] == RAW && k == 3 + |d|
            && ArgumentSize(b) + 3 <= |b| && d == b[3..3 + ArgumentSize(b)]
  {
    if |b| >= 3 {
      FieldOf(b);
      DecodeRawIff(word, b[1..], d);
      assert ArgumentSize(b) + 3 <= |b| ==> b[1..][2..2 + ArgumentSize(b)] == b[3..3 + ArgumentSize(b)];
    }
  }

  /** A string whose declared bytes are not there, or do not end in a NUL, becomes a NULL string of
      four bytes (but for the 16-bit size that wraps, see BeyondIff). */
  lemma NullStringIff(word: Word, b: seq<byte>, k: nat)
    requires |b| < word.Modulus()
    ensures DecodeValue(word, b) == Good(NullStr, k) <==>
            && 4 <= |b| && b[0] == STRING && k == 4
            && (ArgumentSize(b) + 3 > |b| || b[ArgumentSize(b) + 2] != 0)
            && !(word == Word16 && ArgumentSize(b) == 0xFFFE)
  {
    if |b| >= 4 && b[0] == STRING {
      FieldOf(b);
      ToFromLE(b[1..3]);
      SizeBytes(b[1..3]);
      BeyondIff(word, b);
      if DecodeString(word, b[1..]).Data? {
        DecodeStringIff(word, b[1..], DecodeString(word, b[1..]).bytes);
      }
    }
  }

  /** A raw argument whose declared bytes are not there becomes a slot without data, of three
      bytes (but for the 16-bit sizes that wrap, see BeyondIff). */
  lemma EmptyRawIff(word: Word, b: seq<byte>, t: byte, k: nat)
    requires |b| < word.Modulus()
    ensures DecodeValue(word, b) == Good(Leftover(t), k) <==>
            && 3 <= |b| && b[0] == t == RAW && k == 3 && ArgumentSize(b) + 3 > |b|
            && !(word == Word16 && ArgumentSize(b) >= 0xFFFE && |b| - 1 >= ArgumentSize(b) - 0xFFFE)
  {
    if |b| >= 3 {
      FieldOf(b);
      ToFromLE(b[1..3]);
    }
  }

  /** Decoding fails if and only if there are fewer than two bytes, the type is unknown, or the
      shortest form of the type is not there. With two bytes or more the slot then has the type
      that was read, which is that of an empty slot for 0. */
  lemma FailsIff(word: Word, b: seq<byte>)
    requires |b| < word.Modulus()
    ensures var d := DecodeValue(word, b);
            && (d.Bad? <==> |b| < 2 || TypeSize(b[0]) == 0 || |b| < 1 + TypeSize(b[0]))
            && (d.Bad? ==> d.slot == if |b| < 2 then None else if b[0] == 0 then Some(NoValue) else Some(Leftover(b[0])))
  {
  }
}
