/** What an encoded message is, byte by byte, in the numbers of the documented format. */
module MessageLayout {
  import opened Bits
  import opened LittleEndian
  import opened MessageFormat
  import opened MessageEncode
  import opened MessageRoundTrip

  /** The size in bytes of the documented number types. */
  function Width(tag: byte): nat {
    match tag
    case 0x01 => 1
    case 0x02 => 1
    case 0x03 => 2
    case 0x04 => 2
    case 0x05 => 4
    case 0x06 => 4
    case 0x07 => 8
    case 0x08 => 8
    case 0x0a => 4
    case 0x0b => 8
    case _ => 0
  }

  /** The documented number types and their ranges; floats are bit patterns. */
  lemma NumberTypes(tag: byte, n: int)
    ensures InRange(tag, n) <==>
            match tag
            case 0x01 => 0 <= n <= 255
            case 0x02 => -128 <= n <= 127
            case 0x03 => 0 <= n <= 65_535
            case 0x04 => -32_768 <= n <= 32_767
            case 0x05 => 0 <= n <= 4_294_967_295
            case 0x06 => -2_147_483_648 <= n <= 2_147_483_647
            case 0x07 => 0 <= n <= 18_446_744_073_709_551_615
            case 0x08 => -9_223_372_036_854_775_808 <= n <= 9_223_372_036_854_775_807
            case 0x0a => 0 <= n <= 4_294_967_295
            case 0x0b => 0 <= n <= 18_446_744_073_709_551_615
            case _ => false
  {
    assert Pow256(1) == 256 && Pow256(2) == 65_536 && Pow256(4) == 4_294_967_296;
    assert Pow256(8) == 18_446_744_073_709_551_616;
  }

  lemma BitsOf(tag: byte, n: int)
    requires InRange(tag, n)
    ensures ToBits(tag, n) == if n >= 0 then n else Pow256(TypeSize(tag)) + n
  {
    HalfPow256(TypeSize(tag));
    ModInRange(n, Pow256(TypeSize(tag)));
  }

  /** A number is its type followed by its two's complement, the least byte first. */
  lemma NumberBytes(tag: byte, n: int, i: nat)
    requires InRange(tag, n) && i < Width(tag)
    ensures var e, u := EncodeValue(Scalar(tag, n)), if n >= 0 then n else Pow256(Width(tag)) + n;
            |e| == 1 + Width(tag) && e[0] == tag && e[1 + i] == (u / Pow256(i)) % 256
  {
    BitsOf(tag, n);
    ByteOf(ToBits(tag, n), TypeSize(tag), i);
  }

  lemma SizeBytesOf(n: nat)
    requires n <= 65_535
    ensures ToLE(n, 2) == [n % 256, n / 256]
  {
    assert ToLE(n / 256, 1) == [n / 256] + ToLE(n / 256 / 256, 0);
  }

  /** A string is 0x09, its size with the NUL, its characters and the NUL. */
  lemma StringBytes(c: seq<byte>)
    requires |c| <= 65_534
    ensures EncodeValue(Str(c)) == [0x09, (|c| + 1) % 256, (|c| + 1) / 256] + c + [0]
  {
    SizeBytesOf(|c| + 1);
  }

  /** A raw buffer is 0x10, its size and its bytes. */
  lemma RawBytes(d: seq<byte>)
    requires |d| <= 65_535
    ensures EncodeValue(Raw(d)) == [0x10, |d| % 256, |d| / 256] + d
  {
    SizeBytesOf(|d|);
  }

  /** A message is its id and the size of its arguments, four bytes each, and the arguments. */
  lemma MessageBytes(id: nat, vs: seq<Value>, i: nat)
    requires |EncodeArgs(vs)| < Pow256(4) && i < 4
    ensures var b := EncodeMessage(id, vs);
            && |b| == 8 + |EncodeArgs(vs)| && b[8..] == EncodeArgs(vs)
            && b[i] == (id / Pow256(i)) % 256
            && b[4 + i] == (|EncodeArgs(vs)| / Pow256(i)) % 256
  {
    ByteOf(id, 4, i);
    ByteOf(|EncodeArgs(vs)|, 4, i);
  }

  /** The room demanded for one value counts the whole of it, even one that is skipped. */
  lemma RoomOf(v: Value)
    requires Readable(v)
    ensures MaxEncodedSize([v]) == match v
                                   case NoValue => 0
                                   case Scalar(tag, _) => 1 + Width(tag)
                                   case Str(c) => 4 + |c|
                                   case Raw(d) => 3 + |d|
                                   case _ => 1
  {
    assert [v][..0] == [];
  }
}
