/** The documented message format: typed values, their encoding, and the grammar of a message. */
module MessageFormat {
  import opened Bits
  import opened LittleEndian

  const STRING: byte := 0x09
  const RAW: byte := 0x10
  const HEADER_SIZE: nat := 8
  const DEFAULT_CAPACITY: nat := 8
  const UINT16_MAX: nat := 0xFFFF

  /** INT8 .. UINT64, F32 and F64. */
  predicate IsScalar(tag: byte) {
    1 <= tag <= 8 || tag == 0x0a || tag == 0x0b
  }

  predicate IsSigned(tag: byte) {
    tag == 2 || tag == 4 || tag == 6 || tag == 8
  }

  /** The size of a type's data, a minimum for strings and raw buffers; 0 for unknown types. */
  function TypeSize(tag: byte): (n: nat)
    ensures n <= 8
    ensures IsScalar(tag) ==> n >= 1
  {
    if tag == 1 || tag == 2 then 1
    else if tag == 3 || tag == 4 then 2
    else if tag == 5 || tag == 6 || tag == 0x0a then 4
    else if tag == 7 || tag == 8 || tag == 0x0b then 8
    else if tag == STRING then 3
    else if tag == RAW then 2
    else 0
  }

  /** One slot of a message. Floats are carried as their bit patterns. A NULL string is what a
      malformed string decodes to; Leftover is a slot whose type was written while its data
      still is whatever the slot held, or a slot of a type the library does not know. */
  datatype Value =
    | NoValue
    | Scalar(tag: byte, n: int)
    | Str(chars: seq<byte>)
    | NullStr
    | Raw(data: seq<byte>)
    | Leftover(tag: byte)

  predicate InRange(tag: byte, n: int) {
    && IsScalar(tag)
    && var p := Pow256(TypeSize(tag));
       if IsSigned(tag) then -(p / 2) <= n < p / 2 else 0 <= n < p
  }

  /** A value a C caller can hold: numbers within their type, strings that end at their NUL. */
  predicate Proper(v: Value) {
    match v
    case Scalar(tag, n) => InRange(tag, n)
    case Str(c) => 0 !in c
    case _ => true
  }

  /** A value the encoder may be given: its data is there to be read. */
  predicate Readable(v: Value) {
    Proper(v) && v != NullStr && (v.Leftover? ==> v.tag != 0 && TypeSize(v.tag) == 0)
  }

  /** A value the encoder keeps; the others it skips without saying so. */
  predicate Kept(v: Value) {
    match v
    case Scalar(_, _) => true
    case Str(c) => |c| <= UINT16_MAX - 1
    case Raw(d) => |d| <= UINT16_MAX
    case _ => false
  }

  /** Two's complement in the width of the type. */
  function ToBits(tag: byte, n: int): (u: nat)
    ensures u < Pow256(TypeSize(tag))
  {
    n % Pow256(TypeSize(tag))
  }

  function FromBits(tag: byte, u: nat): int {
    if IsSigned(tag) && u >= Pow256(TypeSize(tag)) / 2 then u - Pow256(TypeSize(tag)) else u
  }

  function EncodeValue(v: Value): seq<byte> {
    if !Kept(v) then []
    else match v
         case Scalar(tag, n) => [tag] + ToLE(ToBits(tag, n), TypeSize(tag))
         case Str(c) => [STRING] + ToLE(|c| + 1, 2) + c + [0]
         case Raw(d) => [RAW] + ToLE(|d|, 2) + d
  }

  ghost predicate AllProper(vs: seq<Value>) {
    forall i :: 0 <= i < |vs| ==> Proper(vs[i])
  }

  ghost predicate AllReadable(vs: seq<Value>) {
    forall i :: 0 <= i < |vs| ==> Readable(vs[i])
  }

  function EncodeArgs(vs: seq<Value>): seq<byte> {
    if vs == [] then [] else EncodeArgs(vs[..|vs| - 1]) + EncodeValue(vs[|vs| - 1])
  }

  /** The values the encoder keeps, in order. */
  function KeptOf(vs: seq<Value>): (k: seq<Value>)
    ensures |k| <= |vs|
  {
    if vs == [] then []
    else KeptOf(vs[..|vs| - 1]) + (if Kept(vs[|vs| - 1]) then [vs[|vs| - 1]] else [])
  }

  function EncodeMessage(id: nat, vs: seq<Value>): seq<byte>
    requires |EncodeArgs(vs)| < Pow256(4)
  {
    ToLE(id, 4) + ToLE(|EncodeArgs(vs)|, 4) + EncodeArgs(vs)
  }

  /** The index of the first slot without a value. */
  function CountArgs(vs: seq<Value>): (n: nat)
    ensures n <= |vs|
  {
    if vs == [] || vs[0] == NoValue then 0 else 1 + CountArgs(vs[1..])
  }

  lemma {:induction false} CountArgsIs(vs: seq<Value>, i: nat)
    requires i <= |vs| && (forall j :: 0 <= j < i ==> vs[j] != NoValue) && (i < |vs| ==> vs[i] == NoValue)
    ensures CountArgs(vs) == i
    decreases i
  {
    if i > 0 { CountArgsIs(vs[1..], i - 1); }
  }

  /** The grammar of a payload, read from the bytes alone: known types, complete data, and a NUL
      exactly at the end of each string. */
  predicate WellFormedArgs(s: seq<byte>)
    decreases |s|
  {
    if s == [] then true
    else if IsScalar(s[0]) then
      var k := 1 + TypeSize(s[0]);
      k <= |s| && WellFormedArgs(s[k..])
    else if s[0] == STRING || s[0] == RAW then
      && 3 <= |s|
      && var k := 3 + FromLE(s[1..3]);
      && k <= |s|
      && (s[0] == STRING ==> k > 3 && s[k - 1] == 0 && 0 !in s[3..k - 1])
      && WellFormedArgs(s[k..])
    else false
  }

  /** The grammar of a message: the header's SIZE is the size of the payload. */
  predicate WellFormed(s: seq<byte>) {
    && HEADER_SIZE <= |s|
    && FromLE(s[4..8]) == |s| - HEADER_SIZE
    && WellFormedArgs(s[8..])
  }
}
