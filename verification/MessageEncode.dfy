/** The message encoder, writing into the caller's buffer. */
module MessageEncode {
  import opened Bits
  import opened LittleEndian
  import opened MessageFormat

  function TagOf(v: Value): byte {
    match v
    case NoValue => 0
    case Scalar(tag, _) => tag
    case Str(_) => STRING
    case NullStr => STRING
    case Raw(_) => RAW
    case Leftover(tag) => tag
  }

  /** smp_value_compute_size: the size of a value's data, whether or not the encoder keeps it. */
  function ComputeSize(v: Value): nat {
    match v
    case Str(c) => 3 + |c|
    case NullStr => 3
    case Raw(d) => 2 + |d|
    case _ => TypeSize(TagOf(v))
  }

  /** smp_message_compute_max_encoded_size: the room the encoder asks for. */
  function MaxEncodedSize(vs: seq<Value>): nat {
    if vs == [] then 0
    else var v := vs[|vs| - 1];
         MaxEncodedSize(vs[..|vs| - 1]) + (if v == NoValue then 0 else 1 + ComputeSize(v))
  }

  /** The encoder skips a value without a word. */
  predicate Skipped(v: Value) {
    v != NoValue && !Kept(v)
  }

  lemma EncodedValueSize(v: Value)
    ensures |EncodeValue(v)| == if Kept(v) then 1 + ComputeSize(v) else 0
  {
  }

  ghost predicate NoneSkipped(vs: seq<Value>) {
    forall i :: 0 <= i < |vs| ==> !Skipped(vs[i])
  }

  lemma NoneSkippedSnoc(vs: seq<Value>)
    requires vs != []
    ensures NoneSkipped(vs) <==> NoneSkipped(vs[..|vs| - 1]) && !Skipped(vs[|vs| - 1])
  {
  }

  lemma SizesSnoc(vs: seq<Value>)
    requires vs != []
    ensures |EncodeArgs(vs)| == |EncodeArgs(vs[..|vs| - 1])| + |EncodeValue(vs[|vs| - 1])|
  {
  }

  /** The encoding never needs more than the room asked for, and takes all of it exactly when
      nothing was skipped. */
  lemma {:induction false} EncodedSizeIff(vs: seq<Value>)
    ensures |EncodeArgs(vs)| <= MaxEncodedSize(vs)
    ensures |EncodeArgs(vs)| == MaxEncodedSize(vs) <==> NoneSkipped(vs)
  {
    if vs != [] {
      EncodedSizeIff(vs[..|vs| - 1]);
      NoneSkippedSnoc(vs);
      SizesSnoc(vs);
      EncodedValueSize(vs[|vs| - 1]);
    }
  }

  lemma {:induction false} MaxEncodedSizeMonotone(vs: seq<Value>, i: nat)
    requires i <= |vs|
    ensures MaxEncodedSize(vs[..i]) <= MaxEncodedSize(vs)
    decreases |vs| - i
  {
    if i == |vs| {
      assert vs[..i] == vs;
    } else {
      assert vs[..i + 1][..i] == vs[..i];
      MaxEncodedSizeMonotone(vs, i + 1);
    }
  }

  /** memcpy of s to dest[at..]. */
  method WriteBytes(dest: array<byte>, at: nat, s: seq<byte>)
    requires at + |s| <= dest.Length
    modifies dest
    ensures dest[at..at + |s|] == s
    ensures forall k :: 0 <= k < dest.Length && !(at <= k < at + |s|) ==> dest[k] == old(dest[k])
  {
    for i := 0 to |s|
      invariant dest[at..at + i] == s[..i]
      invariant forall k :: 0 <= k < dest.Length && !(at <= k < at + i) ==> dest[k] == old(dest[k])
    {
      dest[at + i] := s[i];
    }
    assert s[..|s|] == s;
  }

  method WriteScalar(dest: array<byte>, at: nat, tag: byte, x: int)
    requires at + TypeSize(tag) + 1 <= dest.Length && dest[at] == tag
    modifies dest
    ensures dest[at..at + TypeSize(tag) + 1] == [tag] + ToLE(ToBits(tag, x), TypeSize(tag))
    ensures forall k :: 0 <= k < dest.Length && !(at <= k < at + TypeSize(tag) + 1) ==> dest[k] == old(dest[k])
  {
    WriteBytes(dest, at + 1, ToLE(ToBits(tag, x), TypeSize(tag)));
  }

  method WriteString(dest: array<byte>, at: nat, c: seq<byte>)
    requires at + |c| + 4 <= dest.Length && dest[at] == STRING
    modifies dest
    ensures dest[at..at + |c| + 4] == [STRING] + ToLE(|c| + 1, 2) + c + [0]
    ensures forall k :: 0 <= k < dest.Length && !(at <= k < at + |c| + 4) ==> dest[k] == old(dest[k])
  {
    WriteBytes(dest, at + 1, ToLE(|c| + 1, 2));
    WriteBytes(dest, at + 3, c);
    dest[at + 3 + |c|] := 0;
    assert dest[at + 1..at + 3] == ToLE(|c| + 1, 2);
    assert dest[at + 3..at + 3 + |c|] == c;
  }

  method WriteRaw(dest: array<byte>, at: nat, d: seq<byte>)
    requires at + |d| + 3 <= dest.Length && dest[at] == RAW
    modifies dest
    ensures dest[at..at + |d| + 3] == [RAW] + ToLE(|d|, 2) + d
    ensures forall k :: 0 <= k < dest.Length && !(at <= k < at + |d| + 3) ==> dest[k] == old(dest[k])
  {
    WriteBytes(dest, at + 1, ToLE(|d|, 2));
    WriteBytes(dest, at + 3, d);
    assert dest[at + 1..at + 3] == ToLE(|d|, 2);
  }

  /** smp_message_encode_value: the type byte is written even for a value that is then skipped. */
  method WriteValue(v: Value, dest: array<byte>, at: nat) returns (n: nat)
    requires Readable(v) && at + 1 + ComputeSize(v) <= dest.Length
    modifies dest
    ensures n == |EncodeValue(v)| <= 1 + ComputeSize(v)
    ensures dest[at..at + n] == EncodeValue(v)
    ensures forall k :: 0 <= k < at ==> dest[k] == old(dest[k])
    ensures forall k :: at + 1 + ComputeSize(v) <= k < dest.Length ==> dest[k] == old(dest[k])
    ensures n == 0 && (v.Str? || v.Raw?) ==> dest[at] == if v.Str? then 0x09 else 0x10
    ensures n == 0 && v.Leftover? ==> dest[at] == v.tag
    ensures n == 0 ==> forall k :: at < k < dest.Length ==> dest[k] == old(dest[k])
  {
    EncodedValueSize(v);
    dest[at] := TagOf(v);
    match v {
      case Scalar(tag, x) =>
        WriteScalar(dest, at, tag, x);
      case Str(c) =>
        if |c| > UINT16_MAX - 1 { return 0; }
        WriteString(dest, at, c);
      case Raw(d) =>
        if |d| > UINT16_MAX { return 0; }
        WriteRaw(dest, at, d);
      case NoValue => return 0;
      case Leftover(_) => return 0;
      case NullStr => assert false;
    }
    n := ComputeSize(v) + 1;
  }

  lemma {:induction false} EncodeStep(vs: seq<Value>, i: nat)
    requires i < |vs|
    ensures EncodeArgs(vs[..i + 1]) == EncodeArgs(vs[..i]) + EncodeValue(vs[i])
    ensures MaxEncodedSize(vs[..i + 1]) == MaxEncodedSize(vs[..i]) + (if vs[i] == NoValue then 0 else 1 + ComputeSize(vs[i]))
    ensures MaxEncodedSize(vs[..i + 1]) <= MaxEncodedSize(vs)
    ensures vs[i] == NoValue ==> EncodeArgs(vs[..i + 1]) == EncodeArgs(vs[..i])
  {
    assert vs[..i + 1][..i] == vs[..i];
    MaxEncodedSizeMonotone(vs, i + 1);
  }

  /** Write a value behind the bytes `before` at dest[from..]. */
  method AppendValue(v: Value, dest: array<byte>, at: nat, ghost from: nat, ghost before: seq<byte>) returns (n: nat)
    requires v != NoValue && Readable(v)
    requires from <= at && dest.Length >= at + 1 + ComputeSize(v) && dest[from..at] == before
    modifies dest
    ensures n <= 1 + ComputeSize(v) && dest[from..at + n] == before + EncodeValue(v)
    ensures forall k :: 0 <= k < from || at + 1 + ComputeSize(v) <= k < dest.Length ==> dest[k] == old(dest[k])
  {
    n := WriteValue(v, dest, at);
    assert dest[from..at] == before;
    assert dest[from..at + n] == dest[from..at] + dest[at..at + n];
  }

  /** The SIZE field of the header, once the arguments are written. */
  method WriteSize(dest: array<byte>, n: nat, ghost id: seq<byte>, ghost args: seq<byte>)
    requires HEADER_SIZE <= n <= dest.Length && |id| == 4
    requires dest[0..4] == id && dest[HEADER_SIZE..n] == args
    modifies dest
    ensures dest[..n] == id + ToLE(|args|, 4) + args
    ensures forall k :: n <= k < dest.Length ==> dest[k] == old(dest[k])
  {
    WriteBytes(dest, 4, ToLE(n - HEADER_SIZE, 4));
    assert dest[0..4] == id && dest[HEADER_SIZE..n] == args;
    assert dest[..n] == dest[0..4] + dest[4..8] + dest[HEADER_SIZE..n];
  }
}
