/** The SmpMessage object: an id and an array of value slots, fixed or growing. */
module Messages {
  import opened Bits
  import opened Types
  import opened LittleEndian
  import opened PowersOfTwo
  import opened MessageFormat
  import opened MessageDecode
  import opened MessageEncode

  lemma GrownCapacityIs(word: Word, c: nat)
    requires c < word.Modulus()
    ensures var n := if c + 1 == word.Modulus() then 0 else c + 1;
            GrownCapacity(word, c) == if NextPow2Of(word, n) == 0 then None else Some(NextPow2Of(word, n))
  {
    LeastPow2FromIs(0, c + 1);
  }

  class Message {
    const word: Word
    const staticallyAllocated: bool
    var msgid: nat
    var values: array<Value>

    ghost predicate Valid()
      reads this
    {
      msgid < Pow256(4) && 0 < values.Length < word.Modulus()
    }

    ghost function View(): (m: Msg)
      reads this, values
    {
      Msg(msgid, values[..], staticallyAllocated)
    }

    /** smp_message_new_with_id */
    constructor New(word: Word, id: nat)
      requires id < Pow256(4)
      ensures Valid() && fresh(values) && this.word == word
      ensures View() == Msg(id, Empty(8), false)
    {
      this.word := word;
      staticallyAllocated := false;
      msgid := id;
      values := new Value[DEFAULT_CAPACITY](_ => NoValue);
    }

    /** smp_message_new_from_static_with_id: the caller's slots, emptied. */
    constructor FromStatic(word: Word, slots: array<Value>, id: nat)
      requires id < Pow256(4) && 0 < slots.Length < word.Modulus()
      modifies slots
      ensures Valid() && this.word == word && values == slots
      ensures View() == Msg(id, Empty(slots.Length), true)
    {
      this.word := word;
      staticallyAllocated := true;
      msgid := id;
      values := slots;
      new;
      forall k | 0 <= k < slots.Length { slots[k] := NoValue; }
    }

    method Clear()
      requires Valid()
      modifies this`msgid, values
      ensures Valid() && View() == Msg(0, Empty(values.Length), staticallyAllocated)
    {
      msgid := 0;
      forall k | 0 <= k < values.Length { values[k] := NoValue; }
    }

    method SetCapacity(capacity: nat) returns (status: Status)
      requires Valid() && capacity < word.Modulus()
      modifies this`values
      ensures Valid() && msgid == old(msgid)
      ensures status == if staticallyAllocated then Failed(NotSupported)
                        else if capacity < old(values.Length) then Failed(InvalidParam) else Ok
      ensures status != Ok || capacity == old(values.Length) ==> values == old(values)
      ensures status == Ok && capacity > old(values.Length) ==> fresh(values)
      ensures values.Length >= old(values.Length)
      ensures values[..] == old(values[..]) + Empty(values.Length - old(values.Length))
      ensures status == Ok ==> values.Length == capacity
    {
      if staticallyAllocated { return Failed(NotSupported); }
      if capacity < values.Length { return Failed(InvalidParam); }
      if capacity == values.Length { return Ok; }
      var grown := new Value[capacity](_ => NoValue);
      forall k | 0 <= k < values.Length { grown[k] := values[k]; }
      values := grown;
      status := Ok;
    }

    /** smp_message_decode_value into slot i. */
    method DecodeSlot(i: nat, b: seq<byte>) returns (status: Status, consumed: nat)
      requires Valid() && i < values.Length && |b| < word.Modulus()
      requires !DecodeValue(word, b).Beyond?
      modifies values
      ensures match DecodeValue(word, b)
              case Good(v, k) => status == Ok && consumed == k && values[..] == old(values[..])[i := v]
              case Bad(None) => status == Failed(BadMessage) && values[..] == old(values[..])
              case Bad(Some(v)) => status == Failed(BadMessage) && values[..] == old(values[..])[i := v]
    {
      consumed := 0;
      if |b| < 2 { return Failed(BadMessage), consumed; }
      var tag := b[0];
      values[i] := TypeOnly(tag);
      consumed := 1 + TypeSize(tag);
      if |b| < consumed { return Failed(BadMessage), consumed; }
      if IsScalar(tag) {
        values[i] := Scalar(tag, FromBits(tag, FromLE(b[1..consumed])));
      } else if tag == STRING {
        var field := DecodeString(word, b[1..]);
        values[i] := if field.Data? then Str(field.bytes) else NullStr;
        consumed := 1 + ComputeSize(values[i]);
      } else if tag == RAW {
        var field := DecodeRaw(word, b[1..]);
        if field.Data? {
          values[i] := Raw(field.bytes);
          consumed := 1 + ComputeSize(values[i]);
        }
      } else {
        return Failed(BadMessage), consumed;
      }
      status := Ok;
    }

    /** Room for slot i, growing to the next power of two when there is none. */
    method Grow() returns (status: Status)
      requires Valid() && !staticallyAllocated
      modifies this`values
      ensures Valid() && msgid == old(msgid)
      ensures match GrownCapacity(word, old(values.Length))
              case None => status == Failed(InvalidParam) && values == old(values)
              case Some(c) => status == Ok && fresh(values) && values[..] == old(values[..]) + Empty(c - old(values.Length))
    {
      var n := if values.Length + 1 == word.Modulus() then 0 else values.Length + 1;
      var capacity := NextPow2(word, n);
      GrownCapacityIs(word, values.Length);
      status := SetCapacity(capacity);
    }

    /** One iteration of the build loop: slot i, after growing if need be, from the bytes b. */
    method BuildValue(i: nat, b: seq<byte>) returns (status: Status, consumed: nat)
      requires Valid() && i <= values.Length && 0 < |b| < word.Modulus()
      requires i == values.Length ==> !staticallyAllocated
      requires BuildArgs(word, staticallyAllocated, values[..], i, b).status != Failed(Unspecified)
      modifies this`values, values
      ensures Valid() && msgid == old(msgid) && (values == old(values) || fresh(values))
      ensures status == Ok ==> 0 < consumed <= |b| && i < values.Length
      ensures status == Ok ==> (BuildArgs(word, staticallyAllocated, old(values[..]), i, b)
                                == BuildArgs(word, staticallyAllocated, values[..], i + 1, b[consumed..]))
      ensures status != Ok ==> BuildArgs(word, staticallyAllocated, old(values[..]), i, b) == Built(values[..], status)
    {
      if i >= values.Length {
        status := Grow();
        if status != Ok { return status, 0; }
      }
      status, consumed := DecodeSlot(i, b);
    }

    /** The build loop over a payload. */
    method BuildValues(payload: seq<byte>) returns (status: Status)
      requires Valid() && |payload| < word.Modulus()
      requires BuildArgs(word, staticallyAllocated, values[..], 0, payload).status != Failed(Unspecified)
      modifies this`values, values
      ensures Valid() && msgid == old(msgid) && (values == old(values) || fresh(values))
      ensures Built(values[..], status) == BuildArgs(word, staticallyAllocated, old(values[..]), 0, payload)
    {
      var offset, i := 0, 0;
      ghost var rest, built := payload, BuildArgs(word, staticallyAllocated, values[..], 0, payload);
      while |payload| - offset > 0
        invariant offset <= |payload| && i <= values.Length && Valid() && msgid == old(msgid)
        invariant values == old(values) || fresh(values)
        invariant rest == payload[offset..]
        invariant BuildArgs(word, staticallyAllocated, values[..], i, rest) == built
        decreases |payload| - offset
      {
        if i >= values.Length && staticallyAllocated { break; }
        var consumed;
        status, consumed := BuildValue(i, payload[offset..]);
        if status != Ok { return; }
        rest := rest[consumed..];
        offset := offset + consumed;
        i := i + 1;
      }
      status := if |payload| - offset > 0 then Failed(TooBig) else Ok;
    }

    /** smp_message_build_from_buffer */
    method BuildFromBuffer(buffer: seq<byte>) returns (status: Status)
      requires Valid() && |buffer| < word.Modulus()
      requires Build(word, View(), buffer).1 != Failed(Unspecified)
      modifies this, values
      ensures Valid() && (View(), status) == Build(word, old(View()), buffer)
      ensures values == old(values) || fresh(values)
    {
      if |buffer| < HEADER_SIZE { return Failed(BadMessage); }
      ToFromLE(buffer[..4]);
      ToFromLE(buffer[4..8]);
      msgid := FromLE(buffer[..4]);
      var argsize := FromLE(buffer[4..8]);
      if |buffer| < HeaderDemand(word, argsize) { return Failed(BadMessage); }
      status := BuildValues(buffer[HEADER_SIZE..]);
    }

    /** smp_message_n_args */
    method NArgs() returns (status: Status, n: nat)
      requires Valid()
      ensures var m := if word == Word16 then 0x7FFF else 0x7FFF_FFFF;
              if CountArgs(values[..]) > m then status == Failed(OverflowError)
              else status == Ok && n == CountArgs(values[..])
    {
      n := 0;
      while n < values.Length && values[n] != NoValue
        invariant n <= values.Length && forall j :: 0 <= j < n ==> values[j] != NoValue
      {
        n := n + 1;
      }
      CountArgsIs(values[..], n);
      status := if n > (if word == Word16 then 0x7FFF else 0x7FFF_FFFF) then Failed(OverflowError) else Ok;
    }

    /** smp_message_get_encoded_size, in the arithmetic of size_t */
    method GetEncodedSize() returns (size: nat)
      requires Valid()
      ensures size == (HEADER_SIZE + MaxEncodedSize(values[..])) % word.Modulus()
    {
      size := 0;
      for i := 0 to values.Length
        invariant size == MaxEncodedSize(values[..i]) % word.Modulus()
      {
        assert values[..i + 1][..i] == values[..i];
        if values[i] != NoValue {
          WrappedSumIs(word, MaxEncodedSize(values[..i]), 1 + ComputeSize(values[i]));
          size := WrappedSum(word, size, 1 + ComputeSize(values[i]));
        }
      }
      assert values[..values.Length] == values[..];
      WrappedSumIs(word, MaxEncodedSize(values[..]), HEADER_SIZE);
      size := WrappedSum(word, size, HEADER_SIZE);
    }

    /** The loop of the encoder: the values kept, from buffer[8] on. */
    method EncodeValues(buffer: array<byte>) returns (offset: nat)
      requires Valid() && AllReadable(values[..])
      requires HEADER_SIZE + MaxEncodedSize(values[..]) <= buffer.Length
      modifies buffer
      ensures offset == HEADER_SIZE + |EncodeArgs(values[..])| <= buffer.Length
      ensures buffer[HEADER_SIZE..offset] == EncodeArgs(values[..])
      ensures forall k :: 0 <= k < HEADER_SIZE || HEADER_SIZE + MaxEncodedSize(values[..]) <= k < buffer.Length ==>
                buffer[k] == old(buffer[k])
    {
      ghost var vs, e, room := values[..], [], 0;
      offset := HEADER_SIZE;
      for i := 0 to values.Length
        invariant e == EncodeArgs(vs[..i]) && room == MaxEncodedSize(vs[..i])
        invariant HEADER_SIZE <= offset <= HEADER_SIZE + room <= buffer.Length
        invariant buffer[HEADER_SIZE..offset] == e
        invariant forall k :: 0 <= k < HEADER_SIZE || HEADER_SIZE + MaxEncodedSize(vs) <= k < buffer.Length ==>
                    buffer[k] == old(buffer[k])
      {
        EncodeStep(vs, i);
        if values[i] == NoValue { continue; }
        var n := AppendValue(values[i], buffer, offset, HEADER_SIZE, e);
        offset := offset + n;
        e, room := e + EncodeValue(vs[i]), room + 1 + ComputeSize(vs[i]);
      }
      assert vs[..values.Length] == vs;
    }

    /** smp_message_encode: nothing is written without room for every value, kept or not; beyond
        that room nothing is ever written; what is returned is the encoding of the message. */
    method Encode(buffer: array<byte>, size: nat) returns (status: Status, n: nat)
      requires Valid() && AllReadable(values[..]) && size <= buffer.Length
      requires HEADER_SIZE + MaxEncodedSize(values[..]) < word.Modulus()
      modifies buffer
      ensures status == if size < HEADER_SIZE + MaxEncodedSize(values[..]) then Failed(NoMem)
                        else if |EncodeArgs(values[..])| >= Pow256(4) then Failed(OverflowError)
                        else Ok
      ensures status == Failed(NoMem) ==> buffer[..] == old(buffer[..])
      ensures forall k :: HEADER_SIZE + MaxEncodedSize(values[..]) <= k < buffer.Length ==> buffer[k] == old(buffer[k])
      ensures status == Ok ==> n <= HEADER_SIZE + MaxEncodedSize(values[..]) && buffer[..n] == EncodeMessage(msgid, values[..])
    {
      n := 0;
      var needed := GetEncodedSize();
      Unwrapped(word, HEADER_SIZE + MaxEncodedSize(values[..]));
      if size < needed { return Failed(NoMem), n; }
      WriteBytes(buffer, 0, ToLE(msgid, 4));
      n := EncodeValues(buffer);
      assert Pow256(4) == 0x1_0000_0000;
      if n - HEADER_SIZE > 0xFFFF_FFFF { return Failed(OverflowError), n; }
      assert buffer[0..4] == ToLE(msgid, 4);
      WriteSize(buffer, n, ToLE(msgid, 4), EncodeArgs(values[..]));
      EncodedSizeIff(values[..]);
      status := Ok;
    }
  }
}
