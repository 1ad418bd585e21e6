/** Decoding a message from a frame, as the library does it: value by value into the slots of a
    message, growing a message that may grow. */
module MessageDecode {
  import opened Bits
  import opened Types
  import opened LittleEndian
  import opened PowersOfTwo
  import opened MessageFormat

  /** size_t addition. */
  function Wrap(word: Word, n: nat): nat
    requires n < 2 * word.Modulus()
  {
    if n >= word.Modulus() then n - word.Modulus() else n
  }

  function StrLen(s: seq<byte>): (n: Option<nat>)
    ensures n.Some? ==> n.value < |s| && s[n.value] == 0 && 0 !in s[..n.value]
    ensures n.None? ==> 0 !in s
  {
    if s == [] then None
    else if s[0] == 0 then Some(0)
    else match StrLen(s[1..])
         case None => None
         case Some(n) => assert s[..n + 1] == [s[0]] + s[1..][..n]; Some(n + 1)
  }

  /** Reading string or raw data: the data, nothing usable, or bytes from outside the frame,
      which the frame does not determine. */
  datatype Field = Data(bytes: seq<byte>) | Malformed | Outside

  /** b starts at the size field. The string runs to its first NUL; the declared size only has
      to be available and to end in a NUL. */
  function DecodeString(word: Word, b: seq<byte>): (f: Field)
    ensures f.Data? ==> |f.bytes| + 3 <= |b| && 0 !in f.bytes
  {
    if |b| < 2 then Malformed
    else
      ToFromLE(b[..2]);
      var strsize := FromLE(b[..2]);
      if |b| < Wrap(word, 2 + strsize) then Malformed
      else if Wrap(word, 1 + strsize) >= |b| then Outside
      else if b[Wrap(word, 1 + strsize)] != 0 then Malformed
      else match StrLen(b[2..])
           case None => Outside
           case Some(n) => Data(b[2..2 + n])
  }

  function DecodeRaw(word: Word, b: seq<byte>): (f: Field)
    ensures f.Data? ==> |f.bytes| + 2 <= |b|
  {
    if |b| < 2 then Malformed
    else
      ToFromLE(b[..2]);
      var rawsize := FromLE(b[..2]);
      if |b| < Wrap(word, 2 + rawsize) then Malformed
      else if |b| < 2 + rawsize then Outside
      else Data(b[2..2 + rawsize])
  }

  /** The slot after its type was written and nothing else. */
  function TypeOnly(tag: byte): Value {
    if tag == 0 then NoValue else Leftover(tag)
  }

  /** One decoding step: a value and the bytes it takes; a failure, with what became of the
      slot; or a value that would come from outside the frame. */
  datatype Decoded =
    | Good(value: Value, consumed: nat)
    | Bad(slot: Option<Value>)
    | Beyond

  /** A malformed string or raw buffer is no failure: the value has no data and the decoder goes
      on after the shortest form of the type. */
  function DecodeValue(word: Word, b: seq<byte>): (d: Decoded)
    ensures d.Good? ==> 2 <= d.consumed <= |b|
  {
    if |b| < 2 then Bad(None)
    else
      var tag := b[0];
      var argsize := 1 + TypeSize(tag);
      if |b| < argsize then Bad(Some(TypeOnly(tag)))
      else if IsScalar(tag) then Good(Scalar(tag, FromBits(tag, FromLE(b[1..argsize]))), argsize)
      else if tag == STRING then
        match DecodeString(word, b[1..])
        case Data(c) => Good(Str(c), 4 + |c|)
        case Malformed => Good(NullStr, 4)
        case Outside => Beyond
      else if tag == RAW then
        match DecodeRaw(word, b[1..])
        case Data(c) => Good(Raw(c), 3 + |c|)
        case Malformed => Good(Leftover(RAW), 3)
        case Outside => Beyond
      else Bad(Some(TypeOnly(tag)))
  }

  function Empty(n: nat): (vs: seq<Value>)
    ensures |vs| == n && forall i :: 0 <= i < n ==> vs[i] == NoValue
  {
    seq(n, i => NoValue)
  }

  lemma GrowthFits(word: Word, c: nat)
    requires c + 1 <= word.Modulus() / 2
    ensures LeastPow2(c + 1) < word.Modulus()
  {
    ModulusIsPow2(word);
    LeastPow2FromIs(0, c + 1);
    var k: nat := word.Width() - 1;
    assert Pow2(k) == word.Modulus() / 2;
  }

  /** The capacity after growing once from c slots; nothing when no size_t can hold it. */
  function GrownCapacity(word: Word, c: nat): (r: Option<nat>)
    requires c < word.Modulus()
    ensures r.Some? ==> r.value > c && r.value < word.Modulus()
    ensures r.Some? <==> c + 1 <= word.Modulus() / 2
  {
    if c + 1 <= word.Modulus() / 2 then
      LeastPow2FromIs(0, c + 1);
      GrowthFits(word, c);
      Some(LeastPow2(c + 1))
    else None
  }

  /** The slots after a build step and how the build ended. */
  datatype Built = Built(values: seq<Value>, status: Status)

  /** The loop of build_from_buffer, from slot i on, with the bytes b still to decode. */
  function BuildArgs(word: Word, fixed: bool, vals: seq<Value>, i: nat, b: seq<byte>): (r: Built)
    requires |vals| < word.Modulus() && i <= |vals|
    ensures |vals| <= |r.values| < word.Modulus()
    ensures fixed ==> |r.values| == |vals|
    decreases |b|
  {
    if |b| == 0 then Built(vals, Ok)
    else if i >= |vals| then
      if fixed then Built(vals, Failed(TooBig))
      else match GrownCapacity(word, |vals|)
           case None => Built(vals, Failed(InvalidParam))
           case Some(c) => BuildSlot(word, fixed, vals + Empty(c - |vals|), i, b)
    else BuildSlot(word, fixed, vals, i, b)
  }

  /** One iteration, once slot i exists. */
  function BuildSlot(word: Word, fixed: bool, vals: seq<Value>, i: nat, b: seq<byte>): (r: Built)
    requires |vals| < word.Modulus() && 0 < |b| && i < |vals|
    ensures |vals| <= |r.values| < word.Modulus()
    ensures fixed ==> |r.values| == |vals|
    decreases |b|, 0
  {
    match DecodeValue(word, b)
    case Good(v, k) => BuildArgs(word, fixed, vals[i := v], i + 1, b[k..])
    case Bad(None) => Built(vals, Failed(BadMessage))
    case Bad(Some(v)) => Built(vals[i := v], Failed(BadMessage))
    case Beyond => Built(vals, Failed(Unspecified))
  }

  /** A message's state. */
  datatype Msg = Msg(id: nat, values: seq<Value>, fixed: bool)

  predicate ValidMsg(word: Word, m: Msg) {
    m.id < Pow256(4) && |m.values| < word.Modulus()
  }

  /** The header check compares with the size_t sum of 8 and SIZE. */
  function HeaderDemand(word: Word, size: nat): nat
    requires size < Pow256(4)
  {
    (HEADER_SIZE + size % word.Modulus()) % word.Modulus()
  }

  /** smp_message_build_from_buffer. */
  function Build(word: Word, m: Msg, b: seq<byte>): (r: (Msg, Status))
    requires ValidMsg(word, m)
    ensures ValidMsg(word, r.0) && r.0.fixed == m.fixed && |r.0.values| >= |m.values|
    ensures m.fixed ==> |r.0.values| == |m.values|
  {
    if |b| < HEADER_SIZE then (m, Failed(BadMessage))
    else
      ToFromLE(b[..4]);
      ToFromLE(b[4..8]);
      var m1 := m.(id := FromLE(b[..4]));
      if |b| < HeaderDemand(word, FromLE(b[4..8])) then (m1, Failed(BadMessage))
      else
        var r := BuildArgs(word, m.fixed, m.values, 0, b[HEADER_SIZE..]);
        (m1.(values := r.values), r.status)
  }

  /** The values in a payload: none unless every decoding step succeeds. */
  function ParseArgs(word: Word, b: seq<byte>): (r: Option<seq<Value>>)
    ensures r.Some? ==> 2 * |r.value| <= |b|
    decreases |b|
  {
    if |b| == 0 then Some([])
    else match DecodeValue(word, b)
         case Good(v, k) =>
           (match ParseArgs(word, b[k..])
            case None => None
            case Some(vs) => Some([v] + vs))
         case _ => None
  }
}
