/** How a build ends that does not succeed, and what it leaves in the message. */
module MessageFailures {
  import opened Bits
  import opened Types
  import opened LittleEndian
  import opened MessageFormat
  import opened MessageDecode
  import opened MessageBuild

  /** The values of a payload up to its end or the first step that fails. */
  function GoodValues(word: Word, b: seq<byte>): (vs: seq<Value>)
    ensures 2 * |vs| <= |b|
    decreases |b|
  {
    if |b| == 0 then []
    else match DecodeValue(word, b)
         case Good(v, k) => [v] + GoodValues(word, b[k..])
         case _ => []
  }

  /** The first step that fails, if any. */
  function Fault(word: Word, b: seq<byte>): (f: Option<Decoded>)
    ensures f.Some? ==> !f.value.Good?
    decreases |b|
  {
    if |b| == 0 then None
    else match DecodeValue(word, b)
         case Good(_, k) => Fault(word, b[k..])
         case d => Some(d)
  }

  lemma {:induction false} FaultIff(word: Word, b: seq<byte>)
    ensures ParseArgs(word, b) == if Fault(word, b) == None then Some(GoodValues(word, b)) else None
    decreases |b|
  {
    if |b| > 0 {
      var d := DecodeValue(word, b);
      if d.Good? { FaultIff(word, b[d.consumed..]); }
    }
  }

  /** The slots once the step that fails has done what it does to slot n. */
  function Touched(slots: seq<Value>, n: nat, d: Decoded): seq<Value>
    requires n < |slots|
  {
    match d
    case Bad(Some(v)) => slots[n := v]
    case _ => slots
  }

  /** What a build must come to when its payload holds the good values vs and then the fault d. */
  ghost predicate FailsAs(r: Built, fixed: bool, vals: seq<Value>, i: nat, vs: seq<Value>, d: Decoded)
    requires 1 <= |vals| && i <= |vals|
  {
    var n := i + |vs|;
    var cap := FinalCapacity(fixed, |vals|, n + 1);
    if cap < n + 1 then fixed && r == Built(vals[..i] + vs[..|vals| - i], Failed(TooBig))
    else r == Built(Touched(Overlay(vals, cap, i, vs), n, d), Failed(if d == Beyond then Unspecified else BadMessage))
  }

  lemma {:induction false} FailsNext(r: Built, fixed: bool, vals: seq<Value>, i: nat, v: Value, vs: seq<Value>, d: Decoded)
    requires i < |vals| && FailsAs(r, fixed, vals[i := v], i + 1, vs, d)
    ensures FailsAs(r, fixed, vals, i, [v] + vs, d)
  {
    var n := i + 1 + |vs|;
    var cap := FinalCapacity(fixed, |vals|, n + 1);
    if cap < n + 1 {
      PrefixStep(vals, i, v, vs);
    } else {
      OverlayStep(vals, cap, i, v, vs);
    }
  }

  lemma OverlayNone(vals: seq<Value>, i: nat)
    requires i <= |vals|
    ensures Overlay(vals, |vals|, i, []) == vals
  {
  }

  lemma {:induction false} FailsSlot(word: Word, fixed: bool, vals: seq<Value>, i: nat, b: seq<byte>)
    requires i < |vals| < word.Modulus() && 0 < |b| && (!fixed ==> 2 * i + |b| < word.Modulus())
    requires Fault(word, b).Some?
    ensures FailsAs(BuildSlot(word, fixed, vals, i, b), fixed, vals, i, GoodValues(word, b), Fault(word, b).value)
    decreases |b|, 0
  {
    var d := DecodeValue(word, b);
    if d.Good? {
      var rest := b[d.consumed..];
      BuildFails(word, fixed, vals[i := d.value], i + 1, rest);
      FailsNext(BuildSlot(word, fixed, vals, i, b), fixed, vals, i, d.value, GoodValues(word, rest), Fault(word, b).value);
    } else {
      OverlayNone(vals, i);
    }
  }

  lemma {:induction false} FailsGrown(r: Built, vals: seq<Value>, c: nat, vs: seq<Value>, d: Decoded)
    requires 1 <= |vals| < c && CapacityFor(|vals|, |vals| + |vs| + 1) == CapacityFor(c, |vals| + |vs| + 1)
    requires FailsAs(r, false, vals + Empty(c - |vals|), |vals|, vs, d)
    ensures FailsAs(r, false, vals, |vals|, vs, d)
  {
    OverlayGrow(vals, c, CapacityFor(|vals|, |vals| + |vs| + 1), |vals|, vs);
  }

  lemma FailsFull(word: Word, vals: seq<Value>, b: seq<byte>, vs: seq<Value>, d: Decoded)
    requires 1 <= |vals| < word.Modulus() && |b| > 0
    ensures FailsAs(BuildArgs(word, true, vals, |vals|, b), true, vals, |vals|, vs, d)
  {
    assert vals[..|vals|] + vs[..0] == vals;
  }

  /** The capacity once slot |vals| is there. */
  lemma RoomIs(word: Word, vals: seq<Value>, n: nat)
    requires 1 <= |vals| < word.Modulus() && 2 * |vals| + 1 < word.Modulus() && n > |vals|
    ensures var g := WithRoom(word, vals, |vals|);
            && g == vals + Empty(|g| - |vals|) && CapacityFor(|vals|, n) == CapacityFor(|g|, n)
  {
  }

  lemma {:induction false} FailsGrowing(word: Word, vals: seq<Value>, b: seq<byte>)
    requires 1 <= |vals| < word.Modulus() && 0 < |b| && 2 * |vals| + |b| < word.Modulus()
    requires Fault(word, b).Some?
    ensures FailsAs(BuildArgs(word, false, vals, |vals|, b), false, vals, |vals|, GoodValues(word, b), Fault(word, b).value)
    decreases |b|, 1
  {
    var g, vs, d := WithRoom(word, vals, |vals|), GoodValues(word, b), Fault(word, b).value;
    RoomIs(word, vals, |vals| + |vs| + 1);
    BuildWithRoom(word, vals, |vals|, b);
    FailsSlot(word, false, g, |vals|, b);
    FailsGrown(BuildSlot(word, false, g, |vals|, b), vals, |g|, vs, d);
  }

  /** A payload with a fault is never built. A fixed message whose slots run out before it reports
      TOO_BIG and holds the first values; otherwise the build reports BAD_MESSAGE, and the message
      holds all values before the fault, has room for one more, and in that slot the type of the
      faulty argument if its type was read. */
  lemma {:induction false} BuildFails(word: Word, fixed: bool, vals: seq<Value>, i: nat, b: seq<byte>)
    requires 1 <= |vals| < word.Modulus() && i <= |vals| && (!fixed ==> 2 * i + |b| < word.Modulus())
    requires Fault(word, b).Some?
    ensures FailsAs(BuildArgs(word, fixed, vals, i, b), fixed, vals, i, GoodValues(word, b), Fault(word, b).value)
    decreases |b|, 2
  {
    if i < |vals| {
      FailsSlot(word, fixed, vals, i, b);
    } else if fixed {
      FailsFull(word, vals, b, GoodValues(word, b), Fault(word, b).value);
    } else {
      FailsGrowing(word, vals, b);
    }
  }

  /** A message whose slots are used up and cannot be doubled in a size_t is refused unchanged, with
      INVALID_PARAM. */
  lemma GrowthRefused(word: Word, vals: seq<Value>, b: seq<byte>)
    requires word.Modulus() / 2 <= |vals| < word.Modulus() && b != []
    ensures BuildArgs(word, false, vals, |vals|, b) == Built(vals, Failed(InvalidParam))
  {
  }

  /** The header check is in the arithmetic of size_t. */
  lemma HeaderDemandIs(word: Word, size: nat)
    requires size < Pow256(4)
    ensures HeaderDemand(word, size) == (8 + size) % word.Modulus()
  {
    WrappedSumIs(word, size, 8);
  }

  /** A frame without a header, or shorter than its header says, is refused with BAD_MESSAGE, and
      only the id can have changed. */
  lemma ShortFrame(word: Word, m: Msg, f: seq<byte>)
    requires ValidMsg(word, m)
    requires |f| < 8 || (FromLE(f[4..8]) < Pow256(4) && |f| < (8 + FromLE(f[4..8])) % word.Modulus())
    ensures var (r, status) := Build(word, m, f);
            && status == Failed(BadMessage) && r.values == m.values
            && r.id == if |f| < 8 then m.id else FromLE(f[..4])
  {
    if |f| >= 8 { HeaderDemandIs(word, FromLE(f[4..8])); }
  }
}
