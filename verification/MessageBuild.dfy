/** What the build loop does, for every buffer: it stores exactly the parsed values. */
module MessageBuild {
  import opened Bits
  import opened Types
  import opened LittleEndian
  import opened PowersOfTwo
  import opened MessageFormat
  import opened MessageDecode

  // ---- Capacity -------------------------------------------------------------------------

  /** The capacity a growable message of c slots ends with after n values. */
  function CapacityFor(c: nat, n: nat): (r: nat)
    requires c >= 1
    ensures n <= r && c <= r
    decreases n - c
  {
    if n <= c then c else
      LeastPow2Growth(c);
      CapacityFor(LeastPow2(c + 1), n)
  }

  /** Growth never much more than doubles what is needed: at most max(c, 2(n - 1)) slots. */
  lemma {:induction false} CapacityBound(c: nat, n: nat)
    requires c >= 1
    ensures CapacityFor(c, n) == c || CapacityFor(c, n) <= 2 * (n - 1)
    decreases n - c
  {
    if n > c {
      LeastPow2Growth(c);
      CapacityBound(LeastPow2(c + 1), n);
    }
  }

  /** And a message that has grown holds a power of two of slots. */
  lemma {:induction false} GrownCapacityIsPow2(c: nat, n: nat) returns (k: nat)
    requires c >= 1 && n > c
    ensures CapacityFor(c, n) == Pow2(k)
    decreases n - c
  {
    LeastPow2Growth(c);
    LeastPow2FromIs(0, c + 1);
    if n > LeastPow2(c + 1) {
      k := GrownCapacityIsPow2(LeastPow2(c + 1), n);
    } else {
      k :| LeastPow2(c + 1) == Pow2(k);
    }
  }

  /** The slots of a message once it has room for cap of them and vs is stored from slot i on. */
  function Overlay(vals: seq<Value>, cap: nat, i: nat, vs: seq<Value>): (r: seq<Value>)
    requires |vals| <= cap && i + |vs| <= cap
    ensures |r| == cap
  {
    var p := vals + Empty(cap - |vals|);
    p[..i] + vs + p[i + |vs|..]
  }

  /** The slots after a successful build of n values. */
  function FinalCapacity(fixed: bool, c: nat, n: nat): (r: nat)
    requires c >= 1
  {
    if fixed then c else CapacityFor(c, n)
  }

  // ---- The build loop against the parser --------------------------------------------------

  lemma OverlayStep(vals: seq<Value>, cap: nat, i: nat, v: Value, vs: seq<Value>)
    requires i < |vals| <= cap && i + 1 + |vs| <= cap
    ensures Overlay(vals[i := v], cap, i + 1, vs) == Overlay(vals, cap, i, [v] + vs)
  {
  }

  lemma OverlayGrow(vals: seq<Value>, c: nat, cap: nat, i: nat, vs: seq<Value>)
    requires |vals| <= c <= cap && i + |vs| <= cap
    ensures Overlay(vals + Empty(c - |vals|), cap, i, vs) == Overlay(vals, cap, i, vs)
  {
    assert (vals + Empty(c - |vals|)) + Empty(cap - c) == vals + Empty(cap - |vals|);
  }

  /** What a build must come to when the payload holds exactly vs. */
  ghost predicate BuildsTo(r: Built, fixed: bool, vals: seq<Value>, i: nat, vs: seq<Value>)
    requires |vals| >= 1
  {
    var cap := FinalCapacity(fixed, |vals|, i + |vs|);
    if i + |vs| <= cap then r == Built(Overlay(vals, cap, i, vs), Ok)
    else fixed && r.status == Failed(TooBig)
  }

  lemma BuildsToGrown(word: Word, vals: seq<Value>, b: seq<byte>, vs: seq<Value>)
    requires 1 <= |vals| && 2 * |vals| + |b| < word.Modulus() && |b| > 0 && |vs| > 0
    requires LeastPow2(|vals| + 1) > |vals|
    requires var g := vals + Empty(LeastPow2(|vals| + 1) - |vals|);
             |g| < word.Modulus() && BuildsTo(BuildSlot(word, false, g, |vals|, b), false, g, |vals|, vs)
    ensures BuildsTo(BuildArgs(word, false, vals, |vals|, b), false, vals, |vals|, vs)
  {
    OverlayGrow(vals, LeastPow2(|vals| + 1), CapacityFor(|vals|, |vals| + |vs|), |vals|, vs);
  }

  /** When the payload parses and fits, the build succeeds and stores exactly the parsed values,
      leaving the slots after them as they were; otherwise a fixed message reports TOO_BIG. */
  lemma {:induction false} BuildArgsParsed(word: Word, fixed: bool, vals: seq<Value>, i: nat, b: seq<byte>, vs: seq<Value>)
    requires 1 <= |vals| < word.Modulus() && |b| < word.Modulus() && i <= |vals|
    requires !fixed ==> 2 * i + |b| < word.Modulus()
    requires ParseArgs(word, b) == Some(vs)
    ensures BuildsTo(BuildArgs(word, fixed, vals, i, b), fixed, vals, i, vs)
    decreases |b|, 1
  {
    if |b| == 0 {
      assert Overlay(vals, |vals|, i, []) == vals;
    } else if i < |vals| {
      BuildSlotParsed(word, fixed, vals, i, b, vs);
    } else if !fixed {
      LeastPow2Growth(|vals|);
      BuildSlotParsed(word, fixed, vals + Empty(LeastPow2(|vals| + 1) - |vals|), i, b, vs);
      BuildsToGrown(word, vals, b, vs);
    }
  }

  lemma BuildOne(fixed: bool, vals: seq<Value>, i: nat, v: Value, vs: seq<Value>)
    requires i < |vals|
    ensures var cap := FinalCapacity(fixed, |vals|, i + 1 + |vs|);
            i + 1 + |vs| <= cap ==> Overlay(vals[i := v], cap, i + 1, vs) == Overlay(vals, cap, i, [v] + vs)
  {
    var cap := FinalCapacity(fixed, |vals|, i + 1 + |vs|);
    if i + 1 + |vs| <= cap { OverlayStep(vals, cap, i, v, vs); }
  }

  lemma {:induction false} BuildSlotParsed(word: Word, fixed: bool, vals: seq<Value>, i: nat, b: seq<byte>, vs: seq<Value>)
    requires i < |vals| < word.Modulus() && 0 < |b| < word.Modulus()
    requires !fixed ==> 2 * i + |b| < word.Modulus()
    requires ParseArgs(word, b) == Some(vs)
    ensures |vs| >= 1
    ensures BuildsTo(BuildSlot(word, fixed, vals, i, b), fixed, vals, i, vs)
    decreases |b|, 0
  {
    var d := DecodeValue(word, b);
    var rest := ParseArgs(word, b[d.consumed..]).value;
    BuildArgsParsed(word, fixed, vals[i := d.value], i + 1, b[d.consumed..], rest);
    BuildOne(fixed, vals, i, d.value, rest);
  }

  lemma PrefixStep(vals: seq<Value>, i: nat, v: Value, rest: seq<Value>)
    requires i < |vals| <= i + 1 + |rest|
    ensures vals[i := v][..i + 1] + rest[..|vals| - i - 1] == vals[..i] + ([v] + rest)[..|vals| - i]
  {
  }

  /** A fixed message that turns out too small is left holding the first values. */
  lemma {:induction false} TooBigLeaves(word: Word, vals: seq<Value>, i: nat, b: seq<byte>, vs: seq<Value>)
    requires |vals| < word.Modulus() && i <= |vals|
    requires ParseArgs(word, b) == Some(vs) && i + |vs| > |vals|
    ensures BuildArgs(word, true, vals, i, b) == Built(vals[..i] + vs[..|vals| - i], Failed(TooBig))
    decreases |b|, 1
  {
    if i == |vals| {
      assert vals[..i] + vs[..0] == vals;
    } else {
      TooBigSlot(word, vals, i, b, vs);
    }
  }

  lemma {:induction false} TooBigSlot(word: Word, vals: seq<Value>, i: nat, b: seq<byte>, vs: seq<Value>)
    requires |vals| < word.Modulus() && i < |vals| && 0 < |b|
    requires ParseArgs(word, b) == Some(vs) && i + |vs| > |vals|
    ensures BuildSlot(word, true, vals, i, b) == Built(vals[..i] + vs[..|vals| - i], Failed(TooBig))
    decreases |b|, 0
  {
    var d := DecodeValue(word, b);
    var rest := ParseArgs(word, b[d.consumed..]).value;
    TooBigLeaves(word, vals[i := d.value], i + 1, b[d.consumed..], rest);
    PrefixStep(vals, i, d.value, rest);
  }

  /** When the payload does not parse, no build of it succeeds. */
  lemma {:induction false} BuildArgsRefused(word: Word, fixed: bool, vals: seq<Value>, i: nat, b: seq<byte>)
    requires |vals| < word.Modulus() && i <= |vals|
    requires ParseArgs(word, b) == None
    ensures BuildArgs(word, fixed, vals, i, b).status != Ok
    decreases |b|, 1
  {
    if i < |vals| {
      BuildSlotRefused(word, fixed, vals, i, b);
    } else if !fixed && GrownCapacity(word, |vals|).Some? {
      BuildSlotRefused(word, fixed, vals + Empty(GrownCapacity(word, |vals|).value - |vals|), i, b);
    }
  }

  lemma {:induction false} BuildSlotRefused(word: Word, fixed: bool, vals: seq<Value>, i: nat, b: seq<byte>)
    requires i < |vals| < word.Modulus() && 0 < |b|
    requires ParseArgs(word, b) == None
    ensures BuildSlot(word, fixed, vals, i, b).status != Ok
    decreases |b|, 0
  {
    var d := DecodeValue(word, b);
    if d.Good? { BuildArgsRefused(word, fixed, vals[i := d.value], i + 1, b[d.consumed..]); }
  }

  /** How a build ends depends on how many slots there are, never on what they hold. */
  lemma {:induction false} StatusIgnoresSlots(word: Word, fixed: bool, u: seq<Value>, v: seq<Value>, i: nat, b: seq<byte>)
    requires |u| == |v| < word.Modulus() && i <= |u|
    ensures BuildArgs(word, fixed, u, i, b).status == BuildArgs(word, fixed, v, i, b).status
    ensures |BuildArgs(word, fixed, u, i, b).values| == |BuildArgs(word, fixed, v, i, b).values|
    decreases |b|, 1
  {
    var g := GrownCapacity(word, |u|);
    if |b| > 0 {
      if i < |u| {
        StatusIgnoresSlot(word, fixed, u, v, i, b);
      } else if !fixed && g.Some? {
        var e := Empty(g.value - |u|);
        StatusIgnoresSlot(word, fixed, u + e, v + e, i, b);
      }
    }
  }

  lemma {:induction false} StatusIgnoresSlot(word: Word, fixed: bool, u: seq<Value>, v: seq<Value>, i: nat, b: seq<byte>)
    requires i < |u| == |v| < word.Modulus() && 0 < |b|
    ensures BuildSlot(word, fixed, u, i, b).status == BuildSlot(word, fixed, v, i, b).status
    ensures |BuildSlot(word, fixed, u, i, b).values| == |BuildSlot(word, fixed, v, i, b).values|
    decreases |b|, 0
  {
    var d := DecodeValue(word, b);
    if d.Good? { StatusIgnoresSlots(word, fixed, u[i := d.value], v[i := d.value], i + 1, b[d.consumed..]); }
  }

  /** The slots of a growable message with room for slot i. */
  function WithRoom(word: Word, vals: seq<Value>, i: nat): (r: seq<Value>)
    requires i <= |vals| && 2 * i + 1 < word.Modulus() && |vals| < word.Modulus()
    ensures i < |r| < word.Modulus()
  {
    if i < |vals| then vals else vals + Empty(GrownCapacity(word, |vals|).value - |vals|)
  }

  lemma BuildWithRoom(word: Word, vals: seq<Value>, i: nat, b: seq<byte>)
    requires i <= |vals| < word.Modulus() && 2 * i + |b| < word.Modulus() && |b| > 0
    ensures BuildArgs(word, false, vals, i, b) == BuildSlot(word, false, WithRoom(word, vals, i), i, b)
  {
  }

  /** For a growable message, it does not even depend on how many slots there are. */
  lemma {:induction false} StatusIgnoresCapacity(word: Word, u: seq<Value>, v: seq<Value>, i: nat, b: seq<byte>)
    requires i <= |u| < word.Modulus() && i <= |v| < word.Modulus() && 2 * i + |b| < word.Modulus()
    ensures BuildArgs(word, false, u, i, b).status == BuildArgs(word, false, v, i, b).status
    decreases |b|
  {
    if |b| > 0 {
      var d := DecodeValue(word, b);
      BuildWithRoom(word, u, i, b);
      BuildWithRoom(word, v, i, b);
      if d.Good? {
        var u', v' := WithRoom(word, u, i)[i := d.value], WithRoom(word, v, i)[i := d.value];
        StatusIgnoresCapacity(word, u', v', i + 1, b[d.consumed..]);
      }
    }
  }

  // ---- Staying inside the frame -----------------------------------------------------------

  lemma SizeBytes(s: seq<byte>)
    requires |s| == 2
    ensures FromLE(s) == (s[0] as int) + 256 * (s[1] as int)
  {
    var t := s[1..];
    assert t != [] && t[1..] == [];
    assert FromLE(t) == t[0];
  }

  /** The exact fields whose value the frame does not determine: an empty declared size with no
      NUL behind it, or, on a 16-bit target, a declared size whose sum with 2 wraps to something
      that looks available. */
  lemma BeyondIff(word: Word, b: seq<byte>)
    requires |b| < word.Modulus()
    ensures DecodeValue(word, b).Beyond? <==>
            || (|b| >= 4 && b[0] == STRING && FromLE(b[1..3]) == 0 && 0 !in b[3..])
            || (|b| >= 4 && b[0] == STRING && word == Word16 && FromLE(b[1..3]) == 0xFFFE)
            || (|b| >= 3 && b[0] == RAW && word == Word16 && FromLE(b[1..3]) >= 0xFFFE && |b| - 1 >= FromLE(b[1..3]) - 0xFFFE)
  {
    if |b| >= 3 {
      assert b[1..][..2] == b[1..3];
      ToFromLE(b[1..3]);
      if |b| >= 4 && b[0] == STRING {
        var n := FromLE(b[1..3]);
        assert b[1..][2..] == b[3..];
        if n > 0 && n + 2 < word.Modulus() && n + 2 <= |b| - 1 && b[1..][n + 1] == 0 {
          assert b[3..][n - 1] == 0;
        }
        SizeBytes(b[1..3]);
      }
    }
  }

  /** None of the first n decoding steps along the payload needs bytes from outside it. */
  predicate StaysInside(word: Word, b: seq<byte>, n: nat)
    decreases n
  {
    n == 0 || |b| == 0 || match DecodeValue(word, b)
                          case Good(_, k) => StaysInside(word, b[k..], n - 1)
                          case Bad(_) => true
                          case Beyond => false
  }

  /** Every string along the payload declares a size, if only for its NUL, and every size leaves
      room in a size_t for the two bytes it is written in. */
  predicate SizesMakeSense(word: Word, b: seq<byte>)
    decreases |b|
  {
    |b| == 0 || (
      && (|b| >= 4 && b[0] == STRING ==> 0 < FromLE(b[1..3]) < word.Modulus() - 2)
      && (|b| >= 3 && b[0] == RAW ==> FromLE(b[1..3]) < word.Modulus() - 2)
      && match DecodeValue(word, b)
         case Good(_, k) => SizesMakeSense(word, b[k..])
         case _ => true
    )
  }

  lemma {:induction false} SensibleStaysInside(word: Word, b: seq<byte>, n: nat)
    requires |b| < word.Modulus() && SizesMakeSense(word, b)
    ensures StaysInside(word, b, n)
    decreases n
  {
    if n > 0 && |b| > 0 {
      BeyondIff(word, b);
      var d := DecodeValue(word, b);
      if d.Good? { SensibleStaysInside(word, b[d.consumed..], n - 1); }
    }
  }

  /** A build reads outside the frame if and only if one of the steps it takes does: as many as a
      fixed message has slots, or as many as there are bytes for a message that can grow. */
  lemma {:induction false} SpecifiedIff(word: Word, fixed: bool, vals: seq<Value>, i: nat, b: seq<byte>, n: nat)
    requires i <= |vals| < word.Modulus() && (!fixed ==> 2 * i + |b| < word.Modulus())
    requires if fixed then n == |vals| - i else n >= |b|
    ensures BuildArgs(word, fixed, vals, i, b).status == Failed(Unspecified) <==> !StaysInside(word, b, n)
    decreases |b|
  {
    if |b| > 0 && n > 0 {
      var d := DecodeValue(word, b);
      if !fixed { BuildWithRoom(word, vals, i, b); }
      var u := if fixed then vals else WithRoom(word, vals, i);
      if d.Good? { SpecifiedIff(word, fixed, u[i := d.value], i + 1, b[d.consumed..], n - 1); }
    }
  }
}
