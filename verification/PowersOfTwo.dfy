/** The bit-twiddled next_pow2() of the message code, for every width of size_t. */
module PowersOfTwo {
  import opened Bits

  /** p is the least power of two at or above v. */
  ghost predicate IsLeastPow2(v: nat, p: nat) {
    && (exists k :: p == Pow2(k))
    && v <= p
    && forall k :: v <= Pow2(k) ==> p <= Pow2(k)
  }

  function LeastPow2From(k: nat, v: nat): nat
    decreases v - Pow2(k)
  {
    if v <= Pow2(k) then Pow2(k) else LeastPow2From(k + 1, v)
  }

  /** The reference: double from 1 until v is reached. */
  function LeastPow2(v: nat): nat {
    LeastPow2From(0, v)
  }

  lemma {:induction false} Pow2Monotone(a: nat, b: nat)
    requires a <= b
    ensures Pow2(a) <= Pow2(b)
    decreases b - a
  {
    if a < b { Pow2Monotone(a, b - 1); }
  }

  lemma {:induction false} LeastPow2FromIs(k: nat, v: nat)
    requires k > 0 ==> Pow2(k - 1) < v
    ensures IsLeastPow2(v, LeastPow2From(k, v))
    decreases v - Pow2(k)
  {
    if v <= Pow2(k) {
      forall j: nat | v <= Pow2(j) ensures Pow2(k) <= Pow2(j) {
        if j < k { Pow2Monotone(j, k - 1); } else { Pow2Monotone(k, j); }
      }
    } else {
      LeastPow2FromIs(k + 1, v);
    }
  }

  lemma LeastPow2Unique(v: nat, p: nat)
    requires IsLeastPow2(v, p)
    ensures p == LeastPow2(v)
  {
    LeastPow2FromIs(0, v);
  }

  lemma HalfIsBelow(v: nat, k: nat)
    requires k > 0 && IsLeastPow2(v, Pow2(k))
    ensures Pow2(k - 1) < v
  {
  }

  /** Growth at least adds one slot and at most doubles the capacity. */
  lemma LeastPow2Growth(c: nat)
    requires c >= 1
    ensures c < LeastPow2(c + 1) <= 2 * c
  {
    LeastPow2FromIs(0, c + 1);
    var p := LeastPow2(c + 1);
    var k: nat :| p == Pow2(k);
    if k > 0 { HalfIsBelow(c + 1, k); }
  }

  /** x has no bit above k, and its j bits from k down are all set. */
  ghost predicate TopSet(x: nat, k: nat, j: nat) {
    x < Pow2(k + 1) && forall i: nat :: k < i + j && i <= k ==> Bit(x, i) == 1
  }

  lemma {:induction false} HighestBit(x: nat) returns (k: nat)
    requires x > 0
    ensures Pow2(k) <= x < Pow2(k + 1)
    ensures TopSet(x, k, 1)
  {
    if x == 1 {
      k := 0;
    } else {
      var h := HighestBit(x / 2);
      k := h + 1;
      assert Bit(x, k) == Bit(x / 2, h) == 1;
    }
  }

  /** One step `v |= v >> j` doubles the run of ones below the highest bit. */
  lemma SmearStep(x: nat, k: nat, j: nat)
    requires TopSet(x, k, j)
    ensures TopSet(Or(x, Shr(x, j)), k, 2 * j)
  {
    BitwiseBound(x, Shr(x, j), k + 1);
    forall i: nat | k < i + 2 * j && i <= k ensures Bit(Or(x, Shr(x, j)), i) == 1 {
      BitOfOr(x, Shr(x, j), i);
      BitOfShr(x, j, i);
      if k >= i + j {
        assert Bit(x, i + j) == 1;
      }
    }
  }

  lemma {:induction false} AllOnes(x: nat, k: nat)
    requires x < Pow2(k + 1) && forall i: nat :: i <= k ==> Bit(x, i) == 1
    ensures x == Pow2(k + 1) - 1
    decreases k
  {
    assert Bit(x, 0) == 1;
    if k > 0 {
      forall i: nat | i <= k - 1 ensures Bit(x / 2, i) == 1 {
        assert Bit(x, i + 1) == 1;
      }
      AllOnes(x / 2, k - 1);
    }
  }

  /** The value next_pow2() computes; it wraps to 0 outside 1 .. 2^(width - 1). */
  function NextPow2Of(word: Word, v: nat): nat {
    if 1 <= v <= word.Modulus() / 2 then LeastPow2(v) else 0
  }

  lemma ZeroSmear()
    ensures forall j: nat {:trigger Shr(0, j)} :: Or(0, Shr(0, j)) == 0
  {
  }

  lemma Smeared(word: Word, size: nat, x: nat, k: nat, v: nat)
    requires size < word.Modulus() && x == (if size == 0 then word.Modulus() - 1 else size - 1)
    requires Pow2(k) <= x && TopSet(v, k, word.Width())
    requires x < Pow2(k + 1)
    ensures v + 1 == Pow2(k + 1) <= word.Modulus()
    ensures v + 1 == word.Modulus() <==> !(1 <= size <= word.Modulus() / 2)
    ensures v + 1 < word.Modulus() ==> v + 1 == LeastPow2(size)
  {
    var w := word.Width();
    ModulusIsPow2(word);
    if k >= w { Pow2Monotone(w, k); }
    AllOnes(v, k);
    Pow2Monotone(k + 1, w);
    if k + 1 == w {
      assert x >= word.Modulus() / 2;
    } else {
      Pow2Monotone(k + 1, w - 1);
      assert size == x + 1 && size <= Pow2(k + 1);
      forall j: nat | size <= Pow2(j) ensures Pow2(k + 1) <= Pow2(j) {
        if j <= k { Pow2Monotone(j, k); } else { Pow2Monotone(k + 1, j); }
      }
      LeastPow2Unique(size, v + 1);
    }
  }

  method NextPow2(word: Word, size: nat) returns (v: nat)
    requires size < word.Modulus()
    ensures v == NextPow2Of(word, size)
    ensures 1 <= size <= word.Modulus() / 2 <==> v != 0
    ensures v != 0 ==> IsLeastPow2(size, v)
  {
    v := if size == 0 then word.Modulus() - 1 else size - 1;
    ghost var x, k := v, 0;
    if x > 0 { k := HighestBit(x); } else { ZeroSmear(); }
    v := Or(v, Shr(v, 1));
    if x > 0 { SmearStep(x, k, 1); }
    ghost var v1 := v;
    v := Or(v, Shr(v, 2));
    if x > 0 { SmearStep(v1, k, 2); }
    ghost var v2 := v;
    v := Or(v, Shr(v, 4));
    if x > 0 { SmearStep(v2, k, 4); }
    ghost var v4 := v;
    v := Or(v, Shr(v, 8));
    if x > 0 { SmearStep(v4, k, 8); }
    if word != Word16 {
      ghost var v8 := v;
      v := Or(v, Shr(v, 16));
      if x > 0 { SmearStep(v8, k, 16); }
    }
    if word == Word64 {
      ghost var v16 := v;
      v := Or(v, Shr(v, 32));
      if x > 0 { SmearStep(v16, k, 32); }
    }
    if x > 0 {
      assert TopSet(v, k, word.Width());
      Smeared(word, size, x, k, v);
    }
    v := if v + 1 == word.Modulus() then 0 else v + 1;
    LeastPow2FromIs(0, size);
  }
}
