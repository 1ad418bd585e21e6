/** Bytes, machine words and the bitwise operations the library uses, on natural numbers. */
module Bits {

  type byte = x: int | 0 <= x < 256

  function Pow2(k: nat): (p: nat)
    ensures p >= 1
  {
    if k == 0 then 1 else 2 * Pow2(k - 1)
  }

  lemma {:induction false} Pow2Sum(a: nat, b: nat)
    ensures Pow2(a + b) == Pow2(a) * Pow2(b)
    decreases a
  {
    if a > 0 {
      Pow2Sum(a - 1, b);
      assert Pow2(a + b) == 2 * (Pow2(a - 1) * Pow2(b));
    }
  }

  lemma Pow2Square(a: nat, b: nat, p: nat)
    requires b == a + a && Pow2(a) == p
    ensures Pow2(b) == p * p
  {
    Pow2Sum(a, a);
  }

  /** The width of size_t on the target. */
  datatype Word = Word16 | Word32 | Word64 {
    function Width(): nat {
      match this
      case Word16 => 16
      case Word32 => 32
      case Word64 => 64
    }

    /** One more than the largest size_t. */
    function Modulus(): (m: nat)
      ensures m >= 65536
    {
      match this
      case Word16 => 0x1_0000
      case Word32 => 0x1_0000_0000
      case Word64 => 0x1_0000_0000_0000_0000
    }
  }

  lemma ModulusIsPow2(word: Word)
    ensures word.Modulus() == Pow2(word.Width())
  {
    assert Pow2(8) == 256;
    Pow2Square(8, 16, 256);
    match word
    case Word16 =>
    case Word32 => Pow2Square(16, 32, 0x1_0000);
    case Word64 => Pow2Square(16, 32, 0x1_0000); Pow2Square(32, 64, 0x1_0000_0000);
  }

  lemma ModUnique(word: Word, x: nat, q: nat, r: nat)
    requires x == word.Modulus() * q + r && r < word.Modulus()
    ensures x % word.Modulus() == r
  {
    match word
    case Word16 =>
    case Word32 =>
    case Word64 =>
  }

  /** The sum of two size_t. */
  function WrappedSum(word: Word, a: nat, b: nat): (c: nat)
    ensures c < word.Modulus()
  {
    (a + b) % word.Modulus()
  }

  /** Wrapping at each step or once at the end is the same. */
  lemma WrappedSumIs(word: Word, a: nat, b: nat)
    ensures WrappedSum(word, a % word.Modulus(), b) == (a + b) % word.Modulus()
  {
    var m := word.Modulus();
    var x := a % m + b;
    assert a + b == m * (a / m + x / m) + x % m;
    ModUnique(word, a + b, a / m + x / m, x % m);
  }

  lemma Unwrapped(word: Word, a: nat)
    requires a < word.Modulus()
    ensures a % word.Modulus() == a
  {
    ModUnique(word, a, 0, a);
  }

  function Bit(x: nat, i: nat): (b: nat)
    ensures b < 2
    decreases i
  {
    if i == 0 then x % 2 else Bit(x / 2, i - 1)
  }

  function Xor(a: nat, b: nat): nat
    decreases a + b
  {
    if a == 0 && b == 0 then 0 else 2 * Xor(a / 2, b / 2) + (a + b) % 2
  }

  function Or(a: nat, b: nat): nat
    decreases a + b
  {
    if a == 0 && b == 0 then 0
    else 2 * Or(a / 2, b / 2) + (if a % 2 == 1 || b % 2 == 1 then 1 else 0)
  }

  lemma {:induction false} ZeroBits(i: nat)
    ensures Bit(0, i) == 0
  {
    if i > 0 { ZeroBits(i - 1); }
  }

  /** Xor is addition without carry, bit by bit. */
  lemma {:induction false} BitOfXor(a: nat, b: nat, i: nat)
    ensures Bit(Xor(a, b), i) == (Bit(a, i) + Bit(b, i)) % 2
    decreases i
  {
    if a == 0 && b == 0 {
      ZeroBits(i);
    } else if i > 0 {
      BitOfXor(a / 2, b / 2, i - 1);
    }
  }

  /** Or sets a bit exactly where one of its operands has it. */
  lemma {:induction false} BitOfOr(a: nat, b: nat, i: nat)
    ensures Bit(Or(a, b), i) == if Bit(a, i) == 1 || Bit(b, i) == 1 then 1 else 0
    decreases i
  {
    if a == 0 && b == 0 {
      ZeroBits(i);
    } else if i > 0 {
      BitOfOr(a / 2, b / 2, i - 1);
    }
  }

  /** Neither operation needs more bits than its operands have. */
  lemma {:induction false} BitwiseBound(a: nat, b: nat, k: nat)
    requires a < Pow2(k) && b < Pow2(k)
    ensures Xor(a, b) < Pow2(k)
    ensures Or(a, b) < Pow2(k)
    decreases k
  {
    if k > 0 && (a > 0 || b > 0) {
      BitwiseBound(a / 2, b / 2, k - 1);
    }
  }

  lemma {:induction false} XorZero(a: nat, b: nat)
    ensures Xor(a, b) == 0 <==> a == b
    decreases a + b
  {
    if a > 0 || b > 0 {
      XorZero(a / 2, b / 2);
    }
  }

  lemma {:induction false} XorCommutes(a: nat, b: nat)
    ensures Xor(a, b) == Xor(b, a)
    decreases a + b
  {
    if a > 0 || b > 0 { XorCommutes(a / 2, b / 2); }
  }

  lemma FromHalves(a: nat, b: nat, c: nat)
    requires a / 2 == b / 2 && (a + c) % 2 == (b + c) % 2
    ensures a == b
  {
  }

  lemma XorHalves(a: nat, b: nat)
    ensures Xor(a, b) / 2 == Xor(a / 2, b / 2) && Xor(a, b) % 2 == (a + b) % 2
  {
  }

  /** Xor is injective in each argument. */
  lemma {:induction false} XorInjective(a: nat, b: nat, c: nat)
    requires Xor(a, c) == Xor(b, c) || Xor(c, a) == Xor(c, b)
    ensures a == b
    decreases a + b + c
  {
    XorCommutes(a, c);
    XorCommutes(b, c);
    if a > 0 || b > 0 || c > 0 {
      XorHalves(a, c);
      XorHalves(b, c);
      XorInjective(a / 2, b / 2, c / 2);
      FromHalves(a, b, c);
    }
  }

  function XorByte(a: byte, b: byte): byte {
    BitwiseBound(a, b, 8);
    assert Pow2(8) == 256;
    Xor(a, b)
  }

  /** x >> j */
  function Shr(x: nat, j: nat): (y: nat)
    ensures y <= x
    decreases j
  {
    if j == 0 then x else Shr(x / 2, j - 1)
  }

  lemma {:induction false} BitOfShr(x: nat, j: nat, i: nat)
    ensures Bit(Shr(x, j), i) == Bit(x, i + j)
    decreases j
  {
    if j > 0 {
      BitOfShr(x / 2, j - 1, i);
    }
  }
}
