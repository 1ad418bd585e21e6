/** Little-endian integers of any width in bytes. */
module LittleEndian {
  import opened Bits

  function Pow256(w: nat): (p: nat)
    ensures p >= 1
  {
    if w == 0 then 1 else 256 * Pow256(w - 1)
  }

  function ToLE(n: nat, w: nat): (s: seq<byte>)
    ensures |s| == w
  {
    if w == 0 then [] else [n % 256] + ToLE(n / 256, w - 1)
  }

  function FromLE(s: seq<byte>): (n: nat) {
    if s == [] then 0 else s[0] + 256 * FromLE(s[1..])
  }

  lemma {:induction false} FromToLE(n: nat, w: nat)
    requires n < Pow256(w)
    ensures FromLE(ToLE(n, w)) == n
    decreases w
  {
    if w > 0 {
      FromToLE(n / 256, w - 1);
      assert ToLE(n, w)[1..] == ToLE(n / 256, w - 1);
    }
  }

  lemma {:induction false} ToFromLE(s: seq<byte>)
    ensures ToLE(FromLE(s), |s|) == s
    ensures FromLE(s) < Pow256(|s|)
  {
    if s != [] {
      ToFromLE(s[1..]);
      assert s == [s[0]] + s[1..];
    }
  }

  lemma MulAtLeast(m: nat, d: nat)
    requires d >= 1
    ensures m * d >= m
  {
  }

  lemma DivUnique(x: nat, m: nat, q: nat, r: nat)
    requires m > 0 && x == m * q + r && r < m
    ensures x / m == q
  {
    var k := x / m;
    assert x == m * k + x % m;
    if k < q {
      assert m * (q - k) == x % m - r;
      MulAtLeast(m, q - k);
    } else if q < k {
      assert m * (k - q) == r - x % m;
      MulAtLeast(m, k - q);
    }
  }

  lemma DivTwice(n: nat, p: nat)
    requires p > 0
    ensures (n / 256) / p == n / (256 * p)
  {
    var q, r := (n / 256) / p, (n / 256) % p;
    assert n / 256 == p * q + r;
    assert n == 256 * (n / 256) + n % 256;
    assert (256 * p) * q == 256 * (p * q);
    DivUnique(n, 256 * p, q, 256 * r + n % 256);
  }

  /** Byte i of a number is what division by 256^i leaves, modulo 256: the least byte first. */
  lemma {:induction false} ByteOf(n: nat, w: nat, i: nat)
    requires i < w
    ensures ToLE(n, w)[i] == (n / Pow256(i)) % 256
    decreases i
  {
    if i > 0 {
      ByteOf(n / 256, w - 1, i - 1);
      DivTwice(n, Pow256(i - 1));
    }
  }
}
