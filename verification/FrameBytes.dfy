/** The frame in bits and literal bytes: what its checksum is, which bytes it escapes, and the
    example of the documentation. */
module FrameBytes {
  import opened Bits
  import opened Frame

  /** How many bytes of s have bit i set. */
  function Ones(s: seq<byte>, i: nat): (n: nat)
    ensures n <= |s|
  {
    if s == [] then 0 else Ones(s[..|s| - 1], i) + Bit(s[|s| - 1], i)
  }

  /** Each bit of the checksum is the parity of that bit over the bytes. */
  lemma {:induction false} ChecksumBits(s: seq<byte>, i: nat)
    ensures Bit(Checksum(s), i) == Ones(s, i) % 2
  {
    if s == [] {
      ZeroBits(i);
    } else {
      var n := |s| - 1;
      ChecksumBits(s[..n], i);
      BitOfXor(Checksum(s[..n]), s[n], i);
    }
  }

  /** The reserved bytes are 0x10, 0x1B and 0xFF; each of them is sent behind a 0x1B. */
  lemma ReservedBytes(b: byte)
    ensures Escape([b]) == if b == 0x10 || b == 0x1B || b == 0xFF then [0x1B, b] else [b]
  {
    EscapeOne(b);
  }

  /** A frame is the escaped payload and checksum between 0x10 and 0xFF. */
  lemma FrameEnds(p: seq<byte>)
    ensures Wire(p) == [0x10] + (Escape(p) + Escape([Checksum(p)])) + [0xFF]
  {
    EscapeConcat(p, [Checksum(p)]);
  }

  // ---- The documented example -------------------------------------------------------------

  lemma XorDouble(a: nat, b: nat, x: nat)
    requires Xor(a / 2, b / 2) == x / 2 && x % 2 == (a + b) % 2
    ensures Xor(a, b) == x
  {
  }

  lemma ExampleXor1()
    ensures Xor(0, 0x33) == 0x33 && Xor(0x33, 0x1a) == 0x29
  {
    assert Xor(3, 1) == 2;
    XorDouble(6, 3, 5);
    XorDouble(12, 6, 10);
    XorDouble(25, 13, 20);
    XorDouble(0x33, 0x1a, 0x29);
  }

  lemma ExampleXor2()
    ensures Xor(0x29, 0xfe) == 0xd7
  {
    assert Xor(0, 3) == 3;
    XorDouble(1, 7, 6);
    XorDouble(2, 15, 13);
    XorDouble(5, 31, 26);
    XorDouble(10, 63, 53);
    XorDouble(20, 127, 107);
    XorDouble(0x29, 0xfe, 0xd7);
  }

  lemma ExampleXor3()
    ensures Xor(0xd7, 0x10) == 0xc7
  {
    assert Xor(6, 0) == 6;
    XorDouble(13, 1, 12);
    XorDouble(26, 2, 24);
    XorDouble(53, 4, 49);
    XorDouble(107, 8, 99);
    XorDouble(0xd7, 0x10, 0xc7);
  }

  lemma ExampleXor4()
    ensures Xor(0xc7, 0xc0) == 0x07
  {
    assert Xor(6, 6) == 0;
    XorDouble(12, 12, 0);
    XorDouble(24, 24, 0);
    XorDouble(49, 48, 1);
    XorDouble(99, 96, 3);
    XorDouble(0xc7, 0xc0, 0x07);
  }

  /** One more byte of a payload whose escaped form is e and whose checksum is sum. */
  lemma OneMore(s: seq<byte>, e: seq<byte>, sum: byte, b: byte, f: seq<byte>, sum': byte)
    requires Escape(s) == e && Checksum(s) == sum
    requires EscapeByte(b) == f && Xor(sum, b) == sum'
    ensures Escape(s + [b]) == e + f && Checksum(s + [b]) == sum'
  {
    assert (s + [b])[..|s|] == s;
  }

  lemma ExampleHead()
    ensures Escape([0x33, 0x1a, 0xfe]) == [0x33, 0x1a, 0xfe] && Checksum([0x33, 0x1a, 0xfe]) == 0xd7
  {
    ExampleXor1();
    ExampleXor2();
    OneMore([], [], 0, 0x33, [0x33], 0x33);
    assert [] + [0x33] == [0x33];
    OneMore([0x33], [0x33], 0x33, 0x1a, [0x1a], 0x29);
    assert [0x33] + [0x1a] == [0x33, 0x1a];
    OneMore([0x33, 0x1a], [0x33, 0x1a], 0x29, 0xfe, [0xfe], 0xd7);
    assert [0x33, 0x1a] + [0xfe] == [0x33, 0x1a, 0xfe];
  }

  lemma ExampleTail(s: seq<byte>)
    requires Escape(s) == s && Checksum(s) == 0xd7
    ensures Escape(s + [0x10] + [0xc0]) == s + [0x1b, 0x10] + [0xc0]
    ensures Checksum(s + [0x10] + [0xc0]) == 0x07
  {
    ExampleXor3();
    ExampleXor4();
    OneMore(s, s, 0xd7, 0x10, [0x1b, 0x10], 0xc7);
    OneMore(s + [0x10], s + [0x1b, 0x10], 0xc7, 0xc0, [0xc0], 0x07);
  }

  /** The frame of the documentation's example. */
  lemma DocumentedExample()
    ensures Wire([0x33, 0x1a, 0xfe, 0x10, 0xc0]) == [0x10, 0x33, 0x1a, 0xfe, 0x1b, 0x10, 0xc0, 0x07, 0xff]
  {
    var s: seq<byte> := [0x33, 0x1a, 0xfe];
    ExampleHead();
    ExampleTail(s);
    assert s + [0x10] + [0xc0] == [0x33, 0x1a, 0xfe, 0x10, 0xc0];
    assert s + [0x1b, 0x10] + [0xc0] == [0x33, 0x1a, 0xfe, 0x1b, 0x10, 0xc0];
    FrameEnds([0x33, 0x1a, 0xfe, 0x10, 0xc0]);
    ReservedBytes(0x07);
  }
}
