/** The shift register of `Crc32` computes the remainder of `CrcReference`. */
module CrcExact {
  import Arith
  import opened Bytes
  import opened Crc32
  import opened CrcReference

  // ----- bits -----

  lemma {:induction false} BitAt(n: nat, x: nat, i: nat)
    requires i < n
    ensures Power2(n - 1 - i) > 0 && Bits(n, x)[i] == (x / Power2(n - 1 - i) % 2 == 1)
  {
    if i == n - 1 {
    } else {
      BitAt(n - 1, x / 2, i);
      Halves(x, Power2(n - 2 - i));
    }
  }

  lemma {:induction false} Halves(x: nat, d: nat)
    requires d > 0
    ensures x / 2 / d == x / (2 * d)
  {
    var q := x / 2 / d;
    var r := x / 2 % d;
    assert x == 2 * (d * q + r) + x % 2;
    assert x == (2 * d) * q + (2 * r + x % 2);
    Arith.DivModUnique(x, 2 * d, q, 2 * r + x % 2);
  }

  lemma PowersOfTwo()
    ensures Power2(0) == 1 && Power2(1) == 2 && Power2(2) == 4 && Power2(3) == 8
    ensures Power2(4) == 16 && Power2(5) == 32 && Power2(6) == 64 && Power2(7) == 128
  {
  }

  lemma {:induction false} OctetBits(b: byte, k: nat)
    requires k < 8
    ensures Bits(8, b)[7 - k] == OctetBit(b, k)
  {
    hide Bits;
    BitAt(8, b, 7 - k);
    PowersOfTwo();
    hide Power2;
  }

  lemma {:induction false} BitsOfAt(d: seq<byte>, i: nat)
    requires i < 8 * |d|
    ensures BitsOf(d)[i] == Bits(8, d[i / 8])[i % 8]
  {
    hide Bits;
    if i < 8 {
    } else {
      BitsOfAt(d[1..], i - 8);
      assert BitsOf(d)[i] == BitsOf(d[1..])[i - 8];
    }
  }

  lemma {:induction false} MessageBits(d: seq<byte>)
    ensures BitsOf(d) == MessagePolynomial(d)
  {
    hide Bits, BitsOf, OctetBit;
    forall i | 0 <= i < 8 * |d| ensures BitsOf(d)[i] == MessagePolynomial(d)[i] {
      BitsOfAt(d, i);
      OctetBits(d[i / 8], 7 - i % 8);
    }
  }

  // ----- the polynomial -----

  lemma {:induction false} BitsAppend(n: nat, k: nat, v: nat, b: nat)
    requires b < Power2(k)
    ensures Bits(n + k, Power2(k) * v + b) == Bits(n, v) + Bits(k, b)
  {
    if k == 0 {
      assert Bits(n, v) + [] == Bits(n, v);
    } else {
      var w := Power2(k - 1) * v;
      assert Power2(k) * v + b == 2 * w + b;
      BitsAppend(n, k - 1, v, b / 2);
      ConcatAssoc(Bits(n, v), Bits(k - 1, b / 2), [b % 2 == 1]);
    }
  }

  lemma {:induction false} Octet(n: nat, v: nat, b: byte)
    ensures Bits(n + 8, 256 * v + b) == Bits(n, v) + Bits(8, b)
  {
    hide Bits;
    PowersOfTwo();
    assert Power2(8) == 256;
    BitsAppend(n, 8, v, b);
  }

  /** The constant of the code, octet by octet. */
  lemma {:induction false} PolynomialOctets()
    ensures Polynomial() == Bits(8, 0x04) + Bits(8, 0xC1) + Bits(8, 0x1D) + Bits(8, 0xB7)
  {
    hide Bits;
    Octet(24, 0x04C1_1D, 0xB7);
    Octet(16, 0x04C1, 0x1D);
    Octet(8, 0x04, 0xC1);
  }

  lemma {:induction false} OctetIs(b: byte, bits: seq<bool>)
    requires |bits| == 8
    requires forall k :: 0 <= k < 8 ==> bits[7 - k] == OctetBit(b, k)
    ensures Bits(8, b) == bits
  {
    hide Bits, OctetBit;
    forall i | 0 <= i < 8 ensures Bits(8, b)[i] == bits[i] {
      OctetBits(b, 7 - i);
      assert bits[7 - (7 - i)] == OctetBit(b, 7 - i);
    }
  }

  lemma FirstOctet(k: nat)
    requires k < 8
    ensures OctetBit(0x04, k) == InGenerator(24 + k)
  {
  }

  lemma SecondOctet(k: nat)
    requires k < 8
    ensures OctetBit(0xC1, k) == InGenerator(16 + k)
  {
  }

  lemma ThirdOctet(k: nat)
    requires k < 8
    ensures OctetBit(0x1D, k) == InGenerator(8 + k)
  {
  }

  lemma LastOctet(k: nat)
    requires k < 8
    ensures OctetBit(0xB7, k) == InGenerator(k)
  {
  }

  lemma {:induction false} GeneratorSlice(lo: nat, k: nat)
    requires lo <= 24 && k < 8
    ensures Generator()[1..][24 - lo..32 - lo][7 - k] == InGenerator(lo + k)
  {
    hide InGenerator;
  }

  /** The constant of the code is the generator without its leading coefficient. */
  lemma {:induction false} PolynomialIsGenerator()
    ensures Polynomial() == Generator()[1..]
  {
    PolynomialOctets();
    hide Polynomial, Bits, OctetBit, InGenerator, Generator;
    var g := Generator()[1..];
    forall k | 0 <= k < 8
      ensures g[..8][7 - k] == OctetBit(0x04, k) && g[8..16][7 - k] == OctetBit(0xC1, k)
      ensures g[16..24][7 - k] == OctetBit(0x1D, k) && g[24..][7 - k] == OctetBit(0xB7, k)
    {
      FirstOctet(k);
      SecondOctet(k);
      ThirdOctet(k);
      LastOctet(k);
      GeneratorSlice(24, k);
      GeneratorSlice(16, k);
      GeneratorSlice(8, k);
      GeneratorSlice(0, k);
    }
    OctetIs(0x04, g[..8]);
    OctetIs(0xC1, g[8..16]);
    OctetIs(0x1D, g[16..24]);
    OctetIs(0xB7, g[24..]);
    assert g == g[..8] + g[8..16] + g[16..24] + g[24..];
  }

  // ----- the register -----

  lemma {:induction false} SumIsXor(p: seq<bool>, q: seq<bool>)
    requires |p| == |q|
    ensures Sum(p, q) == Xor(p, q)
  {
  }

  /** The register after one more bit. */
  function Next(c: word, bit: bool): word {
    Absorb(c, [bit])
  }

  function FeedBits(c: word, bits: seq<bool>): word
    decreases |bits|
  {
    if bits == [] then c else FeedBits(Next(c, bits[0]), bits[1..])
  }

  lemma {:induction false} NextIs(c: word, bit: bool)
    ensures var shifted := c[1..] + [false];
            Next(c, bit) == if c[0] != bit then Xor(shifted, Polynomial()) else shifted
  {
    hide Polynomial;
    var x: word := Xor(c, Raised([bit]));
    assert x[1..] == c[1..];
    OneShift(x);
  }

  lemma {:induction false} OneShift(c: word)
    ensures Shifts(1, c) == Shift(c)
  {
    hide Shift;
    assert Shifts(1, c) == Shifts(0, Shift(c));
  }

  lemma {:induction false} AbsorbIsFeed(c: word, bits: seq<bool>)
    requires |bits| <= 32
    ensures Absorb(c, bits) == FeedBits(c, bits)
    decreases |bits|
  {
    hide Shift, Polynomial, Xor;
    if bits == [] {
      AbsorbNothing(c);
    } else {
      assert bits == [bits[0]] + bits[1..];
      AbsorbSplit(c, [bits[0]], bits[1..]);
      AbsorbIsFeed(Next(c, bits[0]), bits[1..]);
    }
  }

  lemma {:induction false} AbsorbNothing(c: word)
    ensures Absorb(c, []) == c
  {
    assert Xor(c, Raised([])) == c;
  }

  lemma {:induction false} FeedConcat(c: word, a: seq<bool>, b: seq<bool>)
    ensures FeedBits(c, a + b) == FeedBits(FeedBits(c, a), b)
    decreases |a|
  {
    hide Next;
    if a == [] {
      assert a + b == b;
    } else {
      TailConcat(a, b);
      FeedConcat(Next(c, a[0]), a[1..], b);
    }
  }

  lemma {:induction false} UpdateIsFeed(c: word, d: seq<byte>)
    ensures Update(c, d) == FeedBits(c, BitsOf(d))
    decreases |d|
  {
    hide Absorb, Next, Bits;
    if d == [] {
    } else {
      AbsorbIsFeed(c, Bits(8, d[0]));
      UpdateIsFeed(Absorb(c, Bits(8, d[0])), d[1..]);
      FeedConcat(c, Bits(8, d[0]), BitsOf(d[1..]));
    }
  }

  /** What is still to be divided when the register holds `c` and `bits` are to come. */
  function Ahead(c: word, bits: seq<bool>): (p: seq<bool>)
    ensures |p| == |bits| + 32
  {
    Sum(bits + Coefficients(32, false), c + Coefficients(|bits|, false))
  }

  lemma {:induction false} AheadRest(c: word, bits: seq<bool>)
    requires bits != []
    ensures Ahead(c[1..] + [false], bits[1..]) == Ahead(c, bits)[1..]
  {
    assert bits[1..] + Coefficients(32, false) == (bits + Coefficients(32, false))[1..];
    assert c[1..] + [false] + Coefficients(|bits| - 1, false) == (c + Coefficients(|bits|, false))[1..];
  }

  lemma {:induction false} AheadXor(c: word, q: word, bits: seq<bool>)
    ensures Ahead(Xor(c, q), bits) == Sum(Ahead(c, bits), q + Coefficients(|bits|, false))
  {
    var r, s := Ahead(Xor(c, q), bits), Sum(Ahead(c, bits), q + Coefficients(|bits|, false));
    forall i | 0 <= i < |r| ensures r[i] == s[i] {
    }
  }

  lemma {:induction false} Subtracted(p: seq<bool>, q: seq<bool>)
    requires |p| >= 33 && |q| == 33
    ensures Sum(p[..33], q)[1..] + p[33..] == Sum(p[1..], q[1..] + Coefficients(|p| - 33, false))
  {
    var r, s := Sum(p[..33], q)[1..] + p[33..], Sum(p[1..], q[1..] + Coefficients(|p| - 33, false));
    forall i | 0 <= i < |r| ensures r[i] == s[i] {
      if i < 32 {
        assert r[i] == (p[i + 1] != q[i + 1]);
      }
    }
  }

  lemma {:induction false} DivideOnce(c: word, bits: seq<bool>)
    requires bits != []
    ensures var p := Ahead(c, bits);
            Ahead(Next(c, bits[0]), bits[1..]) == if p[0] then Sum(p[..33], Generator())[1..] + p[33..] else p[1..]
  {
    hide Polynomial, Generator;
    NextIs(c, bits[0]);
    PolynomialIsGenerator();
    hide Next, Xor;
    AheadRest(c, bits);
    var p := Ahead(c, bits);
    assert p[0] == (bits[0] != c[0]);
    hide Ahead;
    if p[0] {
      AheadXor(c[1..] + [false], Polynomial(), bits[1..]);
      Subtracted(p, Generator());
    }
  }

  lemma {:induction false} FeedIsRemainder(c: word, bits: seq<bool>)
    ensures FeedBits(c, bits) == Remainder(Ahead(c, bits))
    decreases |bits|
  {
    hide Next, Generator;
    if bits == [] {
      assert Ahead(c, bits) == c;
    } else {
      DivideOnce(c, bits);
      FeedIsRemainder(Next(c, bits[0]), bits[1..]);
    }
  }

  /** Main result: for every message the program's checksum is the one the standard defines. */
  lemma {:induction false} CrcIsChecksum(d: seq<byte>)
    ensures Crc(d) == Checksum(d)
  {
    hide Update, FeedBits, BitsOf, MessagePolynomial, Remainder;
    UpdateIsFeed(Ones(), d);
    MessageBits(d);
    FeedIsRemainder(Ones(), BitsOf(d));
    assert Ones() == Coefficients(32, true);
  }
}
