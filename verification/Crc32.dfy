/** CRC-32/MPEG-2 (ISO/IEC 13818-1 Annex A): a shift register over GF(2), and what it detects.

    A 32-bit value is its bits, most significant first, so that `<< 1` drops the head and
    appends a zero and `^` acts position by position. */
module Crc32 {
  import opened Bytes

  type word = c: seq<bool> | |c| == 32 witness seq(32, _ => false)

  function Polynomial(): word {
    Bits(32, 0x04C1_1DB7)
  }

  function Ones(): word {
    seq(32, _ => true)
  }

  function Zeros(n: nat): seq<bool> {
    seq(n, _ => false)
  }

  /** The low `n` bits of `x`, most significant first. */
  function Bits(n: nat, x: nat): (r: seq<bool>)
    ensures |r| == n
  {
    if n == 0 then [] else Bits(n - 1, x / 2) + [x % 2 == 1]
  }

  function Value(bits: seq<bool>): (x: nat)
    ensures x < Power2(|bits|)
  {
    if bits == [] then 0
    else 2 * Value(bits[..|bits| - 1]) + if bits[|bits| - 1] then 1 else 0
  }

  function Power2(n: nat): nat {
    if n == 0 then 1 else 2 * Power2(n - 1)
  }

  function Xor(a: seq<bool>, b: seq<bool>): (r: seq<bool>)
    requires |a| == |b|
    ensures |r| == |a|
    ensures forall i :: 0 <= i < |r| ==> r[i] == (a[i] != b[i])
  {
    seq(|a|, i requires 0 <= i < |a| => a[i] != b[i])
  }

  /** One shift of the register, folding in the polynomial when a one falls out. */
  function Shift(c: word): word {
    if c[0] then Xor(c[1..] + [false], Polynomial()) else c[1..] + [false]
  }

  /** Undoes `Shift`: the polynomial is odd, so the low bit tells whether it was folded in. */
  function Unshift(c: word): word {
    if c[31] then [true] + Xor(c, Polynomial())[..31] else [false] + c[..31]
  }

  function Shifts(n: nat, c: word): word {
    if n == 0 then c else Shifts(n - 1, Shift(c))
  }

  /** The bits at the top of a register that is zero below them. */
  function Raised(bits: seq<bool>): word
    requires |bits| <= 32
  {
    bits + Zeros(32 - |bits|)
  }

  /** The bits xored into the top of the register, then as many shifts. */
  function Absorb(c: word, bits: seq<bool>): word
    requires |bits| <= 32
  {
    Shifts(|bits|, Xor(c, Raised(bits)))
  }

  function Update(c: word, data: seq<byte>): word
    decreases |data|
  {
    if data == [] then c else Update(Absorb(c, Bits(8, data[0])), data[1..])
  }

  function Crc(data: seq<byte>): word {
    Update(Ones(), data)
  }

  /** Most significant byte first. */
  function BigEndian(c: word): (r: seq<byte>)
    ensures |r| == 4
  {
    Octets(c)
  }

  function Octets(bits: seq<bool>): (r: seq<byte>)
    requires |bits| % 8 == 0
    ensures |r| == |bits| / 8
  {
    if bits == [] then [] else [OctetValue(bits[..8])] + Octets(bits[8..])
  }

  function OctetValue(bits: seq<bool>): byte
    requires |bits| == 8
  {
    assert Power2(8) == 256;
    Value(bits)
  }

  method ComputeCrc(data: seq<byte>) returns (crc: word)
    ensures crc == Crc(data)
  {
    hide Bits, Shift, Ones;
    crc := Ones();
    for i := 0 to |data|
      invariant Update(crc, data[i..]) == Crc(data)
    {
      ghost var absorbed := Absorb(crc, Bits(8, data[i]));
      var octet := Bits(8, data[i]);
      crc := Xor(crc, Raised(octet));
      for j := 0 to |octet|
        invariant Shifts(|octet| - j, crc) == absorbed
      {
        crc := Shift(crc);
      }
      assert data[i..][1..] == data[i + 1..];
    }
  }

  // ----- bits and values -----

  lemma {:induction false} ValueBits(n: nat, x: nat)
    requires x < Power2(n)
    ensures Value(Bits(n, x)) == x
  {
    if n == 0 {
    } else {
      ValueBits(n - 1, x / 2);
      assert Bits(n, x)[..n - 1] == Bits(n - 1, x / 2);
    }
  }

  lemma {:induction false} BitsValue(bits: seq<bool>)
    ensures Bits(|bits|, Value(bits)) == bits
  {
    if bits == [] {
    } else {
      var front := bits[..|bits| - 1];
      BitsValue(front);
      assert bits == front + [bits[|bits| - 1]];
    }
  }

  // ----- one shift is a linear bijection -----

  lemma LowBit(n: nat, x: nat)
    requires n > 0
    ensures Bits(n, x)[n - 1] == (x % 2 == 1)
  {
  }

  lemma PolynomialIsOdd()
    ensures Polynomial()[31]
  {
    hide Bits;
    LowBit(32, 0x04C1_1DB7);
  }

  lemma ShiftThenUnshift(c: word)
    ensures Unshift(Shift(c)) == c
  {
    var shifted: word := c[1..] + [false];
    assert [c[0]] + shifted[..31] == c;
    if c[0] {
      PolynomialIsOdd();
      assert Xor(Xor(shifted, Polynomial()), Polynomial()) == shifted;
    }
  }

  lemma UnshiftThenShift(c: word)
    ensures Shift(Unshift(c)) == c
  {
    if c[31] {
      var x: word := Xor(c, Polynomial());
      PolynomialIsOdd();
      assert ([true] + x[..31])[1..] + [false] == x;
      assert Xor(x, Polynomial()) == c;
    } else {
      assert ([false] + c[..31])[1..] + [false] == c;
    }
  }

  /** One register step loses nothing: `Unshift` is its two-sided inverse. */
  lemma ShiftIsBijection(c: word)
    ensures Unshift(Shift(c)) == c
    ensures Shift(Unshift(c)) == c
  {
    ShiftThenUnshift(c);
    UnshiftThenShift(c);
  }

  lemma {:induction false} ShiftsInjective(n: nat, a: word, b: word)
    requires Shifts(n, a) == Shifts(n, b)
    ensures a == b
  {
    if n == 0 {
    } else {
      ShiftsInjective(n - 1, Shift(a), Shift(b));
      ShiftThenUnshift(a);
      ShiftThenUnshift(b);
    }
  }

  lemma ShiftLinear(a: word, b: word)
    ensures Shift(Xor(a, b)) == Xor(Shift(a), Shift(b))
  {
    var x := Xor(a, b);
    assert forall i :: 0 <= i < 32 ==> (x[1..] + [false])[i] == ((a[1..] + [false])[i] != (b[1..] + [false])[i]);
  }

  lemma {:induction false} ShiftsLinear(n: nat, a: word, b: word)
    ensures Shifts(n, Xor(a, b)) == Xor(Shifts(n, a), Shifts(n, b))
  {
    if n == 0 {
    } else {
      ShiftLinear(a, b);
      ShiftsLinear(n - 1, Shift(a), Shift(b));
    }
  }

  /** While only zeros fall out, shifting is moving up. */
  lemma {:induction false} ShiftsOfLow(n: nat, c: word)
    requires n <= 32
    requires c[..n] == Zeros(n)
    ensures Shifts(n, c) == c[n..] + Zeros(n)
  {
    if n > 0 {
      assert !c[0] by {
        assert c[..n][0] == Zeros(n)[0];
      }
      var d := c[1..] + [false];
      assert d[..n - 1] == c[..n][1..] == Zeros(n - 1);
      ShiftsOfLow(n - 1, d);
      assert d[n - 1..] + Zeros(n - 1) == c[n..] + Zeros(n);
    } else {
      assert c[0..] + [] == c;
    }
  }

  lemma {:induction false} ShiftsSum(m: nat, n: nat, c: word)
    ensures Shifts(m + n, c) == Shifts(n, Shifts(m, c))
  {
    if m == 0 {
    } else {
      ShiftsSum(m - 1, n, Shift(c));
    }
  }

  // ----- bytes absorbed one by one, or all at once -----

  lemma RaisedSplit(c: word, a: seq<bool>, b: seq<bool>)
    requires |a| + |b| <= 32
    ensures Xor(c, Raised(a + b)) == Xor(Xor(c, Raised(a)), Raised(Zeros(|a|) + b))
  {
  }

  lemma RaisedLower(m: nat, b: seq<bool>)
    requires m + |b| <= 32
    ensures Shifts(m, Raised(Zeros(m) + b)) == Raised(b)
  {
    var low := Raised(Zeros(m) + b);
    assert low[..m] == Zeros(m);
    ShiftsOfLow(m, low);
    assert low[m..] + Zeros(m) == Raised(b);
  }

  /** Absorbing bits together is absorbing them one group after the other. */
  lemma AbsorbSplit(c: word, a: seq<bool>, b: seq<bool>)
    requires |a| + |b| <= 32
    ensures Absorb(c, a + b) == Absorb(Absorb(c, a), b)
  {
    var high, low := Xor(c, Raised(a)), Raised(Zeros(|a|) + b);
    RaisedSplit(c, a, b);
    ShiftsSum(|a|, |b|, Xor(high, low));
    assert Absorb(c, a + b) == Shifts(|b|, Shifts(|a|, Xor(high, low)));
    ShiftsLinear(|a|, high, low);
    RaisedLower(|a|, b);
  }

  function BitsOf(data: seq<byte>): (r: seq<bool>)
    ensures |r| == 8 * |data|
  {
    if data == [] then [] else Bits(8, data[0]) + BitsOf(data[1..])
  }

  lemma {:induction false} UpdateIsAbsorb(c: word, data: seq<byte>)
    requires |data| <= 4
    ensures Update(c, data) == Absorb(c, BitsOf(data))
    decreases |data|
  {
    if data == [] {
      assert Xor(c, Raised([])) == c;
    } else {
      AbsorbSplit(c, Bits(8, data[0]), BitsOf(data[1..]));
      UpdateIsAbsorb(Absorb(c, Bits(8, data[0])), data[1..]);
    }
  }

  lemma {:induction false} BitsOfInjective(a: seq<byte>, b: seq<byte>)
    requires |a| == |b|
    requires BitsOf(a) == BitsOf(b)
    ensures a == b
  {
    if a == [] {
    } else {
      assert BitsOf(a)[..8] == Bits(8, a[0]) && BitsOf(b)[..8] == Bits(8, b[0]);
      assert BitsOf(a)[8..] == BitsOf(a[1..]) && BitsOf(b)[8..] == BitsOf(b[1..]);
      ByteOfBits(a[0]);
      ByteOfBits(b[0]);
      BitsOfInjective(a[1..], b[1..]);
    }
  }

  lemma ByteOfBits(b: byte)
    ensures Value(Bits(8, b)) == b
  {
    assert Power2(8) == 256;
    ValueBits(8, b);
  }

  lemma {:induction false} BitsOfOctets(bits: seq<bool>)
    requires |bits| % 8 == 0
    ensures BitsOf(Octets(bits)) == bits
  {
    hide Bits, Value, Power2;
    if bits == [] {
    } else {
      BitsValue(bits[..8]);
      BitsOfOctets(bits[8..]);
      var first, rest := OctetValue(bits[..8]), Octets(bits[8..]);
      assert Octets(bits)[0] == first && Octets(bits)[1..] == rest;
    }
  }

  // ----- messages -----

  lemma {:induction false} UpdateConcat(c: word, a: seq<byte>, b: seq<byte>)
    ensures Update(c, a + b) == Update(Update(c, a), b)
    decreases |a|
  {
    if a == [] {
      assert a + b == b;
    } else {
      assert (a + b)[1..] == a[1..] + b;
      UpdateConcat(Absorb(c, Bits(8, a[0])), a[1..], b);
    }
  }

  /** The check a receiver makes: data followed by its own checksum leaves the register at zero. */
  lemma ResidueIsZero(d: seq<byte>)
    ensures Crc(d + BigEndian(Crc(d))) == Zeros(32)
  {
    var c := Crc(d);
    UpdateConcat(Ones(), d, BigEndian(c));
    UpdateIsAbsorb(c, BigEndian(c));
    BitsOfOctets(c);
    AbsorbItself(c);
  }

  lemma AbsorbItself(c: word)
    ensures Absorb(c, c) == Zeros(32)
  {
    assert Raised(c) == c;
    assert Xor(c, c) == Zeros(32);
    ZeroStays(|c|);
  }

  lemma {:induction false} ZeroStays(n: nat)
    ensures Shifts(n, Zeros(32)) == Zeros(32)
  {
    hide Xor, Polynomial;
    if n == 0 {
    } else {
      var zero: word := Zeros(32);
      assert zero[1..] + [false] == zero;
      ZeroStays(n - 1);
    }
  }

  lemma XorCancels(s: word, a: word, b: word)
    requires Xor(s, a) == Xor(s, b)
    ensures a == b
  {
  }

  lemma AbsorbInjective(s: word, t: word, a: seq<bool>, b: seq<bool>)
    requires |a| == |b| <= 32
    requires Absorb(s, a) == Absorb(t, b)
    ensures a == b ==> s == t
    ensures s == t ==> a == b
  {
    var x, y := Raised(a), Raised(b);
    ShiftsInjective(|a|, Xor(s, x), Xor(t, y));
    if s == t {
      XorCancels(s, x, y);
      assert a == x[..|a|] && b == y[..|b|];
    }
    if a == b {
      assert Xor(x, s) == Xor(s, x) && Xor(x, t) == Xor(t, x);
      XorCancels(x, s, t);
    }
  }

  lemma {:induction false} UpdateInjective(s: word, t: word, d: seq<byte>)
    requires Update(s, d) == Update(t, d)
    ensures s == t
    decreases |d|
  {
    if d == [] {
    } else {
      var bits := Bits(8, d[0]);
      UpdateInjective(Absorb(s, bits), Absorb(t, bits), d[1..]);
      AbsorbInjective(s, t, bits, bits);
    }
  }

  lemma BurstInjective(before: seq<byte>, a: seq<byte>, b: seq<byte>, after: seq<byte>)
    requires |a| == |b| <= 4
    requires Crc(before + a + after) == Crc(before + b + after)
    ensures a == b
  {
    var s := Update(Ones(), before);
    UpdateConcat(Ones(), before + a, after);
    UpdateConcat(Ones(), before + b, after);
    UpdateConcat(Ones(), before, a);
    UpdateConcat(Ones(), before, b);
    UpdateInjective(Update(s, a), Update(s, b), after);
    UpdateIsAbsorb(s, a);
    UpdateIsAbsorb(s, b);
    AbsorbInjective(s, s, BitsOf(a), BitsOf(b));
    BitsOfInjective(a, b);
  }

  /** Every error confined to one window of at most four bytes changes the checksum. */
  lemma BurstDetected(before: seq<byte>, a: seq<byte>, b: seq<byte>, after: seq<byte>)
    requires |a| == |b| <= 4
    requires a != b
    ensures Crc(before + a + after) != Crc(before + b + after)
  {
    if Crc(before + a + after) == Crc(before + b + after) {
      BurstInjective(before, a, b, after);
    }
  }
}
