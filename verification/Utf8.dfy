/** UTF-8 (RFC 3629): strict decoding, encoding, and their round trip. */
module Utf8 {
  import opened Arith
  import opened Bytes

  predicate Continuation(b: byte) {
    b / 64 == 2
  }

  /** The character at the front of `b` and its length: shortest form only, no surrogates. */
  function DecodeOne(b: seq<byte>): Option<(char, nat)> {
    if |b| >= 1 && b[0] < 0x80 then Some((b[0] as char, 1))
    else if |b| >= 2 && b[0] / 32 == 6 && Continuation(b[1]) then
      var c := At(b, 0) % 32 * 64 + At(b, 1) % 64;
      if c >= 0x80 then Some((c as char, 2)) else None
    else if |b| >= 3 && b[0] / 16 == 14 && Continuation(b[1]) && Continuation(b[2]) then
      var c := At(b, 0) % 16 * 4096 + At(b, 1) % 64 * 64 + At(b, 2) % 64;
      if c >= 0x800 && !(0xD800 <= c < 0xE000) then Some((c as char, 3)) else None
    else if |b| >= 4 && b[0] / 8 == 30 && Continuation(b[1]) && Continuation(b[2]) && Continuation(b[3]) then
      var c := At(b, 0) % 8 * 262144 + At(b, 1) % 64 * 4096 + At(b, 2) % 64 * 64 + At(b, 3) % 64;
      if 0x1_0000 <= c < 0x11_0000 then Some((c as char, 4)) else None
    else None
  }

  lemma DecodeOneLength(b: seq<byte>)
    requires DecodeOne(b).Some?
    ensures 0 < DecodeOne(b).value.1 <= |b|
  {
  }

  function Decode(b: seq<byte>): Option<string>
    decreases |b|
  {
    if b == [] then Some("")
    else
      match DecodeOne(b)
      case None => None
      case Some((c, n)) =>
        DecodeOneLength(b);
        match Decode(b[n..])
        case None => None
        case Some(rest) => Some([c] + rest)
  }

  function EncodeChar(c: char): (r: seq<byte>)
    ensures r != []
    ensures (c as int < 0x80 ==> r == [c as int]) && (c as int >= 0x80 ==> forall x :: x in r ==> x >= 0x80)
  {
    var x := c as int;
    if x < 0x80 then [x]
    else if x < 0x800 then [0xC0 + x / 64, 0x80 + x % 64]
    else if x < 0x1_0000 then [0xE0 + x / 4096, 0x80 + x / 64 % 64, 0x80 + x % 64]
    else [0xF0 + x / 262144, 0x80 + x / 4096 % 64, 0x80 + x / 64 % 64, 0x80 + x % 64]
  }

  function Encode(s: string): seq<byte> {
    if s == "" then [] else EncodeChar(s[0]) + Encode(s[1..])
  }

  lemma DecodeAscii(b: seq<byte>, c: char)
    requires |b| >= 1 && c as int < 0x80 && b[0] == c as int
    ensures DecodeOne(b) == Some((c, 1))
  {
  }

  lemma DecodeTwo(b: seq<byte>, a: nat, z: nat, c: char)
    requires |b| >= 2 && b[0] == 0xC0 + a && b[1] == 0x80 + z && a < 32 && z < 64
    requires c as int == a * 64 + z >= 0x80
    ensures DecodeOne(b) == Some((c, 2))
  {
  }

  lemma DecodeThree(b: seq<byte>, a: nat, y: nat, z: nat, c: char)
    requires |b| >= 3 && b[0] == 0xE0 + a && b[1] == 0x80 + y && b[2] == 0x80 + z && a < 16 && y < 64 && z < 64
    requires c as int == a * 4096 + y * 64 + z >= 0x800
    ensures DecodeOne(b) == Some((c, 3))
  {
  }

  lemma DecodeFour(b: seq<byte>, a: nat, x: nat, y: nat, z: nat, c: char)
    requires |b| >= 4 && b[0] == 0xF0 + a && b[1] == 0x80 + x && b[2] == 0x80 + y && b[3] == 0x80 + z
    requires a < 8 && x < 64 && y < 64 && z < 64
    requires c as int == a * 262144 + x * 4096 + y * 64 + z >= 0x1_0000
    ensures DecodeOne(b) == Some((c, 4))
  {
  }

  lemma {:induction false} DecodeEncodedChar(c: char, rest: seq<byte>)
    ensures DecodeOne(EncodeChar(c) + rest) == Some((c, |EncodeChar(c)|))
  {
    hide DecodeOne;
    var x := c as int;
    var b := EncodeChar(c) + rest;
    SplitMod(x, 64, 64);
    SplitMod(x, 4096, 64);
    if x < 0x80 {
      DecodeAscii(b, c);
    } else if x < 0x800 {
      DecodeTwo(b, x / 64, x % 64, c);
    } else if x < 0x1_0000 {
      DecodeThree(b, x / 4096, x / 64 % 64, x % 64, c);
    } else {
      DecodeFour(b, x / 262144, x / 4096 % 64, x / 64 % 64, x % 64, c);
    }
  }

  lemma {:induction false} DecodeCons(c: char, rest: seq<byte>, s: string)
    requires Decode(rest) == Some(s)
    ensures Decode(EncodeChar(c) + rest) == Some([c] + s)
    decreases |rest|
  {
    hide EncodeChar, DecodeOne;
    DecodeEncodedChar(c, rest);
    assert (EncodeChar(c) + rest)[|EncodeChar(c)|..] == rest;
  }

  lemma {:induction false} DecodeEncode(s: string)
    ensures Decode(Encode(s)) == Some(s)
  {
    if s == "" {
    } else {
      hide EncodeChar, Decode;
      DecodeEncode(s[1..]);
      DecodeCons(s[0], Encode(s[1..]), s[1..]);
      assert s == [s[0]] + s[1..];
    }
  }

  lemma {:induction false} OneByte(b: seq<byte>)
    requires |b| >= 1 && b[0] < 0x80
    ensures EncodeChar(b[0] as char) == b[..1]
  {
  }

  lemma {:induction false} TwoBytes(b: seq<byte>, c: char)
    requires |b| >= 2 && b[0] / 32 == 6 && Continuation(b[1])
    requires c as int == At(b, 0) % 32 * 64 + At(b, 1) % 64 >= 0x80
    ensures EncodeChar(c) == b[..2]
  {
    DivModUnique(c as int, 64, At(b, 0) % 32, At(b, 1) % 64);
  }

  lemma {:induction false} ThreeBytes(b: seq<byte>, c: char)
    requires |b| >= 3 && b[0] / 16 == 14 && Continuation(b[1]) && Continuation(b[2])
    requires c as int == At(b, 0) % 16 * 4096 + At(b, 1) % 64 * 64 + At(b, 2) % 64 >= 0x800
    ensures EncodeChar(c) == b[..3]
  {
    var x, y, z := At(b, 0) % 16, At(b, 1) % 64, At(b, 2) % 64;
    DivModUnique(c as int, 64, x * 64 + y, z);
    DivModUnique(c as int, 4096, x, y * 64 + z);
    DivModUnique(x * 64 + y, 64, x, y);
  }

  lemma {:induction false} FourBytes(b: seq<byte>, c: char)
    requires |b| >= 4 && b[0] / 8 == 30 && Continuation(b[1]) && Continuation(b[2]) && Continuation(b[3])
    requires c as int
             == At(b, 0) % 8 * 262144 + At(b, 1) % 64 * 4096 + At(b, 2) % 64 * 64 + At(b, 3) % 64 >= 0x1_0000
    ensures EncodeChar(c) == b[..4]
  {
    var w, x, y, z := At(b, 0) % 8, At(b, 1) % 64, At(b, 2) % 64, At(b, 3) % 64;
    DivModUnique(c as int, 64, w * 4096 + x * 64 + y, z);
    DivModUnique(c as int, 4096, w * 64 + x, y * 64 + z);
    DivModUnique(c as int, 262144, w, x * 4096 + y * 64 + z);
    DivModUnique(w * 4096 + x * 64 + y, 64, w * 64 + x, y);
    DivModUnique(w * 64 + x, 64, w, x);
  }

  lemma {:induction false} EncodeDecodedChar(b: seq<byte>)
    requires DecodeOne(b).Some?
    ensures 0 < DecodeOne(b).value.1 <= |b|
    ensures EncodeChar(DecodeOne(b).value.0) == b[..DecodeOne(b).value.1]
  {
    hide EncodeChar;
    var (c, n) := DecodeOne(b).value;
    if n == 1 {
      OneByte(b);
    } else if n == 2 {
      TwoBytes(b, c);
    } else if n == 3 {
      ThreeBytes(b, c);
    } else {
      FourBytes(b, c);
    }
  }

  /** Decoding is strict: only the one encoding of a text decodes to it, so overlong forms, surrogates
      and cut-off sequences are rejected. */
  lemma {:induction false} EncodeDecode(b: seq<byte>)
    requires Decode(b).Some?
    ensures Encode(Decode(b).value) == b
    decreases |b|
  {
    hide EncodeChar, DecodeOne;
    if b == [] {
    } else {
      var (c, n) := DecodeOne(b).value;
      EncodeDecodedChar(b);
      EncodeDecode(b[n..]);
      var s := Decode(b).value;
      assert s[0] == c && s[1..] == Decode(b[n..]).value;
      assert b == b[..n] + b[n..];
    }
  }

  /** Both directions: exactly the encoding of a text decodes to it. */
  lemma {:induction false} DecodeExact(b: seq<byte>, s: string)
    ensures Decode(b) == Some(s) <==> Encode(s) == b
  {
    hide Decode, Encode;
    DecodeEncode(s);
    if Decode(b).Some? {
      EncodeDecode(b);
    }
  }

  /** One character of each length, as RFC 3629 writes them. */
  lemma {:induction false} KnownEncodings()
    ensures EncodeChar('A') == [0x41] && EncodeChar('\U{E9}') == [0xC3, 0xA9]
    ensures EncodeChar('\U{20AC}') == [0xE2, 0x82, 0xAC] && EncodeChar('\U{1F600}') == [0xF0, 0x9F, 0x98, 0x80]
  {
  }

  lemma {:induction false} EncodeConcat(s: string, t: string)
    ensures Encode(s + t) == Encode(s) + Encode(t)
  {
    if s == "" {
      assert s + t == t;
    } else {
      assert (s + t)[1..] == s[1..] + t;
      EncodeConcat(s[1..], t);
    }
  }

  /** An ASCII octet appears in the encoding only if its character is in the text. */
  lemma {:induction false} AsciiOnlyFromText(s: string, c: char)
    requires c as int < 0x80 && c !in s
    ensures (c as int) !in Encode(s)
    ensures s != "" ==> Encode(s) != []
  {
    if s == "" {
    } else {
      AsciiOnlyFromText(s[1..], c);
    }
  }
}
