/** UTF-8, as a text's bytes are read and written. */
module Utf8 {
  import opened Machine

  function Encode(c: char): (b: Bytes)
    ensures 1 <= |b| <= 4
  {
    var x := c as int;
    if x < 0x80 then [x]
    else if x < 0x800 then [0xC0 + x / 64, 0x80 + x % 64]
    else if x < 0x1_0000 then [0xE0 + x / 64 / 64, 0x80 + x / 64 % 64, 0x80 + x % 64]
    else [0xF0 + x / 64 / 64 / 64, 0x80 + x / 64 / 64 % 64, 0x80 + x / 64 % 64, 0x80 + x % 64]
  }

  function EncodeAll(s: string): Bytes {
    if s == [] then [] else Encode(s[0]) + EncodeAll(s[1..])
  }

  predicate IsScalar(x: int) {
    0 <= x < 0xD800 || 0xE000 <= x < 0x11_0000
  }

  predicate IsTail(b: byte) {
    0x80 <= b < 0xC0
  }

  /** The payload of one byte: what is left above its marker. */
  function Bits(b: byte, marker: int): int {
    b as int - marker
  }

  /** The first character of a byte string, refusing overlong forms, surrogates and stray tails. */
  function DecodeOne(b: Bytes): (r: Option<(char, nat)>)
    ensures r.Some? ==> 1 <= r.value.1 <= |b|
  {
    if b == [] then None
    else if b[0] < 0x80 then Some((b[0] as char, 1))
    else if 0xC2 <= b[0] < 0xE0 && |b| >= 2 && IsTail(b[1]) then
      Some(((64 * Bits(b[0], 0xC0) + Bits(b[1], 0x80)) as char, 2))
    else if 0xE0 <= b[0] < 0xF0 && |b| >= 3 && IsTail(b[1]) && IsTail(b[2]) then
      var x := 64 * (64 * Bits(b[0], 0xE0) + Bits(b[1], 0x80)) + Bits(b[2], 0x80);
      if x >= 0x800 && IsScalar(x) then Some((x as char, 3)) else None
    else if 0xF0 <= b[0] < 0xF5 && |b| >= 4 && IsTail(b[1]) && IsTail(b[2]) && IsTail(b[3]) then
      var x := 64 * (64 * (64 * Bits(b[0], 0xF0) + Bits(b[1], 0x80)) + Bits(b[2], 0x80)) + Bits(b[3], 0x80);
      if x >= 0x1_0000 && IsScalar(x) then Some((x as char, 4)) else None
    else None
  }

  /** `str::from_utf8` */
  function Decode(b: Bytes): Option<string> {
    if b == [] then Some("")
    else match DecodeOne(b)
      case None => None
      case Some((c, n)) =>
        match Decode(b[n..])
        case None => None
        case Some(s) => Some([c] + s)
  }

  lemma Parts(x: nat, hi: nat, lo: nat)
    requires x == 64 * hi + lo && lo < 64
    ensures x / 64 == hi && x % 64 == lo
  {
  }

  lemma DecodeOneEncode(c: char, rest: Bytes)
    ensures DecodeOne(Encode(c) + rest) == Some((c, |Encode(c)|))
  {
    var x := c as int;
    var b := Encode(c) + rest;
    assert forall i :: 0 <= i < |Encode(c)| ==> b[i] == Encode(c)[i];
    assert x == 64 * (x / 64) + x % 64;
    assert x / 64 == 64 * (x / 64 / 64) + x / 64 % 64;
    assert x / 64 / 64 == 64 * (x / 64 / 64 / 64) + x / 64 / 64 % 64;
  }

  lemma EncodeDecodedOne(b: Bytes)
    requires DecodeOne(b).Some?
    ensures Encode(DecodeOne(b).value.0) == b[..DecodeOne(b).value.1]
  {
    var x := DecodeOne(b).value.0 as int;
    if 0x1_0000 <= x {
      var h1 := 64 * Bits(b[0], 0xF0) + Bits(b[1], 0x80);
      var h2 := 64 * h1 + Bits(b[2], 0x80);
      Parts(x, h2, Bits(b[3], 0x80));
      Parts(h2, h1, Bits(b[2], 0x80));
      Parts(h1, Bits(b[0], 0xF0), Bits(b[1], 0x80));
    } else if 0x800 <= x {
      var h := 64 * Bits(b[0], 0xE0) + Bits(b[1], 0x80);
      Parts(x, h, Bits(b[2], 0x80));
      Parts(h, Bits(b[0], 0xE0), Bits(b[1], 0x80));
    } else if 0x80 <= x {
      Parts(x, Bits(b[0], 0xC0), Bits(b[1], 0x80));
    }
  }

  /** Decoding continues past one character as if it had not been there. */
  lemma DecodePrepend(c: char, rest: Bytes)
    ensures Decode(Encode(c) + rest) == match Decode(rest) case None => None case Some(s) => Some([c] + s)
  {
    DecodeOneEncode(c, rest);
    assert (Encode(c) + rest)[|Encode(c)|..] == rest;
  }

  lemma {:induction false} DecodeOfEncodeAll(s: string)
    ensures Decode(EncodeAll(s)) == Some(s)
  {
    hide Encode, DecodeOne;
    if s != [] {
      DecodeOfEncodeAll(s[1..]);
      DecodePrepend(s[0], EncodeAll(s[1..]));
      assert s == [s[0]] + s[1..];
    }
  }

  lemma {:induction false} EncodeAllOfDecode(b: Bytes)
    requires Decode(b).Some?
    ensures EncodeAll(Decode(b).value) == b
    decreases |b|
  {
    hide Encode, DecodeOne;
    if b != [] {
      var (c, n) := DecodeOne(b).value;
      EncodeDecodedOne(b);
      EncodeAllOfDecode(b[n..]);
      assert Decode(b).value[1..] == Decode(b[n..]).value;
      assert b == b[..n] + b[n..];
    }
  }

  /** Bytes decode to a text exactly when they are that text's encoding. */
  lemma DecodeIsInverse(b: Bytes, s: string)
    ensures Decode(b) == Some(s) <==> b == EncodeAll(s)
  {
    hide Decode, EncodeAll;
    DecodeOfEncodeAll(s);
    if Decode(b) == Some(s) {
      EncodeAllOfDecode(b);
    }
  }

  lemma {:induction false} EncodeAllJoined(a: string, b: string)
    ensures EncodeAll(a + b) == EncodeAll(a) + EncodeAll(b)
  {
    if a == [] {
      assert a + b == b;
    } else {
      assert (a + b)[1..] == a[1..] + b;
      EncodeAllJoined(a[1..], b);
    }
  }

  // ---- the bytes of one character ----

  /** The forms of section 3 of RFC 3629: one to four bytes, the first one telling how many. */
  lemma EncodingIs(c: char)
    ensures var x, b := c as int, Encode(c);
            && (forall i :: 0 < i < |b| ==> 0x80 <= b[i] <= 0xBF)
            && if x <= 0x7F then |b| == 1 && b[0] == x
               else if x <= 0x7FF then
                 |b| == 2 && 0xC2 <= b[0] <= 0xDF && x == (b[0] - 0xC0) as int * 0x40 + (b[1] - 0x80) as int
               else if x <= 0xFFFF then
                 && |b| == 3 && 0xE0 <= b[0] <= 0xEF
                 && x == (b[0] - 0xE0) as int * 0x1000 + (b[1] - 0x80) as int * 0x40 + (b[2] - 0x80) as int
               else
                 && |b| == 4 && 0xF0 <= b[0] <= 0xF4
                 && x == (b[0] - 0xF0) as int * 0x4_0000 + (b[1] - 0x80) as int * 0x1000 + (b[2] - 0x80) as int * 0x40
                         + (b[3] - 0x80) as int
  {
    var x := c as int;
    assert x == 64 * (x / 64) + x % 64;
    assert x / 64 == 64 * (x / 64 / 64) + x / 64 % 64;
    assert x / 64 / 64 == 64 * (x / 64 / 64 / 64) + x / 64 / 64 % 64;
  }
}
