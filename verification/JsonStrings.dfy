/** How strings may be spelled, and the string reader exact against it (RFC 8259, section 7). */
module JsonStrings {
  import opened Machine
  import opened JsonSyntax
  import opened Utf8

  // ---- spelling ----

  /** One character of a string: itself, a two-character escape, or one or two `\uXXXX` escapes. */
  datatype Part = Plain(c: char) | Short(letter: byte) | Unicode(hex: Bytes) | Surrogates(high: Bytes, low: Bytes)

  function ShortEscape(letter: byte): Option<char> {
    if letter == QUOTE then Some('"')
    else if letter == BACKSLASH then Some('\\')
    else if letter == SLASH then Some('/')
    else if letter == LOWER_B then Some(8 as char)
    else if letter == LOWER_F then Some(12 as char)
    else if letter == LOWER_N then Some('\n')
    else if letter == LOWER_R then Some('\r')
    else if letter == LOWER_T then Some('\t')
    else None
  }

  predicate IsHex4(hex: Bytes) {
    |hex| == 4 && AllHex(hex)
  }

  predicate GoodPart(p: Part) {
    match p
    case Plain(c) => c as int >= 0x20 && c != '"' && c != '\\'
    case Short(letter) => ShortEscape(letter).Some?
    case Unicode(hex) => IsHex4(hex) && !IsHighSurrogate(HexNumber(hex)) && !IsLowSurrogate(HexNumber(hex))
    case Surrogates(high, low) =>
      IsHex4(high) && IsHex4(low) && IsHighSurrogate(HexNumber(high)) && IsLowSurrogate(HexNumber(low))
  }

  function PartBytes(p: Part): Bytes {
    match p
    case Plain(c) => Encode(c)
    case Short(letter) => [BACKSLASH, letter]
    case Unicode(hex) => [BACKSLASH, LOWER_U] + hex
    case Surrogates(high, low) => [BACKSLASH, LOWER_U] + high + [BACKSLASH, LOWER_U] + low
  }

  function PartChar(p: Part): char
    requires GoodPart(p)
  {
    match p
    case Plain(c) => c
    case Short(letter) => ShortEscape(letter).value
    case Unicode(hex) => HexNumber(hex) as char
    case Surrogates(high, low) =>
      (0x1_0000 + (HexNumber(high) - 0xD800) * 1024 + (HexNumber(low) - 0xDC00)) as char
  }

  predicate GoodParts(parts: seq<Part>) {
    forall i :: 0 <= i < |parts| ==> GoodPart(parts[i])
  }

  function PartsBytes(parts: seq<Part>): Bytes {
    if parts == [] then [] else PartBytes(parts[0]) + PartsBytes(parts[1..])
  }

  function Spelled(parts: seq<Part>): string
    requires GoodParts(parts)
  {
    if parts == [] then [] else [PartChar(parts[0])] + Spelled(parts[1..])
  }

  // ---- what is spelled is read ----

  lemma PlainRunPrepend(a: Bytes, b: Bytes)
    requires forall i :: 0 <= i < |a| ==> IsPlain(a[i])
    ensures PlainRun(a + b) == |a| + PlainRun(b)
  {
    if a == [] {
      assert a + b == b;
    } else {
      assert (a + b)[1..] == a[1..] + b;
      PlainRunPrepend(a[1..], b);
    }
  }

  lemma PlainCharIsPlain(c: char)
    requires GoodPart(Plain(c))
    ensures forall i :: 0 <= i < |Encode(c)| ==> IsPlain(Encode(c)[i])
  {
  }

  lemma PrefixedTwice(a: string, b: string, r: Parsed<string>)
    ensures Prefixed(a, Prefixed(b, r)) == Prefixed(a + b, r)
  {
    if r.Done? {
      assert a + (b + r.value) == a + b + r.value;
    }
  }

  lemma StringEndPrepend(a: string, text: string, t: Bytes)
    ensures StringEnd(a + text, t) == Prefixed(a, StringEnd(text, t))
  {
    if t != [] && t[0] == BACKSLASH && Escape(t[1..]).Done? {
      var e := Escape(t[1..]);
      assert a + text + [e.value] == a + (text + [e.value]);
      PrefixedTwice(a, text + [e.value], StringTail(e.rest));
    }
  }

  /** A character that needs no escape joins the run it stands before. */
  lemma StringTailPlain(c: char, s: Bytes)
    requires GoodPart(Plain(c))
    ensures StringTail(Encode(c) + s) == Prefixed([c], StringTail(s))
  {
    PlainCharIsPlain(c);
    hide Encode, PlainRun, StringEnd, StringTail, Decode, IsPlain, Prefixed;
    var n, b := PlainRun(s), Encode(c) + s;
    PlainRunPrepend(Encode(c), s);
    CutInSecond(Encode(c), s, n);
    assert b[..PlainRun(b)] == Encode(c) + s[..n] && b[PlainRun(b)..] == s[n..];
    DecodePrepend(c, s[..n]);
    RunGrows(c, b, s);
  }

  lemma RunGrows(c: char, b: Bytes, s: Bytes)
    requires b[PlainRun(b)..] == s[PlainRun(s)..]
    requires Decode(b[..PlainRun(b)])
             == match Decode(s[..PlainRun(s)]) case None => None case Some(text) => Some([c] + text)
    ensures StringTail(b) == Prefixed([c], StringTail(s))
  {
    hide PlainRun, StringEnd, StringTail, Decode;
    StringTailParts(b);
    StringTailParts(s);
    if Decode(s[..PlainRun(s)]).Some? {
      StringEndPrepend([c], Decode(s[..PlainRun(s)]).value, s[PlainRun(s)..]);
    }
  }

  lemma StringTailParts(s: Bytes)
    ensures StringTail(s)
            == match Decode(s[..PlainRun(s)]) case None => Bad case Some(text) => StringEnd(text, s[PlainRun(s)..])
  {
    hide PlainRun, StringEnd, Decode;
  }

  /** An escape is read on its own, wherever it stands. */
  lemma EscapeStep(e: Bytes, c: char, s: Bytes)
    requires Escape(e + s) == Done(c, s)
    ensures StringTail([BACKSLASH] + e + s) == Prefixed([c], StringTail(s))
  {
    var b := [BACKSLASH] + e + s;
    hide Escape, Decode;
    assert b[1..] == e + s;
    assert PlainRun(b) == 0 && b[..0] == [] && b[0..] == b;
    NothingDecoded();
    assert "" + [c] == [c];
  }

  lemma NothingDecoded()
    ensures Decode([]) == Some("")
  {
  }

  lemma UnicodeRead(hex: Bytes, s: Bytes)
    requires GoodPart(Unicode(hex))
    ensures Escape([LOWER_U] + hex + s) == Done(HexNumber(hex) as char, s)
  {
    hide HexNumber, AllHex;
    var t := [LOWER_U] + hex + s;
    assert t[1..] == hex + s;
    assert (hex + s)[..4] == hex && (hex + s)[4..] == s;
  }

  lemma SurrogatesRead(high: Bytes, low: Bytes, s: Bytes)
    requires GoodPart(Surrogates(high, low))
    ensures Escape([LOWER_U] + high + [BACKSLASH, LOWER_U] + low + s) == Done(PartChar(Surrogates(high, low)), s)
  {
    hide HexNumber, AllHex;
    var t := [LOWER_U] + high + [BACKSLASH, LOWER_U] + low + s;
    var after := [BACKSLASH, LOWER_U] + low + s;
    assert t[1..] == high + after;
    assert (high + after)[..4] == high && (high + after)[4..] == after;
    assert after[2..] == low + s;
    assert (low + s)[..4] == low && (low + s)[4..] == s;
  }

  lemma PartRead(p: Part, s: Bytes)
    requires GoodPart(p)
    ensures StringTail(PartBytes(p) + s) == Prefixed([PartChar(p)], StringTail(s))
  {
    hide StringTail, Escape, HexNumber, AllHex, Encode, Prefixed;
    match p {
      case Plain(c) => StringTailPlain(c, s);
      case Short(letter) =>
        ShortRead(letter, s);
        EscapeStep([letter], PartChar(p), s);
        assert [BACKSLASH] + [letter] == PartBytes(p);
      case Unicode(hex) =>
        UnicodeRead(hex, s);
        EscapeStep([LOWER_U] + hex, PartChar(p), s);
        assert [BACKSLASH] + ([LOWER_U] + hex) == PartBytes(p);
      case Surrogates(high, low) =>
        SurrogatesRead(high, low, s);
        EscapeStep([LOWER_U] + high + [BACKSLASH, LOWER_U] + low, PartChar(p), s);
        assert [BACKSLASH] + ([LOWER_U] + high + [BACKSLASH, LOWER_U] + low) == PartBytes(p);
    }
  }

  lemma ShortRead(letter: byte, s: Bytes)
    requires ShortEscape(letter).Some?
    ensures Escape([letter] + s) == Done(ShortEscape(letter).value, s)
  {
    assert ([letter] + s)[1..] == s;
  }

  lemma {:induction false} PartsRead(parts: seq<Part>, rest: Bytes)
    requires GoodParts(parts)
    ensures StringTail(PartsBytes(parts) + ([QUOTE] + rest)) == Done(Spelled(parts), rest)
  {
    hide StringTail, PartBytes, PartChar;
    var close := [QUOTE] + rest;
    if parts == [] {
      assert PartsBytes(parts) + close == close;
      StringEnds(rest);
    } else {
      PartsRead(parts[1..], rest);
      PartRead(parts[0], PartsBytes(parts[1..]) + close);
      assert PartsBytes(parts) + close == PartBytes(parts[0]) + (PartsBytes(parts[1..]) + close);
    }
  }

  lemma StringEnds(rest: Bytes)
    ensures StringTail([QUOTE] + rest) == Done("", rest)
  {
    var close := [QUOTE] + rest;
    assert PlainRun(close) == 0 && close[..0] == [] && close[0..] == close && close[1..] == rest;
  }

  // ---- what is read was spelled ----

  lemma EscapeIsPart(u: Bytes) returns (p: Part)
    requires Escape(u).Done?
    ensures GoodPart(p) && PartChar(p) == Escape(u).value
    ensures [BACKSLASH] + u == PartBytes(p) + Escape(u).rest
  {
    hide UnicodeEscape;
    assert u == [u[0]] + u[1..];
    if u[0] == LOWER_U {
      p := UnicodeIsPart(u[1..]);
    } else {
      p := Short(u[0]);
    }
  }

  lemma UnicodeIsPart(t: Bytes) returns (p: Part)
    requires UnicodeEscape(t).Done?
    ensures GoodPart(p) && PartChar(p) == UnicodeEscape(t).value
    ensures [BACKSLASH] + ([LOWER_U] + t) == PartBytes(p) + UnicodeEscape(t).rest
  {
    hide HexNumber, AllHex;
    var hi, after := t[..4], t[4..];
    SplitsAt(t, 4);
    if IsHighSurrogate(HexNumber(hi)) {
      var tail := after[2..];
      var lo := tail[..4];
      p := Surrogates(hi, lo);
      SplitsAt(after, 2);
      SplitsAt(tail, 4);
      assert after[..2] == [BACKSLASH, LOWER_U];
      FlattenPair(hi, lo, tail[4..]);
    } else {
      p := Unicode(hi);
      FlattenOne(hi, after);
    }
  }

  lemma SplitsAt(s: Bytes, n: nat)
    requires n <= |s|
    ensures s == s[..n] + s[n..]
  {
  }

  lemma FlattenOne(hex: Bytes, rest: Bytes)
    ensures [BACKSLASH] + ([LOWER_U] + (hex + rest)) == [BACKSLASH, LOWER_U] + hex + rest
  {
  }

  lemma FlattenPair(high: Bytes, low: Bytes, rest: Bytes)
    ensures [BACKSLASH] + ([LOWER_U] + (high + ([BACKSLASH, LOWER_U] + (low + rest))))
            == [BACKSLASH, LOWER_U] + high + [BACKSLASH, LOWER_U] + low + rest
  {
    FlattenOne(high, [BACKSLASH, LOWER_U] + (low + rest));
  }

  function PlainParts(text: string): (parts: seq<Part>)
    ensures |parts| == |text|
  {
    seq(|text|, i requires 0 <= i < |text| => Plain(text[i]))
  }

  lemma {:induction false} PlainTextIsParts(text: string)
    requires forall i :: 0 <= i < |EncodeAll(text)| ==> IsPlain(EncodeAll(text)[i])
    ensures GoodParts(PlainParts(text)) && Spelled(PlainParts(text)) == text
    ensures PartsBytes(PlainParts(text)) == EncodeAll(text)
  {
    if text != [] {
      var c, tail := text[0], text[1..];
      var b := EncodeAll(text);
      assert b == Encode(c) + EncodeAll(tail);
      assert forall i :: 0 <= i < |EncodeAll(tail)| ==> EncodeAll(tail)[i] == b[|Encode(c)| + i];
      PlainTextIsParts(tail);
      assert PlainParts(text)[1..] == PlainParts(tail);
      assert IsPlain(Encode(c)[0]) by {
        assert b[0] == Encode(c)[0];
      }
      assert GoodPart(Plain(c));
      assert text == [c] + tail;
    }
  }

  lemma OnePart(p: Part, more: seq<Part>)
    requires GoodPart(p) && GoodParts(more)
    ensures GoodParts([p] + more) && Spelled([p] + more) == [PartChar(p)] + Spelled(more)
    ensures PartsBytes([p] + more) == PartBytes(p) + PartsBytes(more)
  {
    assert ([p] + more)[1..] == more;
  }

  lemma NoParts()
    ensures Spelled([]) == [] && PartsBytes([]) == []
  {
  }

  lemma {:induction false} PartsJoined(a: seq<Part>, b: seq<Part>)
    requires GoodParts(a) && GoodParts(b)
    ensures GoodParts(a + b) && Spelled(a + b) == Spelled(a) + Spelled(b)
    ensures PartsBytes(a + b) == PartsBytes(a) + PartsBytes(b)
  {
    hide PartBytes, PartChar, GoodPart, PartsBytes, Spelled;
    if a == [] {
      NoParts();
      assert a + b == b;
    } else {
      var first, others := a[0], a[1..];
      PartsJoined(others, b);
      OnePart(first, others);
      OnePart(first, others + b);
      assert a == [first] + others && a + b == [first] + (others + b);
    }
  }

  lemma {:induction false} PlainRunIsPlain(s: Bytes)
    ensures forall i :: 0 <= i < PlainRun(s) ==> IsPlain(s[i])
  {
    if s != [] && IsPlain(s[0]) {
      PlainRunIsPlain(s[1..]);
    }
  }

  /** A string that is read starts with plain characters, and then ends or goes on with an escape. */
  lemma StringStarts(s: Bytes) returns (text: string, t: Bytes)
    requires StringTail(s).Done?
    ensures s == EncodeAll(text) + t && t != []
    ensures forall i :: 0 <= i < |EncodeAll(text)| ==> IsPlain(EncodeAll(text)[i])
    ensures t[0] == QUOTE || t[0] == BACKSLASH
    ensures t[0] == QUOTE ==> StringTail(s) == Done(text, t[1..])
    ensures t[0] == BACKSLASH ==>
              && Escape(t[1..]).Done?
              && StringTail(s) == Prefixed(text + [Escape(t[1..]).value], StringTail(Escape(t[1..]).rest))
  {
    hide PlainRun, Decode, Escape;
    var n := PlainRun(s);
    text, t := Decode(s[..n]).value, s[n..];
    PlainRunIsPlain(s);
    DecodeIsInverse(s[..n], text);
  }

  lemma {:induction false} StringIsParts(s: Bytes) returns (parts: seq<Part>)
    requires StringTail(s).Done?
    ensures GoodParts(parts) && Spelled(parts) == StringTail(s).value
    ensures s == PartsBytes(parts) + ([QUOTE] + StringTail(s).rest)
    decreases |s|
  {
    hide PlainRun, Decode, Escape, StringTail, PlainParts, PartChar, PartBytes, GoodPart, EncodeAll, Spelled, PartsBytes;
    var text, t := StringStarts(s);
    PlainTextIsParts(text);
    assert t == [t[0]] + t[1..];
    if t[0] == QUOTE {
      parts := PlainParts(text);
    } else {
      var p := EscapeIsPart(t[1..]);
      var r := Escape(t[1..]).rest;
      var more := StringIsParts(r);
      parts := PlainParts(text) + ([p] + more);
      OnePart(p, more);
      PartsJoined(PlainParts(text), [p] + more);
      Flatten(EncodeAll(text), PartBytes(p), PartsBytes(more), [QUOTE] + StringTail(r).rest);
      assert text + [PartChar(p)] + Spelled(more) == text + ([PartChar(p)] + Spelled(more));
    }
  }

  lemma Flatten(a: Bytes, b: Bytes, c: Bytes, d: Bytes)
    ensures a + (b + (c + d)) == a + (b + c) + d
  {
  }

  // ---- what the escapes stand for ----

  lemma ShortEscapesAre(letter: byte, c: char)
    ensures ShortEscape(letter) == Some(c) <==>
              exists i :: 0 <= i < 8 && letter as char == "\"\\/bfnrt"[i]
                          && c as int == [0x22, 0x5C, 0x2F, 8, 12, 10, 13, 9][i]
  {
    if i :| 0 <= i < 8 && letter as char == "\"\\/bfnrt"[i] && c as int == [0x22, 0x5C, 0x2F, 8, 12, 10, 13, 9][i] {
      assert ShortEscape(letter) == Some(c);
    }
    if ShortEscape(letter) == Some(c) {
      var i := if letter == QUOTE then 0 else if letter == BACKSLASH then 1 else if letter == SLASH then 2
               else if letter == LOWER_B then 3 else if letter == LOWER_F then 4 else if letter == LOWER_N then 5
               else if letter == LOWER_R then 6 else 7;
      assert letter as char == "\"\\/bfnrt"[i] && c as int == [0x22, 0x5C, 0x2F, 8, 12, 10, 13, 9][i];
    }
  }

  /** Four digits stand for the character of that number, unless it is one half of a surrogate pair. */
  lemma FourDigitsAre(hex: Bytes)
    requires IsHex4(hex)
    ensures GoodPart(Unicode(hex)) <==> !(0xD800 <= HexNumber(hex) <= 0xDFFF)
    ensures GoodPart(Unicode(hex)) ==> PartChar(Unicode(hex)) as int == HexNumber(hex)
  {
  }

  /** A pair of halves is the UTF-16 form of its character (section 7 of RFC 8259). */
  lemma SurrogatesAre(high: Bytes, low: Bytes, c: char)
    requires IsHex4(high) && IsHex4(low)
    ensures GoodPart(Surrogates(high, low)) && PartChar(Surrogates(high, low)) == c <==>
              && c as int >= 0x1_0000
              && HexNumber(high) == 0xD800 + (c as int - 0x1_0000) / 0x400
              && HexNumber(low) == 0xDC00 + (c as int - 0x1_0000) % 0x400
  {
  }
}
