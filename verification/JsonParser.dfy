/** The parser itself: a cursor over the bytes and a count of open containers. */
module JsonParser {
  import opened Machine
  import opened Decimal
  import opened Json
  import opened JsonSyntax
  import Utf8

  /** The call answered what reading `before` gives, and the cursor stands where that leaves off. */
  ghost predicate Answers<T(!new)>(expected: Parsed<T>, answer: Option<T>, after: Bytes) {
    match expected
    case Done(value, rest) => answer == Some(value) && after == rest
    case Bad => answer == None
  }

  class Parser {
    const bytes: Bytes
    var pos: nat
    var depth: nat

    ghost predicate Valid()
      reads this
    {
      pos <= |bytes|
    }

    /** What is still to be read. */
    ghost function Rest(): Bytes
      requires Valid()
      reads this
    {
      bytes[pos..]
    }

    constructor (bytes: Bytes)
      ensures Valid() && Rest() == bytes && depth == 0 && this.bytes == bytes
    {
      this.bytes := bytes;
      pos := 0;
      depth := 0;
    }

    function Peek(): (r: Option<byte>)
      requires Valid()
      reads this
      ensures r == if Rest() == [] then None else Some(Rest()[0])
    {
      if pos < |bytes| then Some(bytes[pos]) else None
    }

    method Next() returns (c: Option<byte>)
      requires Valid()
      modifies this`pos
      ensures Valid()
      ensures c == if old(Rest()) == [] then None else Some(old(Rest())[0])
      ensures Rest() == if old(Rest()) == [] then [] else old(Rest())[1..]
      ensures pos == old(pos) + if c.Some? then 1 else 0
    {
      c := Peek();
      if c.Some? {
        pos := pos + 1;
      }
    }

    method SkipWs()
      requires Valid()
      modifies this`pos
      ensures Valid() && pos >= old(pos)
      ensures Rest() == SkipSpace(old(Rest()))
    {
      while Peek().Some? && IsSpace(Peek().value)
        invariant Valid() && pos >= old(pos)
        invariant SkipSpace(Rest()) == SkipSpace(old(Rest()))
        decreases |bytes| - pos
      {
        assert Rest()[1..] == bytes[pos + 1..];
        pos := pos + 1;
      }
    }

    method Literal(word: Bytes) returns (ok: bool)
      requires Valid()
      modifies this`pos
      ensures Valid()
      ensures ok <==> word <= old(Rest())
      ensures Rest() == if ok then old(Rest())[|word|..] else old(Rest())
    {
      if word <= bytes[pos..] {
        pos := pos + |word|;
        return true;
      }
      return false;
    }

    method Boolean() returns (r: Option<Json>)
      requires Valid()
      modifies this`pos
      ensures Valid() && Answers(Word(old(Rest())), r, Rest())
    {
      var t := Literal(TRUE);
      if t {
        return Some(Bool(true));
      }
      var f := Literal(FALSE);
      if f {
        return Some(Bool(false));
      }
      return None;
    }

    method NullLiteral() returns (r: Option<Json>)
      requires Valid()
      modifies this`pos
      ensures Valid() && Answers(NullWord(old(Rest())), r, Rest())
    {
      var n := Literal(NULL);
      return if n then Some(Null) else None;
    }

    /** The digit loop of `number`. */
    method SkipDigits()
      requires Valid()
      modifies this`pos
      ensures Valid() && pos == old(pos) + DigitRun(old(Rest()))
      ensures Rest() == old(Rest())[DigitRun(old(Rest()))..]
    {
      ghost var start, run := pos, DigitRun(Rest());
      while Peek().Some? && IsDigitByte(Peek().value)
        invariant Valid() && start <= pos <= start + run
        invariant DigitRun(Rest()) == start + run - pos
        decreases |bytes| - pos
      {
        assert Rest()[1..] == bytes[pos + 1..];
        var _ := Next();
      }
      assert pos == start + run;
    }

    method NumberValue() returns (r: Option<Json>)
      requires Valid() && Rest() != [] && (Rest()[0] == MINUS || IsDigitByte(Rest()[0]))
      modifies this`pos
      ensures Valid() && Answers(Number(old(Rest())), r, Rest())
    {
      hide DigitRun, ParseUnsigned, Ascii;
      ghost var s := Rest();
      var start := pos;
      if Peek() == Some(MINUS) {
        var _ := Next();
      }
      ghost var sign := pos - start;
      assert Rest() == s[sign..];
      SkipDigits();
      ghost var n := sign + DigitRun(s[sign..]);
      assert Rest() == s[n..];
      assert bytes[start..pos] == s[..n];
      var text := Ascii(bytes[start..pos]);
      var after := Peek();
      if after == Some(DOT) || after == Some(LOWER_E) || after == Some(UPPER_E) {
        return None;
      }
      if |text| > 1 && text[0] == '0' {
        return None;
      }
      match ParseUnsigned(text, U64_MAX) {
        case None => return None;
        case Some(v) => return Some(Int(v));
      }
    }

    method HexFour() returns (r: Option<nat>)
      requires Valid()
      modifies this`pos
      ensures Valid() && Answers(Hex4(old(Rest())), r, Rest())
      ensures r.Some? ==> r.value < 0x1_0000
    {
      hide HexValue;
      ghost var s := Rest();
      var code := 0;
      for i := 0 to 4
        invariant Valid() && i <= |s| && Rest() == s[i..]
        invariant AllHex(s[..i]) && code == HexNumber(s[..i])
      {
        var c := Next();
        if c.None? {
          return None;
        }
        var digit := HexValue(c.value);
        if digit.None? {
          if |s| >= 4 {
            assert s[..4][i] == c.value;
          }
          return None;
        }
        code := code * 16 + digit.value;
        assert s[..i + 1] == s[..i] + [c.value];
        assert s[..i + 1][..i] == s[..i];
      }
      return Some(code);
    }

    method UnicodeChar() returns (r: Option<char>)
      requires Valid()
      modifies this`pos
      ensures Valid() && Answers(UnicodeEscape(old(Rest())), r, Rest())
    {
      var hi := HexFour();
      if hi.None? {
        return None;
      }
      ghost var rest := Rest();
      if IsHighSurrogate(hi.value) {
        var b := Next();
        if b != Some(BACKSLASH) {
          return None;
        }
        var u := Next();
        if u != Some(LOWER_U) {
          return None;
        }
        assert Rest() == rest[2..];
        var lo := HexFour();
        if lo.None? || !IsLowSurrogate(lo.value) {
          return None;
        }
        return Some((0x1_0000 + (hi.value - 0xD800) * 1024 + (lo.value - 0xDC00)) as char);
      }
      if IsLowSurrogate(hi.value) {
        return None;
      }
      return Some(hi.value as char);
    }

    method EscapeChar() returns (r: Option<char>)
      requires Valid()
      modifies this`pos
      ensures Valid() && Answers(Escape(old(Rest())), r, Rest())
    {
      var e := Next();
      if e.None? {
        return None;
      }
      if e.value == QUOTE {
        return Some('"');
      } else if e.value == BACKSLASH {
        return Some('\\');
      } else if e.value == SLASH {
        return Some('/');
      } else if e.value == LOWER_N {
        return Some('\n');
      } else if e.value == LOWER_R {
        return Some('\r');
      } else if e.value == LOWER_T {
        return Some('\t');
      } else if e.value == LOWER_B {
        return Some(8 as char);
      } else if e.value == LOWER_F {
        return Some(12 as char);
      } else if e.value == LOWER_U {
        r := UnicodeChar();
      } else {
        return None;
      }
    }

    /** The inner loop of `string`: as many plain bytes as there are. */
    method PlainBytes() returns (text: Option<string>)
      requires Valid()
      modifies this`pos
      ensures Valid()
      ensures text == Utf8.Decode(old(Rest())[..PlainRun(old(Rest()))])
      ensures Rest() == old(Rest())[PlainRun(old(Rest()))..]
    {
      ghost var s := Rest();
      ghost var n := PlainRun(s);
      var run := pos;
      while Peek().Some? && IsPlain(Peek().value)
        invariant Valid() && run <= pos <= run + n
        invariant PlainRun(Rest()) == run + n - pos
        decreases |bytes| - pos
      {
        assert Rest()[1..] == bytes[pos + 1..];
        pos := pos + 1;
      }
      assert pos == run + n;
      assert bytes[run..pos] == s[..n];
      if pos > run {
        text := Utf8.Decode(bytes[run..pos]);
      } else {
        text := Some("");
      }
    }

    method StringValue() returns (r: Option<string>)
      requires Valid() && Rest() != []
      modifies this`pos
      ensures Valid() && Answers(StringTail(old(Rest())[1..]), r, Rest())
    {
      var _ := Next();
      ghost var s0 := Rest();
      var s := "";
      assert Prefixed(s, StringTail(s0)) == StringTail(s0) by {
        assert StringTail(s0).Done? ==> "" + StringTail(s0).value == StringTail(s0).value;
      }
      while true
        invariant Valid()
        invariant Prefixed(s, StringTail(Rest())) == StringTail(s0)
        decreases |bytes| - pos
      {
        ghost var before := Rest();
        var text := PlainBytes();
        if text.None? {
          return None;
        }
        ghost var t := Rest();
        ghost var soFar := s;
        assert StringTail(before) == StringEnd(text.value, t);
        s := s + text.value;
        var c := Next();
        if c.None? {
          return None;
        }
        if c.value == QUOTE {
          return Some(s);
        }
        if c.value != BACKSLASH {
          return None;
        }
        assert Rest() == t[1..];
        var e := EscapeChar();
        if e.None? {
          return None;
        }
        PrefixedThrice(soFar, text.value, [e.value], StringTail(Rest()));
        s := s + [e.value];
      }
    }

    // ---- values ----

    method Value() returns (r: Option<Json>)
      requires Valid()
      modifies this
      ensures Valid()
      ensures Answers(JsonSyntax.Value(old(Rest()), old(depth)), r, Rest())
      ensures r.Some? ==> depth == old(depth) && pos > old(pos)
      decreases |bytes| - pos, 5
    {
      SkipWs();
      var c := Peek();
      if c == Some(OPEN_BRACE) || c == Some(OPEN_BRACKET) {
        r := Nested(c == Some(OPEN_BRACE));
      } else if c == Some(QUOTE) {
        var s := StringValue();
        r := if s.Some? then Some(Str(s.value)) else None;
      } else if c == Some(LOWER_T) || c == Some(LOWER_F) {
        r := Boolean();
      } else if c == Some(LOWER_N) {
        r := NullLiteral();
      } else if c.Some? && (c.value == MINUS || IsDigitByte(c.value)) {
        r := NumberValue();
      } else {
        r := None;
      }
    }

    /** `nested`: one more open container, refused past the limit. */
    method Nested(isObject: bool) returns (r: Option<Json>)
      requires Valid() && Rest() != []
      modifies this
      ensures Valid()
      ensures old(depth) + 1 > MAX_DEPTH ==> r == None
      ensures old(depth) + 1 <= MAX_DEPTH ==>
                Answers(if isObject then ObjectTail(old(Rest())[1..], old(depth) + 1)
                        else ArrayTail(old(Rest())[1..], old(depth) + 1), r, Rest())
      ensures r.Some? ==> depth == old(depth) && pos > old(pos)
      decreases |bytes| - pos, 4
    {
      depth := depth + 1;
      if depth > MAX_DEPTH {
        return None;
      }
      if isObject {
        r := ObjectValue();
      } else {
        r := ArrayValue();
      }
      if r.Some? {
        depth := depth - 1;
      }
    }

    method ObjectValue() returns (r: Option<Json>)
      requires Valid() && Rest() != []
      modifies this
      ensures Valid()
      ensures Answers(ObjectTail(old(Rest())[1..], old(depth)), r, Rest())
      ensures r.Some? ==> depth == old(depth) && pos > old(pos)
      decreases |bytes| - pos, 3
    {
      var _ := Next();
      SkipWs();
      if Peek() == Some(CLOSE_BRACE) {
        var _ := Next();
        return Some(Object([]));
      }
      var fields := Fields();
      return if fields.Some? then Some(Object(fields.value)) else None;
    }

    /** The loop of `object`. */
    method Fields() returns (r: Option<seq<Field>>)
      requires Valid()
      modifies this
      ensures Valid()
      ensures Answers(FieldsFrom(old(Rest()), old(depth), {}), r, Rest())
      ensures r.Some? ==> depth == old(depth) && pos >= old(pos)
      decreases |bytes| - pos, 6
    {
      hide JsonSyntax.Value, StringTail, SkipSpace, PlainRun, DigitRun;
      ghost var s0 := Rest();
      var fields: seq<Field> := [];
      var seen: set<string> := {};
      PrefixedNoFields(FieldsFrom(s0, depth, {}));
      while true
        invariant Valid() && depth == old(depth) && pos >= old(pos)
        invariant PrefixedFields(fields, FieldsFrom(Rest(), depth, seen)) == FieldsFrom(s0, depth, {})
        decreases |bytes| - pos
      {
        ghost var s := Rest();
        SkipWs();
        if Peek() != Some(QUOTE) {
          return None;
        }
        var key := StringValue();
        if key.None? {
          return None;
        }
        if key.value in seen {
          return None;
        }
        SkipWs();
        var colon := Next();
        if colon != Some(COLON) {
          return None;
        }
        var value := Value();
        if value.None? {
          return None;
        }
        var f := Field(key.value, value.value);
        SkipWs();
        ghost var x := Rest();
        assert FieldsFrom(s, depth, seen) == FieldsAfter(f, x, depth, seen);
        ghost var done := fields;
        fields := fields + [f];
        var c := Next();
        if c == Some(COMMA) {
          seen := seen + {f.key};
          PrefixedFieldsTwice(done, [f], FieldsFrom(Rest(), depth, seen));
        } else if c == Some(CLOSE_BRACE) {
          return Some(fields);
        } else {
          return None;
        }
      }
    }

    method ArrayValue() returns (r: Option<Json>)
      requires Valid() && Rest() != []
      modifies this
      ensures Valid()
      ensures Answers(ArrayTail(old(Rest())[1..], old(depth)), r, Rest())
      ensures r.Some? ==> depth == old(depth) && pos > old(pos)
      decreases |bytes| - pos, 3
    {
      var _ := Next();
      SkipWs();
      if Peek() == Some(CLOSE_BRACKET) {
        var _ := Next();
        return Some(Array([]));
      }
      var items := Items();
      return if items.Some? then Some(Array(items.value)) else None;
    }

    /** The loop of `array`. */
    method Items() returns (r: Option<seq<Json>>)
      requires Valid()
      modifies this
      ensures Valid()
      ensures Answers(ItemsFrom(old(Rest()), old(depth)), r, Rest())
      ensures r.Some? ==> depth == old(depth) && pos >= old(pos)
      decreases |bytes| - pos, 6
    {
      ghost var s0 := Rest();
      var items: seq<Json> := [];
      PrefixedNoItems(ItemsFrom(s0, depth));
      while true
        invariant Valid() && depth == old(depth) && pos >= old(pos)
        invariant PrefixedItems(items, ItemsFrom(Rest(), depth)) == ItemsFrom(s0, depth)
        decreases |bytes| - pos
      {
        ghost var s := Rest();
        var value := Value();
        if value.None? {
          return None;
        }
        SkipWs();
        ghost var x := Rest();
        assert ItemsFrom(s, depth) == ItemsAfter(value.value, x, depth);
        ghost var done := items;
        items := items + [value.value];
        var c := Next();
        if c == Some(COMMA) {
          PrefixedItemsTwice(done, [value.value], ItemsFrom(Rest(), depth));
        } else if c == Some(CLOSE_BRACKET) {
          return Some(items);
        } else {
          return None;
        }
      }
    }
  }

  ghost function PrefixedItems(items: seq<Json>, r: Parsed<seq<Json>>): Parsed<seq<Json>> {
    match r
    case Bad => Bad
    case Done(more, rest) => Done(items + more, rest)
  }

  ghost function PrefixedFields(fields: seq<Field>, r: Parsed<seq<Field>>): Parsed<seq<Field>> {
    match r
    case Bad => Bad
    case Done(more, rest) => Done(fields + more, rest)
  }

  lemma PrefixedNoItems(r: Parsed<seq<Json>>)
    ensures PrefixedItems([], r) == r
  {
    if r.Done? {
      assert [] + r.value == r.value;
    }
  }

  lemma PrefixedNoFields(r: Parsed<seq<Field>>)
    ensures PrefixedFields([], r) == r
  {
    if r.Done? {
      assert [] + r.value == r.value;
    }
  }

  lemma PrefixedItemsTwice(a: seq<Json>, b: seq<Json>, r: Parsed<seq<Json>>)
    ensures PrefixedItems(a, PrefixedItems(b, r)) == PrefixedItems(a + b, r)
  {
    if r.Done? {
      assert a + (b + r.value) == a + b + r.value;
    }
  }

  lemma PrefixedFieldsTwice(a: seq<Field>, b: seq<Field>, r: Parsed<seq<Field>>)
    ensures PrefixedFields(a, PrefixedFields(b, r)) == PrefixedFields(a + b, r)
  {
    if r.Done? {
      assert a + (b + r.value) == a + b + r.value;
    }
  }

  lemma PrefixedThrice(a: string, b: string, c: string, r: Parsed<string>)
    ensures Prefixed(a, Prefixed(b + c, r)) == Prefixed(a + b + c, r)
  {
    if r.Done? {
      assert a + (b + c + r.value) == a + b + c + r.value;
    }
  }

  /** `parse` */
  method Parse(input: string) returns (r: Option<Json>)
    ensures r == Parsing(input)
  {
    var parser := new Parser(Utf8.EncodeAll(input));
    parser.SkipWs();
    var value := parser.Value();
    if value.None? {
      return None;
    }
    parser.SkipWs();
    if parser.pos != |parser.bytes| {
      return None;
    }
    return value;
  }
}
