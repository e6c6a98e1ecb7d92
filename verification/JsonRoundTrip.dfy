/** Printing and parsing undo each other, exactly on the values the parser can return. */
module JsonRoundTrip {
  import opened Machine
  import opened Decimal
  import opened Json
  import opened JsonSyntax
  import opened JsonStrings
  import opened JsonLimits
  import opened JsonGrammar
  import opened Utf8

  // ---- strings: the printer writes what the grammar allows ----

  lemma HexDigitRead(d: nat)
    requires d < 16
    ensures HexDigit(d) as int < 128 && HexValue(HexDigit(d) as int) == Some(d)
  {
  }

  lemma {:induction false} EncodeAscii(t: string)
    requires forall i :: 0 <= i < |t| ==> t[i] as int < 128
    ensures |EncodeAll(t)| == |t|
    ensures forall i :: 0 <= i < |t| ==> EncodeAll(t)[i] == t[i] as int
  {
    if t != [] {
      EncodeAscii(t[1..]);
      assert t == [t[0]] + t[1..];
    }
  }

  lemma FourHexDigits(digits: Bytes, hi: nat, lo: nat)
    requires |digits| == 4 && digits[0] == digits[1] == 0x30 && hi < 16 && lo < 16
    requires HexValue(digits[2]) == Some(hi) && HexValue(digits[3]) == Some(lo)
    ensures AllHex(digits) && HexNumber(digits) == hi * 16 + lo
  {
    var d3, d2, d1 := digits[..3], digits[..3][..2], digits[..3][..2][..1];
    assert d1[..0] == [];
    assert HexNumber(d1) == HexNumber(d1[..0]) * 16 + 0;
    assert HexNumber(d2) == HexNumber(d1) * 16 + 0;
    assert HexNumber(d3) == HexNumber(d2) * 16 + hi;
  }

  /** How the grammar sees the escape of one character. */
  function PartOf(c: char): Part {
    if c == '"' then Short(QUOTE)
    else if c == '\\' then Short(BACKSLASH)
    else if c == '\n' then Short(LOWER_N)
    else if c == '\r' then Short(LOWER_R)
    else if c == '\t' then Short(LOWER_T)
    else if (c as int) < 32 then Unicode([0x30, 0x30, HexDigit(c as int / 16) as int, HexDigit(c as int % 16) as int])
    else Plain(c)
  }

  lemma PartWrites(c: char)
    ensures GoodPart(PartOf(c)) && PartChar(PartOf(c)) == c && PartBytes(PartOf(c)) == EncodeAll(Escaped(c))
  {
    match PartOf(c) {
      case Plain(_) => assert EncodeAll([c]) == Encode(c) + EncodeAll([]);
      case Unicode(_) => ControlWrites(c);
      case _ => EncodeAscii(Escaped(c));
    }
  }

  lemma ControlWrites(c: char)
    requires PartOf(c).Unicode?
    ensures GoodPart(PartOf(c)) && PartChar(PartOf(c)) == c && PartBytes(PartOf(c)) == EncodeAll(Escaped(c))
  {
    hide HexNumber, HexDigit, HexValue, EncodeAll;
    var hi, lo := c as int / 16, c as int % 16;
    HexDigitRead(hi);
    HexDigitRead(lo);
    ZeroDigit();
    FourHexDigits(PartOf(c).hex, hi, lo);
    EncodeAscii(Escaped(c));
  }

  lemma ZeroDigit()
    ensures HexValue(0x30) == Some(0)
  {
  }

  function PartsOf(text: string): seq<Part> {
    if text == [] then [] else [PartOf(text[0])] + PartsOf(text[1..])
  }

  lemma {:induction false} PartsWrite(text: string)
    ensures GoodParts(PartsOf(text)) && Spelled(PartsOf(text)) == text
    ensures PartsBytes(PartsOf(text)) == EncodeAll(EscapedAll(text))
  {
    hide PartOf, PartBytes, PartChar, GoodPart, Escaped, EncodeAll, Encode;
    if text == [] {
      NothingEncoded();
    } else {
      var c, tail := text[0], text[1..];
      PartWrites(c);
      PartsWrite(tail);
      EncodeAllJoined(Escaped(c), EscapedAll(tail));
      OnePart(PartOf(c), PartsOf(tail));
      assert text == [c] + tail;
    }
  }

  lemma NothingEncoded()
    ensures EncodeAll([]) == []
  {
  }

  // ---- values ----

  lemma QuotedBytes(text: string)
    ensures EncodeAll(Quoted(text)) == [QUOTE] + EncodeAll(EscapedAll(text)) + [QUOTE]
  {
    EncodeAllJoined(['"'] + EscapedAll(text), ['"']);
    EncodeAllJoined(['"'], EscapedAll(text));
    EncodeOne('"');
  }

  lemma EncodeOne(c: char)
    requires c as int < 128
    ensures EncodeAll([c]) == [c as int]
  {
    EncodeAscii([c]);
  }

  lemma WrappedBytes(open: char, inner: string, close: char)
    requires open as int < 128 && close as int < 128
    ensures EncodeAll([open] + inner + [close]) == [open as int] + EncodeAll(inner) + [close as int]
  {
    EncodeAllJoined([open] + inner, [close]);
    EncodeAllJoined([open], inner);
    EncodeOne(open);
    EncodeOne(close);
  }

  lemma JoinedBytes(a: string, b: string, close: Bytes)
    ensures EncodeAll(a + [','] + b) + close == EncodeAll(a) + ([COMMA] + (EncodeAll(b) + close))
  {
    hide EncodeAll, Encode;
    EncodeAllJoined(a + [','], b);
    EncodeAllJoined(a, [',']);
    EncodeOne(',');
    var x, y := EncodeAll(a), EncodeAll(b);
    assert x + [COMMA] + y + close == x + ([COMMA] + (y + close));
  }

  /** The tree the printer writes: no blanks anywhere. */
  function Printed(j: Json): Tree {
    match j
    case Int(n) => Whole(EncodeAll(Digits(n)))
    case Str(text) => Text(PartsOf(text))
    case Array(items) => Items([], PrintedItems(items))
    case Object(fields) => Members([], PrintedFields(fields))
    case _ => Literal(j)
  }

  function PrintedItems(items: seq<Json>): (r: seq<Item>)
    ensures |r| == |items|
  {
    if items == [] then [] else [Item([], Printed(items[0]), [])] + PrintedItems(items[1..])
  }

  function PrintedField(f: Field): Member {
    Member([], PartsOf(f.key), [], Item([], Printed(f.value), []))
  }

  function PrintedFields(fields: seq<Field>): (r: seq<Member>)
    ensures |r| == |fields|
  {
    if fields == [] then [] else [PrintedField(fields[0])] + PrintedFields(fields[1..])
  }

  lemma PrintedDigits(t: string)
    requires AllDigits(t)
    ensures AllDigitBytes(EncodeAll(t)) && Ascii(EncodeAll(t)) == t
    ensures |EncodeAll(t)| == |t| && (t != [] ==> EncodeAll(t)[0] == t[0] as int)
  {
    EncodeAscii(t);
    hide EncodeAll;
    assert Ascii(EncodeAll(t)) == t;
  }

  lemma DigitsWrite(n: u64)
    ensures GoodTree(Printed(Int(n))) && Meaning(Printed(Int(n))) == Int(n)
  {
    hide Digits, EncodeAll, ValueOf, Ascii, AllDigits, AllDigitBytes;
    PrintedDigits(Digits(n));
    DigitsRead(n);
  }

  lemma WordsWrite(j: Json)
    requires j.Null? || j.Bool?
    ensures GoodTree(Printed(j)) && Meaning(Printed(j)) == j && TreeBytes(Printed(j)) == EncodeAll(Rendered(j))
  {
    EncodeAscii(Rendered(j));
  }

  /** What is printed is written as the grammar says and means the value. */
  lemma {:induction false} PrintedWrites(j: Json)
    ensures GoodTree(Printed(j)) && Meaning(Printed(j)) == j && TreeBytes(Printed(j)) == EncodeAll(Rendered(j))
    decreases j, 0
  {
    match j {
      case Int(n) => DigitsWrite(n);
      case Str(text) =>
        hide PartsOf, PartsBytes, EncodeAll, EscapedAll, Quoted, Spelled;
        PartsWrite(text);
        QuotedBytes(text);
        var b := EncodeAll(EscapedAll(text));
        assert [QUOTE] + b + [QUOTE] == [QUOTE] + (b + [QUOTE]);
      case Array(items) => ArrayWrites(items);
      case Object(fields) => ObjectWrites(fields);
      case _ => WordsWrite(j);
    }
  }

  lemma {:induction false} ArrayWrites(items: seq<Json>)
    ensures var j := Array(items);
            GoodTree(Printed(j)) && Meaning(Printed(j)) == j && TreeBytes(Printed(j)) == EncodeAll(Rendered(j))
    decreases items, 1
  {
    hide ItemsBytes, ItemMeanings, RenderedItems, PrintedItems, EncodeAll;
    WrappedBytes('[', RenderedItems(items), ']');
    var b := EncodeAll(RenderedItems(items));
    assert [OPEN_BRACKET] + b + [CLOSE_BRACKET] == [OPEN_BRACKET] + (b + [CLOSE_BRACKET]);
    if items == [] {
      NothingWritten();
    } else {
      ItemsWrite(items);
    }
  }

  lemma NothingWritten()
    ensures PrintedItems([]) == [] && PrintedFields([]) == []
    ensures EncodeAll(RenderedItems([])) == [] && EncodeAll(RenderedFields([])) == []
    ensures ItemMeanings([]) == [] && MemberMeanings([]) == []
  {
  }

  lemma {:induction false} ItemsWrite(items: seq<Json>)
    requires items != []
    ensures var r := PrintedItems(items);
            && (forall i :: 0 <= i < |r| ==> GoodItem(r[i]))
            && ItemMeanings(r) == items && ItemsBytes(r) == EncodeAll(RenderedItems(items))
    decreases items, 0
  {
    hide Printed, Rendered, EncodeAll, TreeBytes, Meaning;
    var first, others := items[0], items[1..];
    var item := Item([], Printed(first), []);
    PrintedWrites(first);
    assert GoodItem(item) && ItemBytes(item) == EncodeAll(Rendered(first));
    assert items == [first] + others;
    var r := PrintedItems(items);
    assert r[1..] == PrintedItems(others);
    if others == [] {
      NothingWritten();
      assert r == [item] && items == [first];
    } else {
      ItemsWrite(others);
      JoinedBytes(Rendered(first), RenderedItems(others), []);
      DropEmpty(EncodeAll(Rendered(first) + [','] + RenderedItems(others)));
      DropEmpty(EncodeAll(RenderedItems(others)));
    }
  }

  lemma DropEmpty(b: Bytes)
    ensures b + [] == b
  {
  }

  lemma {:induction false} ObjectWrites(fields: seq<Field>)
    ensures var j := Object(fields);
            GoodTree(Printed(j)) && Meaning(Printed(j)) == j && TreeBytes(Printed(j)) == EncodeAll(Rendered(j))
    decreases fields, 1
  {
    hide MembersBytes, MemberMeanings, RenderedFields, PrintedFields, EncodeAll;
    WrappedBytes('{', RenderedFields(fields), '}');
    var b := EncodeAll(RenderedFields(fields));
    assert [OPEN_BRACE] + b + [CLOSE_BRACE] == [OPEN_BRACE] + (b + [CLOSE_BRACE]);
    if fields == [] {
      NothingWritten();
    } else {
      FieldsWrite(fields);
    }
  }

  lemma {:induction false} FieldWrites(f: Field)
    ensures GoodMember(PrintedField(f)) && MemberMeaning(PrintedField(f)) == f
    ensures MemberBytes(PrintedField(f)) == EncodeAll(RenderedField(f))
    decreases f, 1
  {
    hide Printed, Rendered, EncodeAll, TreeBytes, Meaning, PartsOf, PartsBytes, Quoted, EscapedAll;
    PrintedWrites(f.value);
    PartsWrite(f.key);
    QuotedBytes(f.key);
    EncodeAllJoined(Quoted(f.key) + [':'], Rendered(f.value));
    EncodeAllJoined(Quoted(f.key), [':']);
    EncodeOne(':');
    var item := Item([], Printed(f.value), []);
    var k, v := EncodeAll(EscapedAll(f.key)), EncodeAll(Rendered(f.value));
    assert GoodItem(item) && ItemBytes(item) == v;
    assert [QUOTE] + k + [QUOTE] + [COLON] + v == [] + ([QUOTE] + (k + ([QUOTE] + ([] + ([COLON] + v)))));
  }

  lemma {:induction false} FieldsWrite(fields: seq<Field>)
    requires fields != []
    ensures var r := PrintedFields(fields);
            && (forall i :: 0 <= i < |r| ==> GoodMember(r[i]))
            && MemberMeanings(r) == fields && MembersBytes(r) == EncodeAll(RenderedFields(fields))
    decreases fields, 0
  {
    hide PrintedField, RenderedField, EncodeAll, MemberBytes, MemberMeaning, GoodMember;
    var first, others := fields[0], fields[1..];
    FieldWrites(first);
    assert fields == [first] + others;
    var r := PrintedFields(fields);
    assert r[1..] == PrintedFields(others);
    if others == [] {
      NothingWritten();
      assert r == [PrintedField(first)] && fields == [first];
    } else {
      FieldsWrite(others);
      JoinedBytes(RenderedField(first), RenderedFields(others), []);
      DropEmpty(EncodeAll(RenderedField(first) + [','] + RenderedFields(others)));
      DropEmpty(EncodeAll(RenderedFields(others)));
    }
  }

  // ---- there and back ----

  /**
   * Print then parse: a value is read back exactly when its containers nest at most 128 deep and no
   * object repeats a key; any other value is refused.
   */
  lemma PrintThenParse(j: Json)
    ensures Parsing(Rendered(j)) == if Nesting(j) <= 128 && UniqueKeys(j) then Some(j) else None
  {
    hide EncodeAll, Rendered, Printed, TreeBytes, Meaning, Fits, Value;
    var t := Printed(j);
    PrintedWrites(j);
    TreeStarts(t);
    NoSpace(TreeBytes(t));
    DropEmpty(TreeBytes(t));
    TreeRead(t, [], 0);
    FitsMeaning(j, 0);
  }

  /** Every accepted text yields such a value, so printing it again and parsing that changes nothing. */
  lemma ReprintChangesNothing(text: string)
    requires Parsing(text).Some?
    ensures var j := Parsing(text).value;
            && Nesting(j) <= 128 && UniqueKeys(j)
            && Parsing(Rendered(j)) == Some(j)
  {
    AcceptedFits(SkipSpace(EncodeAll(text)), 0);
    FitsMeaning(Parsing(text).value, 0);
    PrintThenParse(Parsing(text).value);
  }
}
