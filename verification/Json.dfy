/** JSON values and the printer. */
module Json {
  import opened Machine
  import opened Decimal

  datatype Json =
    | Null
    | Bool(b: bool)
    | Int(n: u64)
    | Str(s: string)
    | Array(items: seq<Json>)
    | Object(fields: seq<Field>)

  datatype Field = Field(key: string, value: Json)

  const MAX_DEPTH: nat := 128

  /** How many containers lie inside one another. */
  function Nesting(j: Json): nat {
    match j
    case Array(items) => 1 + ItemNesting(items)
    case Object(fields) => 1 + FieldNesting(fields)
    case _ => 0
  }

  function ItemNesting(items: seq<Json>): nat {
    if items == [] then 0 else Max(Nesting(items[0]), ItemNesting(items[1..]))
  }

  function FieldNesting(fields: seq<Field>): nat {
    if fields == [] then 0 else Max(Nesting(fields[0].value), FieldNesting(fields[1..]))
  }

  function Keys(fields: seq<Field>): seq<string> {
    seq(|fields|, i requires 0 <= i < |fields| => fields[i].key)
  }

  /** No object in the value, at any depth, repeats a key. */
  ghost predicate UniqueKeys(j: Json) {
    match j
    case Array(items) => forall i :: 0 <= i < |items| ==> UniqueKeys(items[i])
    case Object(fields) => NoDuplicates(Keys(fields)) && forall i :: 0 <= i < |fields| ==> UniqueKeys(fields[i].value)
    case _ => true
  }

  // ---- the printed form ----

  function HexDigit(d: nat): char
    requires d < 16
  {
    if d < 10 then (d + '0' as int) as char else (d - 10 + 'a' as int) as char
  }

  function Escaped(c: char): string {
    if c == '"' then ['\\', '"']
    else if c == '\\' then ['\\', '\\']
    else if c == '\n' then ['\\', 'n']
    else if c == '\r' then ['\\', 'r']
    else if c == '\t' then ['\\', 't']
    else if (c as int) < 32 then ['\\', 'u', '0', '0', HexDigit(c as int / 16), HexDigit(c as int % 16)]
    else [c]
  }

  function EscapedAll(s: string): string {
    if s == [] then [] else Escaped(s[0]) + EscapedAll(s[1..])
  }

  function Quoted(s: string): string {
    ['"'] + EscapedAll(s) + ['"']
  }

  function Rendered(j: Json): string {
    match j
    case Null => "null"
    case Bool(b) => if b then "true" else "false"
    case Int(n) => Digits(n)
    case Str(s) => Quoted(s)
    case Array(items) => ['['] + RenderedItems(items) + [']']
    case Object(fields) => ['{'] + RenderedFields(fields) + ['}']
  }

  function RenderedItems(items: seq<Json>): string {
    if items == [] then []
    else if |items| == 1 then Rendered(items[0])
    else Rendered(items[0]) + [','] + RenderedItems(items[1..])
  }

  function RenderedField(f: Field): string {
    Quoted(f.key) + [':'] + Rendered(f.value)
  }

  function RenderedFields(fields: seq<Field>): string {
    if fields == [] then []
    else if |fields| == 1 then RenderedField(fields[0])
    else RenderedField(fields[0]) + [','] + RenderedFields(fields[1..])
  }

  lemma {:induction false} EscapedAllSnoc(s: string, c: char)
    ensures EscapedAll(s + [c]) == EscapedAll(s) + Escaped(c)
  {
    if s == [] {
      assert s + [c] == [c];
      assert EscapedAll([c]) == Escaped(c) + EscapedAll([]);
    } else {
      assert (s + [c])[1..] == s[1..] + [c];
      EscapedAllSnoc(s[1..], c);
    }
  }

  lemma {:induction false} RenderedItemsSnoc(items: seq<Json>, j: Json)
    ensures RenderedItems(items + [j]) == RenderedItems(items) + (if items == [] then [] else [',']) + Rendered(j)
  {
    if items == [] {
      assert items + [j] == [j];
    } else {
      assert (items + [j])[1..] == items[1..] + [j];
      RenderedItemsSnoc(items[1..], j);
    }
  }

  lemma {:induction false} RenderedFieldsSnoc(fields: seq<Field>, f: Field)
    ensures RenderedFields(fields + [f]) == RenderedFields(fields) + (if fields == [] then [] else [',']) + RenderedField(f)
  {
    if fields == [] {
      assert fields + [f] == [f];
    } else {
      assert (fields + [f])[1..] == fields[1..] + [f];
      RenderedFieldsSnoc(fields[1..], f);
    }
  }

  // ---- the printer ----

  /** A growing text, as `&mut String`. */
  class Buffer {
    var text: string

    constructor ()
      ensures text == ""
    {
      text := "";
    }

    method PushStr(s: string)
      modifies this
      ensures text == old(text) + s
    {
      text := text + s;
    }
  }

  /** One arm of `write_string`. */
  method WriteChar(c: char, out: Buffer)
    modifies out
    ensures out.text == old(out.text) + Escaped(c)
  {
    if c == '"' {
      out.PushStr(['\\', '"']);
    } else if c == '\\' {
      out.PushStr(['\\', '\\']);
    } else if c == '\n' {
      out.PushStr(['\\', 'n']);
    } else if c == '\r' {
      out.PushStr(['\\', 'r']);
    } else if c == '\t' {
      out.PushStr(['\\', 't']);
    } else if (c as int) < 32 {
      out.PushStr(['\\', 'u', '0', '0', HexDigit(c as int / 16), HexDigit(c as int % 16)]);
    } else {
      out.PushStr([c]);
    }
  }

  /** `write_string` */
  method WriteString(s: string, out: Buffer)
    modifies out
    ensures out.text == old(out.text) + Quoted(s)
  {
    ghost var before := out.text;
    out.PushStr(['"']);
    ghost var start := out.text;
    for i := 0 to |s|
      invariant out.text == start + EscapedAll(s[..i])
    {
      EscapedAllSnoc(s[..i], s[i]);
      assert s[..i + 1] == s[..i] + [s[i]];
      Joined(start, EscapedAll(s[..i]), Escaped(s[i]));
      WriteChar(s[i], out);
    }
    assert s[..|s|] == s;
    out.PushStr(['"']);
    Bracketed(before, ['"'], EscapedAll(s), ['"']);
  }

  lemma Joined(a: string, b: string, c: string)
    ensures a + b + c == a + (b + c)
  {
  }

  lemma Bracketed(a: string, open: string, b: string, close: string)
    ensures a + open + b + close == a + (open + b + close)
  {
  }

  /** `Json::write` */
  method Write(j: Json, out: Buffer)
    modifies out
    ensures out.text == old(out.text) + Rendered(j)
    decreases j
  {
    match j {
      case Null => out.PushStr("null");
      case Bool(b) => out.PushStr(if b then "true" else "false");
      case Int(n) => out.PushStr(Digits(n));
      case Str(s) => WriteString(s, out);
      case Array(items) =>
        Bracketed(out.text, ['['], RenderedItems(items), [']']);
        out.PushStr(['[']);
        WriteItems(items, out);
        out.PushStr([']']);
      case Object(fields) =>
        Bracketed(out.text, ['{'], RenderedFields(fields), ['}']);
        out.PushStr(['{']);
        WriteFields(fields, out);
        out.PushStr(['}']);
    }
  }

  /** The array loop of `Json::write`. */
  method WriteItems(items: seq<Json>, out: Buffer)
    modifies out
    ensures out.text == old(out.text) + RenderedItems(items)
    decreases items
  {
    ghost var start := out.text;
    for i := 0 to |items|
      invariant out.text == start + RenderedItems(items[..i])
    {
      RenderedItemsSnoc(items[..i], items[i]);
      assert items[..i + 1] == items[..i] + [items[i]];
      ghost var comma := if i > 0 then [','] else [];
      Bracketed(start, RenderedItems(items[..i]), comma, Rendered(items[i]));
      if i > 0 {
        out.PushStr([',']);
      }
      Write(items[i], out);
    }
    assert items[..|items|] == items;
  }

  /** The object loop of `Json::write`. */
  method WriteFields(fields: seq<Field>, out: Buffer)
    modifies out
    ensures out.text == old(out.text) + RenderedFields(fields)
    decreases fields
  {
    ghost var start := out.text;
    for i := 0 to |fields|
      invariant out.text == start + RenderedFields(fields[..i])
    {
      RenderedFieldsSnoc(fields[..i], fields[i]);
      assert fields[..i + 1] == fields[..i] + [fields[i]];
      ghost var comma := if i > 0 then [','] else [];
      Bracketed(start, RenderedFields(fields[..i]), comma, RenderedField(fields[i]));
      if i > 0 {
        out.PushStr([',']);
      }
      Bracketed(out.text, Quoted(fields[i].key), [':'], Rendered(fields[i].value));
      WriteString(fields[i].key, out);
      out.PushStr([':']);
      Write(fields[i].value, out);
    }
    assert fields[..|fields|] == fields;
  }

  /** `Json::render` */
  method Render(j: Json) returns (text: string)
    ensures text == Rendered(j)
  {
    var out := new Buffer();
    Write(j, out);
    text := out.text;
  }

  /** `Json::get`: the last field of that name. */
  function Get(j: Json, key: string): Option<Json> {
    if j.Object? then LastField(j.fields, key) else None
  }

  function LastField(fields: seq<Field>, key: string): Option<Json> {
    if fields == [] then None
    else if fields[|fields| - 1].key == key then Some(fields[|fields| - 1].value)
    else LastField(fields[..|fields| - 1], key)
  }

  // ---- the printed form ----

  /** Five short escapes, four lower-case hexadecimal digits for the other control characters, nothing else. */
  lemma EscapesAre(c: char)
    ensures Escaped(c) == if c == '"' then "\\\"" else if c == '\\' then "\\\\" else if c == '\n' then "\\n"
                          else if c == '\r' then "\\r" else if c == '\t' then "\\t"
                          else if c as int < 0x20 then
                            "\\u00" + ["0123456789abcdef"[c as int / 16], "0123456789abcdef"[c as int % 16]]
                          else [c]
  {
  }

  /** Items are printed one after the other between brackets, with commas and no blanks. */
  lemma ItemsArePrinted(a: Json, b: Json)
    ensures Rendered(Array([])) == "[]"
    ensures Rendered(Array([a, b])) == "[" + (Rendered(a) + "," + Rendered(b)) + "]"
  {
    assert [a, b][1..] == [b];
    assert RenderedItems([b]) == Rendered(b);
    assert RenderedItems([a, b]) == Rendered(a) + [','] + Rendered(b);
    assert RenderedItems([]) == [];
  }

  function PrintedPair(key: string, value: string): string {
    "\"" + EscapedAll(key) + "\"" + ":" + value
  }

  /** Fields are printed so between braces, each with its quoted name and a colon. */
  lemma FieldsArePrinted(f: Field, g: Field)
    ensures Rendered(Object([])) == "{}"
    ensures Rendered(Object([f, g]))
            == "{" + (PrintedPair(f.key, Rendered(f.value)) + "," + PrintedPair(g.key, Rendered(g.value))) + "}"
  {
    hide EscapedAll;
    assert [f, g][1..] == [g];
    assert RenderedFields([g]) == RenderedField(g);
    assert RenderedFields([f, g]) == RenderedField(f) + [','] + RenderedField(g);
    assert RenderedFields([]) == [];
    assert RenderedField(f) == PrintedPair(f.key, Rendered(f.value));
    assert RenderedField(g) == PrintedPair(g.key, Rendered(g.value));
  }
}
