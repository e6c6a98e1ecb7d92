/** The grammar of JSON texts as trees, and the parser exact against it (RFC 8259, sections 2 to 6). */
module JsonGrammar {
  import opened Machine
  import opened Json
  import opened JsonSyntax
  import opened JsonStrings
  import opened JsonLimits
  import opened Utf8
  import Decimal

  // ---- texts ----

  datatype Tree =
    | Literal(j: Json)
    | Whole(digits: Bytes)
    | Text(parts: seq<Part>)
    | Items(blank: Bytes, items: seq<Item>)
    | Members(blank: Bytes, members: seq<Member>)

  /** A value with the blanks around it. */
  datatype Item = Item(before: Bytes, value: Tree, after: Bytes)

  datatype Member = Member(before: Bytes, key: seq<Part>, after: Bytes, item: Item)

  predicate Blank(b: Bytes) {
    forall i :: 0 <= i < |b| ==> IsSpace(b[i])
  }

  predicate AllDigitBytes(b: Bytes) {
    forall i :: 0 <= i < |b| ==> IsDigitByte(b[i])
  }

  predicate GoodTree(t: Tree) {
    match t
    case Literal(j) => j.Null? || j.Bool?
    case Whole(digits) =>
      && digits != [] && AllDigitBytes(digits) && (|digits| > 1 ==> digits[0] != 0x30)
      && Decimal.AllDigits(Ascii(digits)) && Decimal.ValueOf(Ascii(digits)) <= U64_MAX
    case Text(parts) => GoodParts(parts)
    case Items(blank, items) => Blank(blank) && forall i :: 0 <= i < |items| ==> GoodItem(items[i])
    case Members(blank, members) => Blank(blank) && forall i :: 0 <= i < |members| ==> GoodMember(members[i])
  }

  predicate GoodItem(item: Item) {
    Blank(item.before) && GoodTree(item.value) && Blank(item.after)
  }

  predicate GoodMember(m: Member) {
    Blank(m.before) && GoodParts(m.key) && Blank(m.after) && GoodItem(m.item)
  }

  function TreeBytes(t: Tree): Bytes
    requires GoodTree(t)
  {
    match t
    case Literal(j) => if j.Null? then NULL else if j.b then TRUE else FALSE
    case Whole(digits) => digits
    case Text(parts) => [QUOTE] + (PartsBytes(parts) + [QUOTE])
    case Items(blank, items) => [OPEN_BRACKET] + ((if items == [] then blank else ItemsBytes(items)) + [CLOSE_BRACKET])
    case Members(blank, members) => [OPEN_BRACE] + ((if members == [] then blank else MembersBytes(members)) + [CLOSE_BRACE])
  }

  function ItemBytes(item: Item): Bytes
    requires GoodItem(item)
  {
    item.before + (TreeBytes(item.value) + item.after)
  }

  function MemberBytes(m: Member): Bytes
    requires GoodMember(m)
  {
    m.before + ([QUOTE] + (PartsBytes(m.key) + ([QUOTE] + (m.after + ([COLON] + ItemBytes(m.item))))))
  }

  function ItemsBytes(items: seq<Item>): Bytes
    requires items != [] && forall i :: 0 <= i < |items| ==> GoodItem(items[i])
  {
    if |items| == 1 then ItemBytes(items[0]) else ItemBytes(items[0]) + ([COMMA] + ItemsBytes(items[1..]))
  }

  function MembersBytes(members: seq<Member>): Bytes
    requires members != [] && forall i :: 0 <= i < |members| ==> GoodMember(members[i])
  {
    if |members| == 1 then MemberBytes(members[0]) else MemberBytes(members[0]) + ([COMMA] + MembersBytes(members[1..]))
  }

  function Meaning(t: Tree): Json
    requires GoodTree(t)
  {
    match t
    case Literal(j) => j
    case Whole(digits) => Int(Decimal.ValueOf(Ascii(digits)))
    case Text(parts) => Str(Spelled(parts))
    case Items(_, items) => Array(ItemMeanings(items))
    case Members(_, members) => Object(MemberMeanings(members))
  }

  function MemberMeaning(m: Member): Field
    requires GoodMember(m)
  {
    assert GoodItem(m.item);
    Field(Spelled(m.key), Meaning(m.item.value))
  }

  function ItemMeanings(items: seq<Item>): seq<Json>
    requires forall i :: 0 <= i < |items| ==> GoodItem(items[i])
  {
    if items == [] then []
    else
      assert GoodItem(items[0]);
      [Meaning(items[0].value)] + ItemMeanings(items[1..])
  }

  function MemberMeanings(members: seq<Member>): seq<Field>
    requires forall i :: 0 <= i < |members| ==> GoodMember(members[i])
  {
    if members == [] then [] else [MemberMeaning(members[0])] + MemberMeanings(members[1..])
  }

  /** The text is written as the grammar says, and this is the value it stands for. */
  ghost predicate StandsFor(text: string, j: Json) {
    exists item :: GoodItem(item) && Utf8.EncodeAll(text) == ItemBytes(item) && Meaning(item.value) == j
  }

  // ---- blanks ----

  lemma {:induction false} SkipBlank(b: Bytes, s: Bytes)
    requires Blank(b)
    ensures SkipSpace(b + s) == SkipSpace(s)
  {
    if b == [] {
      assert b + s == s;
    } else {
      assert (b + s)[1..] == b[1..] + s;
      SkipBlank(b[1..], s);
    }
  }

  lemma {:induction false} SkipSpaceTwice(s: Bytes)
    ensures SkipSpace(SkipSpace(s)) == SkipSpace(s)
  {
    if s != [] && IsSpace(s[0]) {
      SkipSpaceTwice(s[1..]);
    }
  }

  /** What `SkipSpace` takes away. */
  lemma {:induction false} BlanksBefore(s: Bytes) returns (b: Bytes)
    ensures Blank(b) && s == b + SkipSpace(s)
  {
    if s != [] && IsSpace(s[0]) {
      var more := BlanksBefore(s[1..]);
      b := [s[0]] + more;
      assert s == [s[0]] + s[1..];
    } else {
      b := [];
    }
  }

  // ---- texts: what is written is read ----

  /** Nothing follows that a number would swallow or stumble over. */
  predicate NumberEnds(rest: Bytes) {
    rest != [] ==> !IsDigitByte(rest[0]) && rest[0] != DOT && rest[0] != LOWER_E && rest[0] != UPPER_E
  }

  lemma {:induction false} DigitRunOf(a: Bytes, b: Bytes)
    requires forall i :: 0 <= i < |a| ==> IsDigitByte(a[i])
    requires b != [] ==> !IsDigitByte(b[0])
    ensures DigitRun(a + b) == |a|
  {
    if a == [] {
      assert a + b == b;
    } else {
      assert (a + b)[1..] == a[1..] + b;
      DigitRunOf(a[1..], b);
    }
  }

  lemma TreeStarts(t: Tree)
    requires GoodTree(t)
    ensures TreeBytes(t) != [] && !IsSpace(TreeBytes(t)[0])
    ensures TreeBytes(t)[0] != CLOSE_BRACKET && TreeBytes(t)[0] != CLOSE_BRACE
  {
    hide ItemsBytes, MembersBytes, PartsBytes;
    if t.Whole? {
      assert IsDigitByte(t.digits[0]);
    }
  }

  lemma ValueAfterBlank(b: Bytes, s: Bytes, depth: nat)
    requires Blank(b)
    ensures Value(b + s, depth) == Value(s, depth)
  {
    SkipBlank(b, s);
    hide StringTail, Number, Word, NullWord, ObjectTail, ArrayTail, SkipSpace;
  }

  lemma WholeRead(digits: Bytes, rest: Bytes, depth: nat)
    requires GoodTree(Whole(digits)) && NumberEnds(rest)
    ensures Value(digits + rest, depth) == Done(Meaning(Whole(digits)), rest)
  {
    hide DigitRun, Decimal.ValueOf;
    var s := digits + rest;
    DigitRunOf(digits, rest);
    assert s[0] == digits[0] && IsDigitByte(digits[0]);
    assert s[0..] == s && s[..|digits|] == digits && s[|digits|..] == rest;
    assert Ascii(digits)[0] == digits[0] as char;
    assert Decimal.ParseUnsigned(Ascii(digits), U64_MAX) == Some(Decimal.ValueOf(Ascii(digits)));
  }

  lemma LiteralRead(j: Json, rest: Bytes, depth: nat)
    requires GoodTree(Literal(j))
    ensures Value(TreeBytes(Literal(j)) + rest, depth) == Done(j, rest)
  {
    var e := TreeBytes(Literal(j));
    var s := e + rest;
    assert e <= s && s[|e|..] == rest;
  }

  lemma TextRead(parts: seq<Part>, rest: Bytes, depth: nat)
    requires GoodParts(parts)
    ensures Value(TreeBytes(Text(parts)) + rest, depth) == Done(Str(Spelled(parts)), rest)
  {
    hide StringTail, PartsBytes, Spelled;
    PartsRead(parts, rest);
    var s := TreeBytes(Text(parts)) + rest;
    assert s[1..] == PartsBytes(parts) + ([QUOTE] + rest);
  }

  /** Reading a value as the grammar writes it gives what it means, or fails if that does not fit. */
  lemma {:induction false} TreeRead(t: Tree, rest: Bytes, depth: nat)
    requires GoodTree(t) && (t.Whole? ==> NumberEnds(rest))
    ensures Value(TreeBytes(t) + rest, depth) == if Fits(Meaning(t), depth) then Done(Meaning(t), rest) else Bad
    decreases t, 0
  {
    match t {
      case Literal(j) => LiteralRead(j, rest, depth);
      case Whole(digits) => WholeRead(digits, rest, depth);
      case Text(parts) => TextRead(parts, rest, depth);
      case Items(blank, items) =>
        hide *;
        ArrayRead(t, blank, items, rest, depth);
      case Members(blank, members) =>
        hide *;
        ObjectRead(t, blank, members, rest, depth);
    }
  }

  /** What can stand after a value inside a container. */
  predicate Closes(x: Bytes) {
    x != [] && (x[0] == COMMA || x[0] == CLOSE_BRACKET || x[0] == CLOSE_BRACE)
  }

  lemma {:induction false} ItemRead(item: Item, x: Bytes, depth: nat)
    requires GoodItem(item) && Closes(x)
    ensures Value(ItemBytes(item) + x, depth)
            == if Fits(Meaning(item.value), depth) then Done(Meaning(item.value), item.after + x) else Bad
    ensures SkipSpace(item.after + x) == x
    decreases item, 1
  {
    hide Value, TreeBytes, Fits, Meaning;
    var Item(before, value, after) := item;
    SkipBlank(after, x);
    assert NumberEnds(after + x) by {
      if after != [] {
        assert IsSpace(after[0]);
      }
    }
    TreeRead(value, after + x, depth);
    ValueAfterBlank(before, TreeBytes(value) + (after + x), depth);
    assert ItemBytes(item) + x == before + (TreeBytes(value) + (after + x));
  }

  lemma {:induction false} ArrayRead(t: Tree, blank: Bytes, items: seq<Item>, rest: Bytes, depth: nat)
    requires GoodTree(t) && t == Items(blank, items)
    ensures Value(TreeBytes(t) + rest, depth) == if Fits(Meaning(t), depth) then Done(Meaning(t), rest) else Bad
    decreases items, 2
  {
    hide ItemsFrom, ItemsFit, ItemsBytes, SkipSpace, ItemMeanings;
    var close := [CLOSE_BRACKET] + rest;
    var s := TreeBytes(t) + rest;
    if items == [] {
      assert s[1..] == blank + close;
      SkipBlank(blank, close);
      NoSpace(close);
      assert close[1..] == rest;
      NoMeanings();
    } else {
      assert s[1..] == ItemsBytes(items) + close;
      ItemsRead(items, rest, depth + 1);
      ItemsFromBlank(s[1..], depth + 1);
      ItemsStart(items, close);
    }
    OpensArray(s, depth);
  }

  lemma NoMeanings()
    ensures ItemMeanings([]) == [] && MemberMeanings([]) == []
    ensures forall depth :: ItemsFit([], depth) && FieldsFit([], depth, {})
  {
  }

  lemma NoSpace(s: Bytes)
    requires s != [] ==> !IsSpace(s[0])
    ensures SkipSpace(s) == s
  {
  }

  lemma OpensArray(s: Bytes, depth: nat)
    requires s != [] && s[0] == OPEN_BRACKET
    ensures Value(s, depth) == if depth + 1 > MAX_DEPTH then Bad else ArrayTail(s[1..], depth + 1)
  {
    NoSpace(s);
    hide SkipSpace, ArrayTail;
  }

  lemma OpensObject(s: Bytes, depth: nat)
    requires s != [] && s[0] == OPEN_BRACE
    ensures Value(s, depth) == if depth + 1 > MAX_DEPTH then Bad else ObjectTail(s[1..], depth + 1)
  {
    NoSpace(s);
    hide SkipSpace, ObjectTail;
  }

  /** Blanks in front of the first item, or the first field, do not matter. */
  lemma ItemsFromBlank(s: Bytes, depth: nat)
    ensures ItemsFrom(SkipSpace(s), depth) == ItemsFrom(s, depth)
  {
    var b := BlanksBefore(s);
    ValueAfterBlank(b, SkipSpace(s), depth);
    hide Value, SkipSpace;
  }

  lemma FieldsFromBlank(s: Bytes, depth: nat)
    ensures FieldsFrom(SkipSpace(s), depth, {}) == FieldsFrom(s, depth, {})
  {
    SkipSpaceTwice(s);
    hide Value, SkipSpace, StringTail;
  }

  lemma ItemsStart(items: seq<Item>, x: Bytes)
    requires items != [] && forall i :: 0 <= i < |items| ==> GoodItem(items[i])
    ensures var t := SkipSpace(ItemsBytes(items) + x); t != [] && t[0] != CLOSE_BRACKET
  {
    var Item(before, value, after) := items[0];
    assert GoodItem(items[0]);
    TreeStarts(value);
    hide TreeBytes;
    var tail := after + (if |items| == 1 then [] else [COMMA] + ItemsBytes(items[1..])) + x;
    assert ItemsBytes(items) + x == before + (TreeBytes(value) + tail);
    SkipBlank(before, TreeBytes(value) + tail);
    NoSpace(TreeBytes(value) + tail);
  }

  lemma {:induction false} ItemsRead(items: seq<Item>, rest: Bytes, depth: nat)
    requires items != [] && forall i :: 0 <= i < |items| ==> GoodItem(items[i])
    ensures ItemsFrom(ItemsBytes(items) + ([CLOSE_BRACKET] + rest), depth)
            == if ItemsFit(ItemMeanings(items), depth) then Done(ItemMeanings(items), rest) else Bad
    decreases items, 1
  {
    hide Value, ItemBytes, Fits, Meaning, SkipSpace;
    var close := [CLOSE_BRACKET] + rest;
    var first, others := items[0], items[1..];
    assert items == [first] + others;
    assert close[1..] == rest;
    if |items| == 1 {
      ItemRead(first, close, depth);
      NoMeanings();
      assert others == [] && ItemMeanings(items) == [Meaning(first.value)];
    } else {
      var after := [COMMA] + (ItemsBytes(others) + close);
      assert after[1..] == ItemsBytes(others) + close;
      assert ItemsBytes(items) + close == ItemBytes(first) + after;
      ItemRead(first, after, depth);
      ItemsRead(others, rest, depth);
    }
  }

  lemma {:induction false} MemberRead(m: Member, x: Bytes, depth: nat, seen: set<string>)
    requires GoodMember(m) && Closes(x)
    ensures FieldsFrom(MemberBytes(m) + x, depth, seen)
            == if MemberMeaning(m).key !in seen && Fits(MemberMeaning(m).value, depth)
               then FieldsAfter(MemberMeaning(m), x, depth, seen) else Bad
    decreases m, 2
  {
    hide Value, Fits, Meaning, FieldsFrom, FieldsAfter, Spelled, PartsBytes, ItemBytes, StringTail, SkipSpace;
    var Member(before, key, after, item) := m;
    assert GoodItem(item);
    var value := ItemBytes(item) + x;
    var colon := after + ([COLON] + value);
    ItemRead(item, x, depth);
    PartsRead(key, colon);
    var s := PartsBytes(key) + ([QUOTE] + colon);
    assert MemberBytes(m) + x == before + ([QUOTE] + s);
    SkipBlank(before, [QUOTE] + s);
    NoSpace([QUOTE] + s);
    SkipBlank(after, [COLON] + value);
    NoSpace([COLON] + value);
    MemberParts(MemberBytes(m) + x, s, colon, value, item.after + x, MemberMeaning(m), x, depth, seen);
  }

  lemma MemberParts(b: Bytes, s: Bytes, colon: Bytes, value: Bytes, end: Bytes, f: Field, x: Bytes, depth: nat,
                    seen: set<string>)
    requires SkipSpace(b) == [QUOTE] + s && StringTail(s) == Done(f.key, colon)
    requires SkipSpace(colon) == [COLON] + value && SkipSpace(end) == x
    requires Value(value, depth) == if Fits(f.value, depth) then Done(f.value, end) else Bad
    ensures FieldsFrom(b, depth, seen)
            == if f.key !in seen && Fits(f.value, depth) then FieldsAfter(f, x, depth, seen) else Bad
  {
    hide StringTail, Value, Fits, FieldsAfter, SkipSpace;
    assert ([QUOTE] + s)[1..] == s;
    assert ([COLON] + value)[1..] == value;
  }

  lemma {:induction false} MembersRead(members: seq<Member>, rest: Bytes, depth: nat, seen: set<string>)
    requires members != [] && forall i :: 0 <= i < |members| ==> GoodMember(members[i])
    ensures FieldsFrom(MembersBytes(members) + ([CLOSE_BRACE] + rest), depth, seen)
            == if FieldsFit(MemberMeanings(members), depth, seen) then Done(MemberMeanings(members), rest) else Bad
    decreases members, 1
  {
    hide FieldsFrom, MemberBytes, Fits, MemberMeaning, GoodMember;
    var close := [CLOSE_BRACE] + rest;
    var first, others := members[0], members[1..];
    assert members == [first] + others;
    assert close[1..] == rest;
    if |members| == 1 {
      MemberRead(first, close, depth, seen);
      NoMeanings();
      assert others == [] && MemberMeanings(members) == [MemberMeaning(first)];
    } else {
      var after := [COMMA] + (MembersBytes(others) + close);
      assert after[1..] == MembersBytes(others) + close;
      assert MembersBytes(members) + close == MemberBytes(first) + after;
      MemberRead(first, after, depth, seen);
      MembersRead(others, rest, depth, seen + {MemberMeaning(first).key});
    }
  }

  lemma {:induction false} ObjectRead(t: Tree, blank: Bytes, members: seq<Member>, rest: Bytes, depth: nat)
    requires GoodTree(t) && t == Members(blank, members)
    ensures Value(TreeBytes(t) + rest, depth) == if Fits(Meaning(t), depth) then Done(Meaning(t), rest) else Bad
    decreases members, 2
  {
    hide FieldsFrom, FieldsFit, MembersBytes, SkipSpace, MemberMeanings;
    var close := [CLOSE_BRACE] + rest;
    var s := TreeBytes(t) + rest;
    if members == [] {
      assert s[1..] == blank + close;
      SkipBlank(blank, close);
      NoSpace(close);
      assert close[1..] == rest;
      NoMeanings();
    } else {
      assert s[1..] == MembersBytes(members) + close;
      MembersRead(members, rest, depth + 1, {});
      FieldsFromBlank(s[1..], depth + 1);
      MembersStart(members, close);
    }
    OpensObject(s, depth);
  }

  lemma MembersStart(members: seq<Member>, x: Bytes)
    requires members != [] && forall i :: 0 <= i < |members| ==> GoodMember(members[i])
    ensures var t := SkipSpace(MembersBytes(members) + x); t != [] && t[0] == QUOTE
  {
    var Member(before, key, after, item) := members[0];
    assert GoodMember(members[0]);
    hide ItemBytes, PartsBytes, SkipSpace;
    var inner := PartsBytes(key) + ([QUOTE] + (after + ([COLON] + ItemBytes(item))));
    if |members| == 1 {
      QuoteFirst(before, inner, x);
    } else {
      var more := [COMMA] + MembersBytes(members[1..]);
      QuoteFirst(before, inner, more + x);
      assert before + ([QUOTE] + inner) + more + x == before + ([QUOTE] + inner) + (more + x);
    }
  }

  lemma QuoteFirst(before: Bytes, inner: Bytes, x: Bytes)
    requires Blank(before)
    ensures var t := SkipSpace(before + ([QUOTE] + inner) + x); t != [] && t[0] == QUOTE
  {
    var s := [QUOTE] + inner + x;
    assert before + ([QUOTE] + inner) + x == before + s;
    SkipBlank(before, s);
    NoSpace(s);
  }

  // ---- texts: what is read was written ----

  lemma NumberIsWhole(s: Bytes) returns (digits: Bytes)
    requires s != [] && (s[0] == MINUS || IsDigitByte(s[0])) && Number(s).Done?
    ensures GoodTree(Whole(digits)) && Meaning(Whole(digits)) == Number(s).value && s == digits + Number(s).rest
  {
    hide DigitRun, Decimal.ValueOf;
    var n := (if s[0] == MINUS then 1 else 0) + DigitRun(s[if s[0] == MINUS then 1 else 0..]);
    digits := s[..n];
    assert s == digits + s[n..];
    var text := Ascii(digits);
    assert text == [] || text[0] == s[0] as char;
    assert s[0] != MINUS;
    assert s[0..] == s;
  }

  lemma WordIsLiteral(s: Bytes)
    ensures Word(s).Done? ==> GoodTree(Literal(Word(s).value)) && s == TreeBytes(Literal(Word(s).value)) + Word(s).rest
    ensures NullWord(s).Done? ==> s == TreeBytes(Literal(Null)) + NullWord(s).rest && NullWord(s).value == Null
  {
  }

  /** Everything the parser reads as a value is one that the grammar writes, after some blanks. */
  lemma {:induction false} TreeOf(s: Bytes, depth: nat) returns (before: Bytes, t: Tree)
    requires Value(s, depth).Done?
    ensures Blank(before) && GoodTree(t) && Meaning(t) == Value(s, depth).value
    ensures s == before + (TreeBytes(t) + Value(s, depth).rest)
    decreases |s|, 2
  {
    before := BlanksBefore(s);
    var v := SkipSpace(s);
    t := BareTreeOf(s, v, depth);
  }

  lemma {:induction false} BareTreeOf(s: Bytes, v: Bytes, depth: nat) returns (t: Tree)
    requires v == SkipSpace(s) && Value(s, depth).Done?
    ensures GoodTree(t) && Meaning(t) == Value(s, depth).value && v == TreeBytes(t) + Value(s, depth).rest
    decreases |s|, 1
  {
    hide SkipSpace, StringTail, Number, Word, NullWord, ObjectTail, ArrayTail, PartsBytes, Spelled;
    assert v == [v[0]] + v[1..];
    if v[0] == OPEN_BRACE {
      t := ObjectOf(v[1..], depth + 1);
    } else if v[0] == OPEN_BRACKET {
      t := ArrayOf(v[1..], depth + 1);
    } else if v[0] == QUOTE {
      var parts := StringIsParts(v[1..]);
      t := Text(parts);
      QuotedParts(PartsBytes(parts), Value(s, depth).rest);
    } else if v[0] == LOWER_T || v[0] == LOWER_F || v[0] == LOWER_N {
      WordIsLiteral(v);
      t := Literal(Value(s, depth).value);
    } else {
      var digits := NumberIsWhole(v);
      t := Whole(digits);
    }
  }

  lemma QuotedParts(b: Bytes, rest: Bytes)
    ensures [QUOTE] + (b + ([QUOTE] + rest)) == [QUOTE] + (b + [QUOTE]) + rest
  {
  }

  lemma {:induction false} ItemOf(s: Bytes, depth: nat) returns (item: Item, x: Bytes)
    requires Value(s, depth).Done?
    ensures x == SkipSpace(Value(s, depth).rest)
    ensures GoodItem(item) && Meaning(item.value) == Value(s, depth).value && s == ItemBytes(item) + x
    decreases |s|, 3
  {
    hide Value, SkipSpace, TreeBytes, Meaning;
    var rest := Value(s, depth).rest;
    var before, t := TreeOf(s, depth);
    var after := BlanksBefore(rest);
    item, x := Item(before, t, after), SkipSpace(rest);
    assert before + (TreeBytes(t) + (after + x)) == before + (TreeBytes(t) + after) + x;
  }

  lemma {:induction false} ArrayOf(s: Bytes, depth: nat) returns (t: Tree)
    requires ArrayTail(s, depth).Done?
    ensures GoodTree(t) && Meaning(t) == ArrayTail(s, depth).value
    ensures TreeBytes(t) + ArrayTail(s, depth).rest == [OPEN_BRACKET] + s
    decreases |s|, 6
  {
    hide ItemsFrom, SkipSpace, ItemsBytes, ItemMeanings;
    var rest := ArrayTail(s, depth).rest;
    var blank := BlanksBefore(s);
    var v := SkipSpace(s);
    if v != [] && v[0] == CLOSE_BRACKET {
      t := Items(blank, []);
      NoMeanings();
      assert v == [CLOSE_BRACKET] + rest;
      assert [OPEN_BRACKET] + (blank + [CLOSE_BRACKET]) + rest == [OPEN_BRACKET] + (blank + ([CLOSE_BRACKET] + rest));
    } else {
      ItemsFromBlank(s, depth);
      var items := ItemsOf(s, depth);
      t := Items([], items);
      assert [OPEN_BRACKET] + (ItemsBytes(items) + [CLOSE_BRACKET]) + rest
             == [OPEN_BRACKET] + (ItemsBytes(items) + ([CLOSE_BRACKET] + rest));
    }
  }

  lemma {:induction false} ItemsOf(s: Bytes, depth: nat) returns (items: seq<Item>)
    requires ItemsFrom(s, depth).Done?
    ensures items != [] && (forall i :: 0 <= i < |items| ==> GoodItem(items[i]))
    ensures ItemMeanings(items) == ItemsFrom(s, depth).value
    ensures s == ItemsBytes(items) + ([CLOSE_BRACKET] + ItemsFrom(s, depth).rest)
    decreases |s|, 5
  {
    hide Value, SkipSpace, ItemBytes, Meaning;
    var first, x := ItemOf(s, depth);
    var rest := ItemsFrom(s, depth).rest;
    assert x == [x[0]] + x[1..];
    NoMeanings();
    if x[0] == COMMA {
      var others := ItemsOf(x[1..], depth);
      items := [first] + others;
      assert items[1..] == others;
      assert ItemBytes(first) + ([COMMA] + (ItemsBytes(others) + ([CLOSE_BRACKET] + rest)))
             == ItemBytes(first) + ([COMMA] + ItemsBytes(others)) + ([CLOSE_BRACKET] + rest);
    } else {
      items := [first];
      assert items[1..] == [];
    }
  }

  lemma {:induction false} ObjectOf(s: Bytes, depth: nat) returns (t: Tree)
    requires ObjectTail(s, depth).Done?
    ensures GoodTree(t) && Meaning(t) == ObjectTail(s, depth).value
    ensures TreeBytes(t) + ObjectTail(s, depth).rest == [OPEN_BRACE] + s
    decreases |s|, 6
  {
    hide FieldsFrom, SkipSpace, MembersBytes, MemberMeanings;
    var rest := ObjectTail(s, depth).rest;
    var blank := BlanksBefore(s);
    var v := SkipSpace(s);
    if v != [] && v[0] == CLOSE_BRACE {
      t := Members(blank, []);
      NoMeanings();
      assert v == [CLOSE_BRACE] + rest;
      assert [OPEN_BRACE] + (blank + [CLOSE_BRACE]) + rest == [OPEN_BRACE] + (blank + ([CLOSE_BRACE] + rest));
    } else {
      FieldsFromBlank(s, depth);
      var members := MembersOf(s, depth, {});
      t := Members([], members);
      assert [OPEN_BRACE] + (MembersBytes(members) + [CLOSE_BRACE]) + rest
             == [OPEN_BRACE] + (MembersBytes(members) + ([CLOSE_BRACE] + rest));
    }
  }

  /** The first field that is read, up to what follows it. */
  lemma {:induction false} MemberOf(s: Bytes, depth: nat, seen: set<string>) returns (m: Member, x: Bytes)
    requires FieldsFrom(s, depth, seen).Done?
    ensures GoodMember(m) && s == MemberBytes(m) + x && |x| < |s|
    ensures FieldsFrom(s, depth, seen) == FieldsAfter(MemberMeaning(m), x, depth, seen)
    decreases |s|, 4
  {
    hide SkipSpace, StringTail, Value, FieldsAfter, PartsBytes, Spelled, ItemBytes, Meaning;
    var before := BlanksBefore(s);
    var u := SkipSpace(s);
    var key := StringIsParts(u[1..]);
    var colon := StringTail(u[1..]).rest;
    var after := BlanksBefore(colon);
    var v := SkipSpace(colon);
    var item, y := ItemOf(v[1..], depth);
    m, x := Member(before, key, after, item), y;
    assert u == [QUOTE] + u[1..] && v == [COLON] + v[1..];
    assert s == before + ([QUOTE] + (PartsBytes(key) + ([QUOTE] + (after + ([COLON] + (ItemBytes(item) + x))))));
    FlattenMember(before, PartsBytes(key), after, ItemBytes(item), x);
  }

  lemma FlattenMember(a: Bytes, b: Bytes, c: Bytes, d: Bytes, x: Bytes)
    ensures a + ([QUOTE] + (b + ([QUOTE] + (c + ([COLON] + (d + x))))))
            == a + ([QUOTE] + (b + ([QUOTE] + (c + ([COLON] + d))))) + x
  {
  }

  lemma {:induction false} MembersOf(s: Bytes, depth: nat, seen: set<string>) returns (members: seq<Member>)
    requires FieldsFrom(s, depth, seen).Done?
    ensures members != [] && (forall i :: 0 <= i < |members| ==> GoodMember(members[i]))
    ensures MemberMeanings(members) == FieldsFrom(s, depth, seen).value
    ensures s == MembersBytes(members) + ([CLOSE_BRACE] + FieldsFrom(s, depth, seen).rest)
    decreases |s|, 5
  {
    hide FieldsFrom, MemberBytes, MemberMeaning, GoodMember;
    var first, x := MemberOf(s, depth, seen);
    var rest := FieldsFrom(s, depth, seen).rest;
    assert x == [x[0]] + x[1..];
    NoMeanings();
    if x[0] == COMMA {
      var others := MembersOf(x[1..], depth, seen + {MemberMeaning(first).key});
      members := [first] + others;
      assert members[1..] == others;
      assert MemberBytes(first) + ([COMMA] + (MembersBytes(others) + ([CLOSE_BRACE] + rest)))
             == MemberBytes(first) + ([COMMA] + MembersBytes(others)) + ([CLOSE_BRACE] + rest);
    } else {
      members := [first];
      assert members[1..] == [];
    }
  }

  // ---- the parser is exact ----

  /**
   * A text is accepted with a value exactly when the grammar lets it stand for that value, the value
   * nests at most 128 deep, and no object in it repeats a key.
   */
  lemma ParserIsExact(text: string, j: Json)
    ensures Parsing(text) == Some(j) <==> StandsFor(text, j) && Nesting(j) <= 128 && UniqueKeys(j)
  {
    var s := Utf8.EncodeAll(text);
    FitsMeaning(j, 0);
    if Parsing(text) == Some(j) {
      AcceptedIsWritten(text, j);
    }
    if StandsFor(text, j) && Fits(j, 0) {
      WrittenIsAccepted(text, j);
    }
  }

  lemma AcceptedIsWritten(text: string, j: Json)
    requires Parsing(text) == Some(j)
    ensures StandsFor(text, j) && Fits(j, 0)
  {
    hide Value, Fits, Meaning, TreeBytes, SkipSpace;
    var s := Utf8.EncodeAll(text);
    var before := BlanksBefore(s);
    var v := SkipSpace(s);
    ValueAfterBlank(before, v, 0);
    AcceptedFits(v, 0);
    var item, x := ItemOf(s, 0);
    assert ItemBytes(item) + [] == ItemBytes(item);
  }

  lemma WrittenIsAccepted(text: string, j: Json)
    requires StandsFor(text, j) && Fits(j, 0)
    ensures Parsing(text) == Some(j)
  {
    hide Value, Fits, Meaning, TreeBytes, SkipSpace;
    var s := Utf8.EncodeAll(text);
    var item :| GoodItem(item) && s == ItemBytes(item) && Meaning(item.value) == j;
    var Item(before, t, after) := item;
    var bare := TreeBytes(t) + after;
    TreeStarts(t);
    SkipBlank(before, bare);
    NoSpace(bare);
    assert NumberEnds(after) by {
      if after != [] {
        assert IsSpace(after[0]);
      }
    }
    TreeRead(t, after, 0);
    assert after + [] == after;
    SkipBlank(after, []);
    NoSpace([]);
  }
}
