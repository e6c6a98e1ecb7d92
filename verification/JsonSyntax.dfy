/**
 * What the parser accepts, as functions on the bytes still to be read (RFC 8259, with whole numbers
 * only, at most 128 nested containers, and no key twice in one object).
 */
module JsonSyntax {
  import opened Machine
  import opened Decimal
  import opened Json
  import Utf8

  datatype Parsed<+T> = Done(value: T, rest: Bytes) | Bad

  const QUOTE: byte := 0x22
  const BACKSLASH: byte := 0x5C
  const SLASH: byte := 0x2F
  const COMMA: byte := 0x2C
  const COLON: byte := 0x3A
  const MINUS: byte := 0x2D
  const DOT: byte := 0x2E
  const OPEN_BRACE: byte := 0x7B
  const CLOSE_BRACE: byte := 0x7D
  const OPEN_BRACKET: byte := 0x5B
  const CLOSE_BRACKET: byte := 0x5D
  const LOWER_B: byte := 0x62
  const LOWER_E: byte := 0x65
  const LOWER_F: byte := 0x66
  const LOWER_N: byte := 0x6E
  const LOWER_R: byte := 0x72
  const LOWER_T: byte := 0x74
  const LOWER_U: byte := 0x75
  const UPPER_E: byte := 0x45

  predicate IsSpace(b: byte) {
    b == 0x20 || b == 0x09 || b == 0x0A || b == 0x0D
  }

  predicate IsDigitByte(b: byte) {
    0x30 <= b <= 0x39
  }

  /** A byte a string may carry as it is. */
  predicate IsPlain(b: byte) {
    b != QUOTE && b != BACKSLASH && b >= 0x20
  }

  function SkipSpace(s: Bytes): (r: Bytes)
    ensures |r| <= |s|
    ensures r != [] ==> !IsSpace(r[0])
  {
    if s != [] && IsSpace(s[0]) then SkipSpace(s[1..]) else s
  }

  function PlainRun(s: Bytes): (n: nat)
    ensures n <= |s|
    ensures n < |s| ==> !IsPlain(s[n])
  {
    if s != [] && IsPlain(s[0]) then 1 + PlainRun(s[1..]) else 0
  }

  function DigitRun(s: Bytes): (n: nat)
    ensures n <= |s|
    ensures forall i :: 0 <= i < n ==> IsDigitByte(s[i])
    ensures n < |s| ==> !IsDigitByte(s[n])
  {
    if s != [] && IsDigitByte(s[0]) then 1 + DigitRun(s[1..]) else 0
  }

  // ---- strings ----

  function HexValue(b: byte): (d: Option<nat>)
    ensures d.Some? ==> d.value < 16
  {
    if 0x30 <= b <= 0x39 then Some(b - 0x30)
    else if 0x61 <= b <= 0x66 then Some(b - 0x61 + 10)
    else if 0x41 <= b <= 0x46 then Some(b - 0x41 + 10)
    else None
  }

  predicate AllHex(s: Bytes) {
    forall i :: 0 <= i < |s| ==> HexValue(s[i]).Some?
  }

  function HexNumber(s: Bytes): (n: nat)
    requires AllHex(s)
    ensures |s| <= 1 ==> n < 0x10
    ensures |s| <= 2 ==> n < 0x100
    ensures |s| <= 3 ==> n < 0x1000
    ensures |s| <= 4 ==> n < 0x1_0000
  {
    if s == [] then 0 else HexNumber(s[..|s| - 1]) * 16 + HexValue(s[|s| - 1]).value
  }

  function Hex4(s: Bytes): (r: Parsed<nat>)
    ensures r.Done? ==> r.value < 0x1_0000 && |r.rest| < |s|
  {
    if |s| < 4 || !AllHex(s[..4]) then Bad else Done(HexNumber(s[..4]), s[4..])
  }

  predicate IsHighSurrogate(x: nat) {
    0xD800 <= x <= 0xDBFF
  }

  predicate IsLowSurrogate(x: nat) {
    0xDC00 <= x <= 0xDFFF
  }

  /** What follows `\\u`: four hex digits, or a surrogate pair of them. */
  function UnicodeEscape(s: Bytes): (r: Parsed<char>)
    ensures r.Done? ==> |r.rest| < |s|
  {
    match Hex4(s)
    case Bad => Bad
    case Done(hi, rest) =>
      if IsHighSurrogate(hi) then
        if |rest| < 2 || rest[0] != BACKSLASH || rest[1] != LOWER_U then Bad
        else
          match Hex4(rest[2..])
          case Bad => Bad
          case Done(lo, after) =>
            if !IsLowSurrogate(lo) then Bad
            else Done((0x1_0000 + (hi - 0xD800) * 1024 + (lo - 0xDC00)) as char, after)
      else if IsLowSurrogate(hi) then Bad
      else Done(hi as char, rest)
  }

  /** What follows a backslash. */
  function Escape(s: Bytes): (r: Parsed<char>)
    ensures r.Done? ==> |r.rest| < |s|
  {
    if s == [] then Bad
    else if s[0] == QUOTE then Done('"', s[1..])
    else if s[0] == BACKSLASH then Done('\\', s[1..])
    else if s[0] == SLASH then Done('/', s[1..])
    else if s[0] == LOWER_N then Done('\n', s[1..])
    else if s[0] == LOWER_R then Done('\r', s[1..])
    else if s[0] == LOWER_T then Done('\t', s[1..])
    else if s[0] == LOWER_B then Done(8 as char, s[1..])
    else if s[0] == LOWER_F then Done(12 as char, s[1..])
    else if s[0] == LOWER_U then UnicodeEscape(s[1..])
    else Bad
  }

  function Prefixed(text: string, r: Parsed<string>): Parsed<string> {
    match r
    case Bad => Bad
    case Done(more, rest) => Done(text + more, rest)
  }

  /** What follows an opening quote, up to and with the closing one. */
  function StringTail(s: Bytes): (r: Parsed<string>)
    ensures r.Done? ==> |r.rest| < |s|
    decreases |s|, 1
  {
    var n := PlainRun(s);
    match Utf8.Decode(s[..n])
    case None => Bad
    case Some(text) => StringEnd(text, s[n..])
  }

  /** What ends a run of plain bytes: the closing quote, or an escape and more. */
  function StringEnd(text: string, t: Bytes): (r: Parsed<string>)
    ensures r.Done? ==> |r.rest| < |t|
    decreases |t|, 0
  {
    if t == [] then Bad
    else if t[0] == QUOTE then Done(text, t[1..])
    else if t[0] == BACKSLASH then
      match Escape(t[1..])
      case Bad => Bad
      case Done(c, rest) => Prefixed(text + [c], StringTail(rest))
    else Bad
  }

  // ---- numbers and words ----

  function Ascii(s: Bytes): (t: string)
    requires forall i :: 0 <= i < |s| ==> s[i] < 128
  {
    seq(|s|, i requires 0 <= i < |s| => s[i] as char)
  }

  function Number(s: Bytes): (r: Parsed<Json>)
    requires s != [] && (s[0] == MINUS || IsDigitByte(s[0]))
    ensures r.Done? ==> |r.rest| < |s|
  {
    var sign := if s[0] == MINUS then 1 else 0;
    var n := sign + DigitRun(s[sign..]);
    var text := Ascii(s[..n]);
    var rest := s[n..];
    if rest != [] && (rest[0] == DOT || rest[0] == LOWER_E || rest[0] == UPPER_E) then Bad
    else if |text| > 1 && text[0] == '0' then Bad
    else match ParseUnsigned(text, U64_MAX)
      case None => Bad
      case Some(v) => Done(Int(v), rest)
  }

  const TRUE: Bytes := [LOWER_T, LOWER_R, LOWER_U, LOWER_E]
  const FALSE: Bytes := [LOWER_F, 0x61, 0x6C, 0x73, LOWER_E]
  const NULL: Bytes := [LOWER_N, LOWER_U, 0x6C, 0x6C]

  function Word(s: Bytes): (r: Parsed<Json>)
    ensures r.Done? ==> |r.rest| < |s|
  {
    if TRUE <= s then Done(Bool(true), s[4..])
    else if FALSE <= s then Done(Bool(false), s[5..])
    else Bad
  }

  function NullWord(s: Bytes): (r: Parsed<Json>)
    ensures r.Done? ==> |r.rest| < |s|
  {
    if NULL <= s then Done(Null, s[4..]) else Bad
  }

  // ---- values ----

  function Value(s: Bytes, depth: nat): (r: Parsed<Json>)
    ensures r.Done? ==> |r.rest| < |s|
    decreases |s|, 2
  {
    var t := SkipSpace(s);
    if t == [] then Bad
    else if t[0] == OPEN_BRACE || t[0] == OPEN_BRACKET then
      if depth + 1 > MAX_DEPTH then Bad
      else if t[0] == OPEN_BRACE then ObjectTail(t[1..], depth + 1)
      else ArrayTail(t[1..], depth + 1)
    else if t[0] == QUOTE then
      match StringTail(t[1..])
      case Bad => Bad
      case Done(text, rest) => Done(Str(text), rest)
    else if t[0] == LOWER_T || t[0] == LOWER_F then Word(t)
    else if t[0] == LOWER_N then NullWord(t)
    else if t[0] == MINUS || IsDigitByte(t[0]) then Number(t)
    else Bad
  }

  /** What follows an opening brace. */
  function ObjectTail(s: Bytes, depth: nat): (r: Parsed<Json>)
    ensures r.Done? ==> |r.rest| < |s|
    decreases |s|, 1
  {
    var t := SkipSpace(s);
    if t != [] && t[0] == CLOSE_BRACE then Done(Object([]), t[1..])
    else match FieldsFrom(t, depth, {})
      case Bad => Bad
      case Done(fields, rest) => Done(Object(fields), rest)
  }

  /** Fields up to the closing brace, none of them named in `seen`. */
  function FieldsFrom(s: Bytes, depth: nat, seen: set<string>): (r: Parsed<seq<Field>>)
    ensures r.Done? ==> |r.rest| < |s|
    decreases |s|, 0
  {
    var t := SkipSpace(s);
    if t == [] || t[0] != QUOTE then Bad
    else
      match StringTail(t[1..])
      case Bad => Bad
      case Done(key, u) =>
        if key in seen then Bad
        else
          var v := SkipSpace(u);
          if v == [] || v[0] != COLON then Bad
          else
            match Value(v[1..], depth)
            case Bad => Bad
            case Done(value, w) => FieldsAfter(Field(key, value), SkipSpace(w), depth, seen)
  }

  /** What follows one field: another, or the closing brace. */
  function FieldsAfter(f: Field, x: Bytes, depth: nat, seen: set<string>): (r: Parsed<seq<Field>>)
    ensures r.Done? ==> |r.rest| < |x|
    decreases |x|, 1
  {
    if x == [] then Bad
    else if x[0] == COMMA then
      match FieldsFrom(x[1..], depth, seen + {f.key})
      case Bad => Bad
      case Done(more, rest) => Done([f] + more, rest)
    else if x[0] == CLOSE_BRACE then Done([f], x[1..])
    else Bad
  }

  /** What follows an opening bracket. */
  function ArrayTail(s: Bytes, depth: nat): (r: Parsed<Json>)
    ensures r.Done? ==> |r.rest| < |s|
    decreases |s|, 4
  {
    var t := SkipSpace(s);
    if t != [] && t[0] == CLOSE_BRACKET then Done(Array([]), t[1..])
    else match ItemsFrom(t, depth)
      case Bad => Bad
      case Done(items, rest) => Done(Array(items), rest)
  }

  /** Items up to the closing bracket. */
  function ItemsFrom(s: Bytes, depth: nat): (r: Parsed<seq<Json>>)
    ensures r.Done? ==> |r.rest| < |s|
    decreases |s|, 3
  {
    match Value(s, depth)
    case Bad => Bad
    case Done(item, w) => ItemsAfter(item, SkipSpace(w), depth)
  }

  /** What follows one item: another, or the closing bracket. */
  function ItemsAfter(item: Json, x: Bytes, depth: nat): (r: Parsed<seq<Json>>)
    ensures r.Done? ==> |r.rest| < |x|
    decreases |x|, 1
  {
    if x == [] then Bad
    else if x[0] == COMMA then
      match ItemsFrom(x[1..], depth)
      case Bad => Bad
      case Done(more, rest) => Done([item] + more, rest)
    else if x[0] == CLOSE_BRACKET then Done([item], x[1..])
    else Bad
  }

  /** `parse` */
  function Parsing(input: string): Option<Json> {
    match Value(SkipSpace(Utf8.EncodeAll(input)), 0)
    case Bad => None
    case Done(j, rest) => if SkipSpace(rest) == [] then Some(j) else None
  }

  // ---- which characters the constants are ----

  lemma SpacesAre(b: byte)
    ensures IsSpace(b) <==> b as char in " \t\n\r"
  {
  }

  lemma PunctuationIs()
    ensures [QUOTE as char, BACKSLASH as char, SLASH as char] == "\"\\/"
    ensures [COMMA as char, COLON as char, MINUS as char, DOT as char] == ",:-."
    ensures [OPEN_BRACE as char, CLOSE_BRACE as char, OPEN_BRACKET as char, CLOSE_BRACKET as char] == "{}[]"
    ensures [LOWER_E as char, UPPER_E as char, LOWER_U as char] == "eEu"
    ensures Ascii(TRUE) == "true" && Ascii(FALSE) == "false" && Ascii(NULL) == "null"
  {
  }

  /** Sixteen digits, the letters in either case. */
  lemma HexDigitsAre(b: byte, d: nat)
    ensures HexValue(b) == Some(d) <==>
              d < 16 && (b as char == "0123456789abcdef"[d] || b as char == "0123456789ABCDEF"[d])
  {
  }

  /** One more digit at the end is sixteen times as much. */
  lemma HexNumberIs(s: Bytes, b: byte)
    requires AllHex(s) && HexValue(b).Some?
    ensures AllHex(s + [b]) && HexNumber([]) == 0 && HexNumber(s + [b]) == 16 * HexNumber(s) + HexValue(b).value
  {
    assert (s + [b])[..|s|] == s;
  }
}
