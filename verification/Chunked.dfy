/** Chunked bodies, and the decoder exact against a grammar of them (section 7.1 of RFC 9112). */
module Chunked {
  import opened Machine
  import opened JsonSyntax
  import Utf8

  const CR: byte := 0x0D
  const LF: byte := 0x0A
  const CRLF: Bytes := [CR, LF]
  const SEMICOLON: byte := 0x3B
  const MAX_SIZE_DIGITS: nat := 8

  // ---- the code ----

  predicate OccursAt(haystack: Bytes, needle: Bytes, k: nat) {
    k + |needle| <= |haystack| && haystack[k..k + |needle|] == needle
  }

  /** `find` */
  function Find(haystack: Bytes, needle: Bytes): (r: Option<nat>)
    requires needle != []
    ensures r.Some? ==> OccursAt(haystack, needle, r.value)
    ensures r.Some? ==> forall k: nat :: k < r.value ==> !OccursAt(haystack, needle, k)
    ensures r.None? ==> forall k: nat :: !OccursAt(haystack, needle, k)
  {
    if |haystack| < |needle| then None
    else if haystack[..|needle|] == needle then Some(0)
    else
      var rest := Find(haystack[1..], needle);
      OneFurther(haystack, needle);
      if rest.None? then None else Some(1 + rest.value)
  }

  lemma OneFurther(haystack: Bytes, needle: Bytes)
    requires haystack != []
    ensures forall k: nat :: k > 0 ==> (OccursAt(haystack, needle, k) <==> OccursAt(haystack[1..], needle, k - 1))
  {
    forall k: nat | 0 < k
      ensures OccursAt(haystack, needle, k) <==> OccursAt(haystack[1..], needle, k - 1)
    {
      if k + |needle| <= |haystack| {
        SliceOfSlice(haystack, 1, |haystack|, k - 1, k - 1 + |needle|);
      }
    }
  }

  predicate IsBlank(b: byte) {
    b == 0x20 || b == 0x09
  }

  function BeforeSemicolon(line: Bytes): Bytes {
    if line == [] || line[0] == SEMICOLON then [] else [line[0]] + BeforeSemicolon(line[1..])
  }

  function Trimmed(s: Bytes): Bytes {
    if s != [] && IsBlank(s[0]) then Trimmed(s[1..])
    else if s != [] && IsBlank(s[|s| - 1]) then Trimmed(s[..|s| - 1])
    else s
  }

  /** The number a chunk size line carries. */
  function SizeOf(line: Bytes): Option<nat> {
    var text := Trimmed(BeforeSemicolon(line));
    if Utf8.Decode(line).None? || text == [] || |text| > MAX_SIZE_DIGITS || !AllHex(text) then None
    else Some(HexNumber(text))
  }

  /** What `dechunk` answers. */
  function Dechunked(data: Bytes): Option<Bytes>
    decreases |data|, 0
  {
    match Find(data, CRLF)
    case None => None
    case Some(eol) =>
      var rest := data[eol + 2..];
      match SizeOf(data[..eol])
      case None => None
      case Some(size) =>
        AfterSizeLine(size, rest)
  }

  function AfterSizeLine(size: nat, rest: Bytes): Option<Bytes>
    decreases |rest|, 1
  {
    if size == 0 then Some([])
    else if |rest| < size + 2 || rest[size..size + 2] != CRLF then None
    else Joined(rest[..size], Dechunked(rest[size + 2..]))
  }

  function Joined(out: Bytes, more: Option<Bytes>): Option<Bytes> {
    if more.None? then None else Some(out + more.value)
  }

  /** `dechunk` */
  method Dechunk(input: Bytes) returns (r: Option<Bytes>)
    ensures r == Dechunked(input)
  {
    hide SizeOf, Joined;
    var data, out: Bytes := input, [];
    NothingJoined(Dechunked(input));
    while true
      invariant Joined(out, Dechunked(data)) == Dechunked(input)
      decreases |data|
    {
      var eol := Find(data, CRLF);
      JoinedEnds(out);
      if eol.None? {
        return None;
      }
      var size := SizeOf(data[..eol.value]);
      if size.None? {
        return None;
      }
      data := data[eol.value + 2..];
      if size.value == 0 {
        return Some(out);
      }
      var end := size.value + 2;
      if |data| < end || data[size.value..end] != CRLF {
        return None;
      }
      JoinedTwice(out, data[..size.value], Dechunked(data[end..]));
      out := out + data[..size.value];
      data := data[end..];
    }
  }

  lemma NothingJoined(more: Option<Bytes>)
    ensures Joined([], more) == more
  {
    assert more.Some? ==> [] + more.value == more.value;
  }

  lemma JoinedEnds(out: Bytes)
    ensures Joined(out, None) == None && Joined(out, Some([])) == Some(out)
  {
    assert out + [] == out;
  }

  lemma JoinedTwice(a: Bytes, b: Bytes, more: Option<Bytes>)
    ensures Joined(a, Joined(b, more)) == Joined(a + b, more)
  {
    if more.Some? {
      assert a + (b + more.value) == a + b + more.value;
    }
  }

  // ---- size lines ----

  /** A size line in its parts. */
  datatype SizeLine = SizeLine(before: Bytes, digits: Bytes, after: Bytes, extensions: Bytes)

  function LineBytes(l: SizeLine): Bytes {
    l.before + (l.digits + (l.after + l.extensions))
  }

  predicate Blanks(b: Bytes) {
    forall i :: 0 <= i < |b| ==> IsBlank(b[i])
  }

  ghost predicate IsText(b: Bytes) {
    exists text :: b == Utf8.EncodeAll(text)
  }

  /** Blanks, hexadecimal digits, blanks, and then nothing or extensions after a semicolon. */
  predicate Shaped(l: SizeLine) {
    && Blanks(l.before) && Blanks(l.after)
    && l.digits != [] && AllHex(l.digits)
    && (l.extensions == [] || l.extensions[0] == SEMICOLON)
  }

  /** A size line as the standard writes it: no blanks, but for those in front of an extension. */
  predicate Standard(l: SizeLine) {
    Shaped(l) && l.before == [] && (l.extensions == [] ==> l.after == [])
  }

  /** What the decoder asks beyond the shape: at most eight digits, and extensions in UTF-8. */
  ghost predicate Readable(l: SizeLine) {
    |l.digits| <= MAX_SIZE_DIGITS && IsText(l.extensions)
  }

  lemma {:induction false} UpToSemicolon(a: Bytes, extensions: Bytes)
    requires forall i :: 0 <= i < |a| ==> a[i] != SEMICOLON
    requires extensions == [] || extensions[0] == SEMICOLON
    ensures BeforeSemicolon(a + extensions) == a
  {
    if a == [] {
      assert a + extensions == extensions;
    } else {
      UpToSemicolon(a[1..], extensions);
      assert (a + extensions)[1..] == a[1..] + extensions;
      assert a == [a[0]] + a[1..];
    }
  }

  lemma {:induction false} TrimmedIs(before: Bytes, core: Bytes, after: Bytes)
    requires Blanks(before) && Blanks(after)
    requires core != [] && !IsBlank(core[0]) && !IsBlank(core[|core| - 1])
    ensures Trimmed(before + (core + after)) == core
    decreases |before| + |after|
  {
    var s := before + (core + after);
    if before != [] {
      assert s[1..] == before[1..] + (core + after);
      TrimmedIs(before[1..], core, after);
    } else if after != [] {
      var shorter := after[..|after| - 1];
      assert s[..|s| - 1] == before + (core + shorter);
      assert s[0] == core[0] && s[|s| - 1] == after[|after| - 1];
      TrimmedIs(before, core, shorter);
    } else {
      assert s == core;
    }
  }

  lemma {:induction false} TrimmedSplits(s: Bytes) returns (before: Bytes, after: Bytes)
    ensures Blanks(before) && Blanks(after) && s == before + (Trimmed(s) + after)
    decreases |s|
  {
    before, after := [], [];
    if s != [] && IsBlank(s[0]) {
      before, after := TrimmedSplits(s[1..]);
      before := [s[0]] + before;
      assert s == [s[0]] + s[1..];
    } else if s != [] && IsBlank(s[|s| - 1]) {
      before, after := TrimmedSplits(s[..|s| - 1]);
      after := after + [s[|s| - 1]];
      assert s == s[..|s| - 1] + [s[|s| - 1]];
    }
  }

  lemma TextDecodes(b: Bytes)
    ensures IsText(b) <==> Utf8.Decode(b).Some?
  {
    hide Utf8.Decode, Utf8.EncodeAll;
    if Utf8.Decode(b).Some? {
      Utf8.DecodeIsInverse(b, Utf8.Decode(b).value);
    }
    if text :| b == Utf8.EncodeAll(text) {
      Utf8.DecodeIsInverse(b, text);
    }
  }

  /** Bytes below 128 in front change nothing about whether the rest is UTF-8. */
  lemma {:induction false} AsciiInFront(a: Bytes, b: Bytes)
    requires forall i :: 0 <= i < |a| ==> a[i] < 128
    ensures Utf8.Decode(a + b).Some? <==> Utf8.Decode(b).Some?
  {
    if a == [] {
      assert a + b == b;
    } else {
      assert Utf8.Encode(a[0] as char) == [a[0]];
      assert a + b == [a[0]] + (a[1..] + b);
      Utf8.DecodePrepend(a[0] as char, a[1..] + b);
      AsciiInFront(a[1..], b);
    }
  }

  lemma BeforeExtensions(l: SizeLine)
    requires Shaped(l)
    ensures BeforeSemicolon(LineBytes(l)) == l.before + (l.digits + l.after)
    ensures Trimmed(BeforeSemicolon(LineBytes(l))) == l.digits
    ensures Utf8.Decode(LineBytes(l)).Some? <==> IsText(l.extensions)
  {
    var front := l.before + (l.digits + l.after);
    assert LineBytes(l) == front + l.extensions;
    hide Trimmed, BeforeSemicolon, Utf8.Decode, IsText;
    UpToSemicolon(front, l.extensions);
    TrimmedIs(l.before, l.digits, l.after);
    AsciiInFront(front, l.extensions);
    TextDecodes(l.extensions);
  }

  /** A shaped size line announces its digits' value, unless there are too many or it is not UTF-8. */
  lemma SizeOfShaped(l: SizeLine)
    requires Shaped(l)
    ensures SizeOf(LineBytes(l)) == if Readable(l) then Some(HexNumber(l.digits)) else None
  {
    BeforeExtensions(l);
    hide LineBytes, Trimmed, BeforeSemicolon, Utf8.Decode, IsText, Shaped;
  }

  lemma {:induction false} SemicolonSplits(line: Bytes)
    ensures BeforeSemicolon(line) <= line
    ensures var rest := line[|BeforeSemicolon(line)|..]; rest == [] || rest[0] == SEMICOLON
  {
    if line != [] && line[0] != SEMICOLON {
      SemicolonSplits(line[1..]);
    }
  }

  lemma OnlyShapedHasSize(line: Bytes) returns (l: SizeLine)
    requires SizeOf(line).Some?
    ensures Shaped(l) && Readable(l) && line == LineBytes(l) && SizeOf(line) == Some(HexNumber(l.digits))
  {
    hide Utf8.Decode, Trimmed, BeforeSemicolon, HexNumber, IsText;
    var front := BeforeSemicolon(line);
    SemicolonSplits(line);
    var before, after := TrimmedSplits(front);
    l := SizeLine(before, Trimmed(front), after, line[|front|..]);
    assert line == front + l.extensions;
    assert line == LineBytes(l);
    AsciiInFront(front, l.extensions);
    TextDecodes(l.extensions);
  }

  /** The decoder reads a size from exactly the shaped lines of at most eight digits in UTF-8. */
  lemma SizeOfIsExact(line: Bytes, n: nat)
    ensures SizeOf(line) == Some(n) <==>
              exists l :: Shaped(l) && Readable(l) && line == LineBytes(l) && n == HexNumber(l.digits)
  {
    hide SizeOf, Readable, LineBytes, HexNumber;
    if SizeOf(line) == Some(n) {
      var l := OnlyShapedHasSize(line);
    }
    forall l | Shaped(l) && Readable(l) && line == LineBytes(l) && n == HexNumber(l.digits)
      ensures SizeOf(line) == Some(n)
    {
      SizeOfShaped(l);
    }
  }

  /** The size lines of the standard: read when there are at most eight digits, refused beyond. */
  lemma StandardLineAnnounces(digits: Bytes, extensions: Bytes)
    requires digits != [] && AllHex(digits) && IsText(extensions)
    requires extensions == [] || extensions[0] == SEMICOLON
    ensures SizeOf(digits + extensions) == if |digits| <= MAX_SIZE_DIGITS then Some(HexNumber(digits)) else None
  {
    hide LineBytes, SizeOf, IsText, HexNumber;
    var l := SizeLine([], digits, [], extensions);
    SizeOfShaped(l);
    LineWithoutBlanks(digits, extensions);
  }

  lemma LineWithoutBlanks(digits: Bytes, extensions: Bytes)
    ensures LineBytes(SizeLine([], digits, [], extensions)) == digits + extensions
  {
    assert [] + extensions == extensions;
  }

  const NINE_DIGITS: Bytes := [0x30, 0x30, 0x30, 0x30, 0x30, 0x30, 0x30, 0x30, 0x31]

  /** Nine digits that say one: a line of the standard that is refused. */
  lemma NineDigitsAreRefused()
    ensures Standard(SizeLine([], NINE_DIGITS, [], [])) && HexNumber(NINE_DIGITS) == 1 && SizeOf(NINE_DIGITS) == None
  {
    hide HexNumber, SizeOf, AllHex, HexValue;
    LeadingZeros(NINE_DIGITS, 8);
    assert Utf8.EncodeAll([]) == [];
    StandardLineAnnounces(NINE_DIGITS, []);
    assert NINE_DIGITS + [] == NINE_DIGITS;
  }

  lemma {:induction false} LeadingZeros(digits: Bytes, n: nat)
    requires n + 1 == |digits| && digits[n] == 0x31 && forall i :: 0 <= i < n ==> digits[i] == 0x30
    ensures AllHex(digits) && HexNumber(digits) == 1
  {
    assert digits[..n] == seq(n, _ => 0x30);
    ZeroDigits(n);
  }

  lemma {:induction false} ZeroDigits(n: nat)
    ensures AllHex(seq(n, _ => 0x30)) && HexNumber(seq(n, _ => 0x30)) == 0
  {
    if n > 0 {
      var zeros: Bytes := seq(n, _ => 0x30);
      assert zeros[..n - 1] == seq(n - 1, _ => 0x30);
      ZeroDigits(n - 1);
    }
  }

  /** Blanks around the digits: a line outside the standard that is read. */
  lemma BlanksAreRead()
    ensures SizeOf([0x20, 0x35, 0x20]) == Some(5)
    ensures forall l :: Standard(l) ==> LineBytes(l) != [0x20, 0x35, 0x20]
  {
    var l := SizeLine([0x20], [0x35], [0x20], []);
    assert LineBytes(l) == [0x20, 0x35, 0x20];
    assert Utf8.EncodeAll([]) == [];
    SizeOfShaped(l);
    assert HexNumber([0x35]) == 5 by {
      assert [0x35][..0] == [];
    }
    forall l | Standard(l)
      ensures LineBytes(l) != [0x20, 0x35, 0x20]
    {
      assert LineBytes(l)[0] == l.digits[0];
    }
  }

  // ---- bodies ----

  datatype Chunk = Chunk(line: SizeLine, data: Bytes)

  ghost predicate NoBreak(b: Bytes) {
    forall k: nat :: !OccursAt(b, CRLF, k)
  }

  /** The line is shaped, holds no line break, and its digits say `n`. */
  ghost predicate Says(l: SizeLine, n: nat) {
    Shaped(l) && NoBreak(LineBytes(l)) && HexNumber(l.digits) == n
  }

  /** Chunks that are not empty, each as long as its line says, and a last line that says zero. */
  ghost predicate WellFormed(chunks: seq<Chunk>, last: SizeLine) {
    && (forall i :: 0 <= i < |chunks| ==> chunks[i].data != [] && Says(chunks[i].line, |chunks[i].data|))
    && Says(last, 0)
  }

  ghost predicate AllReadable(chunks: seq<Chunk>, last: SizeLine) {
    (forall i :: 0 <= i < |chunks| ==> Readable(chunks[i].line)) && Readable(last)
  }

  function Written(c: Chunk): Bytes {
    LineBytes(c.line) + CRLF + c.data + CRLF
  }

  /** The chunks, the last line, and whatever comes after it. */
  function Encoding(chunks: seq<Chunk>, last: SizeLine, after: Bytes): Bytes {
    if chunks == [] then LineBytes(last) + CRLF + after
    else Written(chunks[0]) + Encoding(chunks[1..], last, after)
  }

  function Payload(chunks: seq<Chunk>): Bytes {
    if chunks == [] then [] else chunks[0].data + Payload(chunks[1..])
  }

  lemma LineEndsAt(line: Bytes, rest: Bytes)
    requires NoBreak(line)
    ensures Find(line + CRLF + rest, CRLF) == Some(|line|)
  {
    var data := line + CRLF + rest;
    SliceOfFirst(line + CRLF, rest, |line|, |line| + 2);
    SliceOfSecond(line, CRLF, 0, 2);
    assert OccursAt(data, CRLF, |line|);
    forall k: nat | k < |line|
      ensures !OccursAt(data, CRLF, k)
    {
      if k + 1 < |line| {
        assert !OccursAt(line, CRLF, k);
        assert data[k..k + 2] == line[k..k + 2];
      } else {
        assert data[k..k + 2][1] == CR;
      }
    }
  }

  lemma ReadsLine(line: Bytes, tail: Bytes)
    requires NoBreak(line)
    ensures Dechunked(line + CRLF + tail)
            == match SizeOf(line) case None => None case Some(size) => AfterSizeLine(size, tail)
  {
    LineEndsAt(line, tail);
    hide Find, SizeOf, AfterSizeLine;
    var body := line + CRLF + tail;
    assert body[..|line|] == line;
    assert body[|line| + 2..] == tail;
  }

  lemma ReadsData(data: Bytes, rest: Bytes)
    requires data != []
    ensures AfterSizeLine(|data|, data + CRLF + rest) == Joined(data, Dechunked(rest))
  {
    hide Dechunked;
    var tail := data + CRLF + rest;
    assert tail[..|data|] == data && tail[|data|..|data| + 2] == CRLF && tail[|data| + 2..] == rest;
  }

  lemma OneChunk(c: Chunk, rest: Bytes)
    requires c.data != [] && Says(c.line, |c.data|)
    ensures Dechunked(Written(c) + rest) == if Readable(c.line) then Joined(c.data, Dechunked(rest)) else None
  {
    hide SizeOf, AfterSizeLine, Dechunked, Shaped, LineBytes, HexNumber, Readable;
    var line, tail := LineBytes(c.line), c.data + CRLF + rest;
    assert Written(c) + rest == line + CRLF + tail;
    SizeOfShaped(c.line);
    ReadsLine(line, tail);
    ReadsData(c.data, rest);
  }

  /**
   * A well-formed chunked body is read as its payload, whatever follows the last chunk, when all its
   * size lines are readable, and refused when one is not.
   */
  lemma {:induction false} ChunkedIsRead(chunks: seq<Chunk>, last: SizeLine, after: Bytes)
    requires WellFormed(chunks, last)
    ensures Dechunked(Encoding(chunks, last, after)) == if AllReadable(chunks, last) then Some(Payload(chunks)) else None
  {
    hide Find, SizeOf, Dechunked, Shaped, LineBytes, Written, Readable, HexNumber, NoBreak;
    if chunks == [] {
      SizeOfShaped(last);
      ReadsLine(LineBytes(last), after);
    } else {
      var first, others := chunks[0], chunks[1..];
      assert chunks == [first] + others;
      ChunkedIsRead(others, last, after);
      OneChunk(first, Encoding(others, last, after));
    }
  }

  lemma FirstLineIsClean(data: Bytes)
    requires Find(data, CRLF).Some?
    ensures NoBreak(data[..Find(data, CRLF).value])
  {
    var eol := Find(data, CRLF).value;
    forall k: nat
      ensures !OccursAt(data[..eol], CRLF, k)
    {
      if k + 2 <= eol {
        assert data[..eol][k..k + 2] == data[k..k + 2];
        assert !OccursAt(data, CRLF, k);
      }
    }
  }

  /** The body is written as the grammar says, its lines can be read, and this is what it carries. */
  ghost predicate Reads(body: Bytes, out: Bytes, chunks: seq<Chunk>, last: SizeLine, after: Bytes) {
    WellFormed(chunks, last) && AllReadable(chunks, last) && body == Encoding(chunks, last, after) && out == Payload(chunks)
  }

  lemma ReadsOneMore(c: Chunk, body: Bytes, out: Bytes, chunks: seq<Chunk>, last: SizeLine, after: Bytes)
    requires Reads(body, out, chunks, last, after) && c.data != [] && Says(c.line, |c.data|) && Readable(c.line)
    ensures Reads(Written(c) + body, c.data + out, [c] + chunks, last, after)
  {
    hide Says, Readable, Written;
    assert ([c] + chunks)[1..] == chunks;
  }

  lemma ReadsNone(last: SizeLine, after: Bytes)
    requires Says(last, 0) && Readable(last)
    ensures Reads(LineBytes(last) + CRLF + after, [], [], last, after)
  {
  }

  lemma FirstLine(body: Bytes) returns (line: SizeLine, n: nat, rest: Bytes)
    requires Dechunked(body).Some?
    ensures Says(line, n) && Readable(line)
    ensures body == LineBytes(line) + CRLF + rest && Dechunked(body) == AfterSizeLine(n, rest)
  {
    hide SizeOf, AfterSizeLine, LineBytes, HexNumber, Readable;
    var eol := Find(body, CRLF).value;
    line := OnlyShapedHasSize(body[..eol]);
    n, rest := HexNumber(line.digits), body[eol + 2..];
    FirstLineIsClean(body);
    assert OccursAt(body, CRLF, eol);
  }

  lemma FirstData(line: SizeLine, n: nat, rest: Bytes) returns (c: Chunk, more: Bytes)
    requires n > 0 && Says(line, n) && AfterSizeLine(n, rest).Some?
    ensures c.line == line && c.data != [] && Says(line, |c.data|) && |more| < |rest|
    ensures LineBytes(line) + CRLF + rest == Written(c) + more
    ensures Dechunked(more).Some? && AfterSizeLine(n, rest) == Some(c.data + Dechunked(more).value)
  {
    hide Dechunked, Says, LineBytes;
    c, more := Chunk(line, rest[..n]), rest[n + 2..];
    assert rest == rest[..n] + CRLF + more;
  }

  /** Nothing but a well-formed chunked body is accepted. */
  lemma {:induction false} OnlyChunkedIsRead(body: Bytes)
    requires Dechunked(body).Some?
    ensures exists chunks, last, after :: Reads(body, Dechunked(body).value, chunks, last, after)
    decreases |body|
  {
    hide Dechunked, Says, Readable, Reads, Written, LineBytes, HexNumber;
    var line, n, rest := FirstLine(body);
    if n == 0 {
      ReadsNone(line, rest);
    } else {
      var c, more := FirstData(line, n, rest);
      OnlyChunkedIsRead(more);
      var chunks, last, after :| Reads(more, Dechunked(more).value, chunks, last, after);
      ReadsOneMore(c, more, Dechunked(more).value, chunks, last, after);
    }
  }

  /**
   * A body is accepted with a payload exactly when the grammar writes that payload so, with at most
   * eight digits to a size and size lines in UTF-8; what follows the last line is not looked at.
   */
  lemma DechunkIsExact(body: Bytes, out: Bytes)
    ensures Dechunked(body) == Some(out) <==> exists chunks, last, after :: Reads(body, out, chunks, last, after)
  {
    hide Dechunked, Encoding, Payload, WellFormed, AllReadable;
    if Dechunked(body) == Some(out) {
      OnlyChunkedIsRead(body);
    }
    forall chunks, last, after | Reads(body, out, chunks, last, after)
      ensures Dechunked(body) == Some(out)
    {
      ChunkedIsRead(chunks, last, after);
    }
  }

  ghost predicate StandardBody(chunks: seq<Chunk>, last: SizeLine) {
    WellFormed(chunks, last) && (forall i :: 0 <= i < |chunks| ==> Standard(chunks[i].line)) && Standard(last)
  }

  /**
   * Chunks as the standard writes them, with size lines in UTF-8, are read exactly when no size has
   * more than eight digits, whatever trailers follow.
   */
  lemma StandardBodyIsRead(chunks: seq<Chunk>, last: SizeLine, trailers: Bytes)
    requires StandardBody(chunks, last)
    requires IsText(last.extensions) && forall i :: 0 <= i < |chunks| ==> IsText(chunks[i].line.extensions)
    ensures var body := Encoding(chunks, last, trailers + CRLF);
            && (Dechunked(body) == Some(Payload(chunks)) <==>
                  |last.digits| <= 8 && forall i :: 0 <= i < |chunks| ==> |chunks[i].line.digits| <= 8)
            && (Dechunked(body).Some? ==> Dechunked(body) == Some(Payload(chunks)))
  {
    hide Dechunked, Encoding, Payload, WellFormed, Standard, IsText;
    ChunkedIsRead(chunks, last, trailers + CRLF);
  }

  /** A body that stops right after its last size line: outside the standard, and taken as whole. */
  lemma MissingFinalBreakIsRead()
    ensures Dechunked([0x30] + CRLF) == Some([])
    ensures forall chunks, last, trailers :: StandardBody(chunks, last) ==>
              Encoding(chunks, last, trailers + CRLF) != [0x30] + CRLF
  {
    ZeroAloneIsRead();
    forall chunks, last, trailers | StandardBody(chunks, last)
      ensures Encoding(chunks, last, trailers + CRLF) != [0x30] + CRLF
    {
      StandardIsLonger(chunks, last, trailers);
    }
  }

  lemma ZeroAloneIsRead()
    ensures Dechunked([0x30] + CRLF) == Some([])
  {
    hide Dechunked;
    var l := SizeLine([], [0x30], [], []);
    assert Utf8.EncodeAll([]) == [];
    ZeroDigits(1);
    assert [0x30] == seq(1, _ => 0x30);
    assert LineBytes(l) == [0x30];
    assert NoBreak([0x30]);
    ChunkedIsRead([], l, []);
    assert [0x30] + CRLF + [] == [0x30] + CRLF;
  }

  lemma StandardIsLonger(chunks: seq<Chunk>, last: SizeLine, trailers: Bytes)
    requires StandardBody(chunks, last)
    ensures |Encoding(chunks, last, trailers + CRLF)| >= 5
  {
  }

  lemma CharactersAre(b: byte)
    ensures Utf8.EncodeAll("\r\n") == CRLF && SEMICOLON as char == ';'
    ensures IsBlank(b) <==> b as char in " \t"
  {
    var line := "\r\n";
    assert line[1..] == ['\n'] && line[1..][1..] == [];
    assert Utf8.EncodeAll(line) == Utf8.Encode('\r') + Utf8.EncodeAll(['\n']);
    assert Utf8.EncodeAll(['\n']) == Utf8.Encode('\n') + Utf8.EncodeAll([]);
  }
}
