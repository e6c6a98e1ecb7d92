/** A whole HTTP response: status line, header lines and body, exact against how one is written. */
module Response {
  import opened Machine
  import opened Chunked
  import opened Framing
  import Decimal
  import Utf8

  const BLANK_LINE: Bytes := [CR, LF, CR, LF]

  datatype Answer = Answer(status: nat, text: string)

  // ---- lines ----

  /** `split("\r\n")` */
  function Lines(text: string): (lines: seq<string>)
    ensures lines != []
  {
    if |text| < 2 then [text]
    else if text[0] == '\r' && text[1] == '\n' then [""] + Lines(text[2..])
    else
      var rest := Lines(text[1..]);
      [[text[0]] + rest[0]] + rest[1..]
  }

  ghost predicate OneLine(t: string) {
    forall i :: 0 <= i < |t| - 1 ==> !(t[i] == '\r' && t[i + 1] == '\n')
  }

  ghost predicate EachOneLine(lines: seq<string>) {
    forall i :: 0 <= i < |lines| ==> OneLine(lines[i])
  }

  function Text(lines: seq<string>): string
    requires lines != []
  {
    if |lines| == 1 then lines[0] else lines[0] + ("\r\n" + Text(lines[1..]))
  }

  lemma OneLineLonger(c: char, t: string)
    ensures OneLine([c] + t) <==> OneLine(t) && !(t != [] && c == '\r' && t[0] == '\n')
  {
    var longer := [c] + t;
    if OneLine(longer) {
      forall i | 0 <= i < |t| - 1
        ensures !(t[i] == '\r' && t[i + 1] == '\n')
      {
        assert longer[i + 1] == t[i] && longer[i + 2] == t[i + 1];
      }
      assert t != [] ==> longer[0] == c && longer[1] == t[0];
    }
  }

  /** One more character at the front of a text is one more at the front of its first line. */
  lemma TextLonger(c: char, rest: seq<string>)
    requires rest != []
    ensures var longer := [[c] + rest[0]] + rest[1..];
            longer[1..] == rest[1..] && Text(longer) == [c] + Text(rest)
    ensures rest[0] <= Text(rest) && (rest[0] == [] && Text(rest) != [] ==> Text(rest)[0] == '\r')
  {
    var longer := [[c] + rest[0]] + rest[1..];
    assert longer[1..] == rest[1..];
    if |rest| > 1 {
      var tail := "\r\n" + Text(rest[1..]);
      assert [c] + rest[0] + tail == [c] + (rest[0] + tail);
    }
  }

  lemma EachLonger(c: char, rest: seq<string>)
    requires rest != []
    ensures EachOneLine([[c] + rest[0]] + rest[1..]) <==> OneLine([c] + rest[0]) && EachOneLine(rest[1..])
    ensures EachOneLine(rest) <==> OneLine(rest[0]) && EachOneLine(rest[1..])
  {
    hide OneLine;
    EachOf([c] + rest[0], rest[1..]);
    EachOf(rest[0], rest[1..]);
    assert rest == [rest[0]] + rest[1..];
  }

  lemma EachOf(first: string, lines: seq<string>)
    ensures EachOneLine([first] + lines) <==> OneLine(first) && EachOneLine(lines)
  {
    hide OneLine;
    var all := [first] + lines;
    assert forall i :: 0 <= i < |lines| ==> lines[i] == all[i + 1];
    assert all[0] == first;
  }

  lemma {:induction false} LinesAreText(text: string)
    ensures Text(Lines(text)) == text && EachOneLine(Lines(text))
  {
    if |text| >= 2 {
      if text[0] == '\r' && text[1] == '\n' {
        LinesAreText(text[2..]);
        EachOf("", Lines(text[2..]));
        assert Lines(text)[1..] == Lines(text[2..]);
      } else {
        hide EachOneLine, Text, OneLine;
        var rest := Lines(text[1..]);
        LinesAreText(text[1..]);
        TextLonger(text[0], rest);
        EachLonger(text[0], rest);
        OneLineLonger(text[0], rest[0]);
      }
    }
  }

  lemma {:induction false} TextsLines(lines: seq<string>)
    requires lines != [] && EachOneLine(lines)
    ensures Lines(Text(lines)) == lines
    decreases |lines|, |lines[0]|
  {
    var first, text := lines[0], Text(lines);
    if first == [] {
      if |lines| > 1 {
        TextsLines(lines[1..]);
        assert text[2..] == Text(lines[1..]);
      }
    } else {
      var shorter := [first[1..]] + lines[1..];
      assert [first[0]] + first[1..] == first && [first] + lines[1..] == lines;
      TextLonger(first[0], shorter);
      EachLonger(first[0], shorter);
      OneLineLonger(first[0], first[1..]);
      hide EachOneLine, Text, OneLine;
      TextsLines(shorter);
      assert text[1..] == Text(shorter);
      if |text| < 2 {
        assert Text(shorter) == [];
        NoText(shorter);
      }
    }
  }

  lemma NoText(lines: seq<string>)
    requires lines != [] && Text(lines) == []
    ensures lines == [""]
  {
  }

  // ---- the status line ----

  /** The first part of `split(' ')` */
  function Word(t: string): (w: string)
    ensures w <= t && ' ' !in w && (|w| < |t| ==> t[|w|] == ' ')
  {
    if t == [] || t[0] == ' ' then [] else [t[0]] + Word(t[1..])
  }

  lemma {:induction false} WordIs(w: string, rest: string)
    requires ' ' !in w && (rest == [] || rest[0] == ' ')
    ensures Word(w + rest) == w
  {
    if w != [] {
      WordIs(w[1..], rest);
      assert (w + rest)[1..] == w[1..] + rest;
    }
  }

  predicate IsVersion(t: string) {
    t == "HTTP/1.1" || t == "HTTP/1.0"
  }

  /** The status code, when the line is one of an answer this client reads. */
  function StatusOf(line: string): Option<nat> {
    var version := Word(line);
    if !IsVersion(version) || |version| == |line| then None
    else
      var code := Word(line[|version| + 1..]);
      if |code| != 3 || !Decimal.AllDigits(code) || Decimal.ValueOf(code) < 200 then None
      else Some(Decimal.ValueOf(code))
  }

  ghost predicate StatusLine(line: string, version: string, code: string, after: string) {
    && IsVersion(version) && |code| == 3 && Decimal.AllDigits(code) && (after == [] || after[0] == ' ')
    && line == version + (" " + (code + after))
  }

  lemma StatusIsExact(line: string, n: nat)
    ensures StatusOf(line) == Some(n) <==>
              n >= 200 && exists version, code, after ::
                StatusLine(line, version, code, after) && Decimal.ValueOf(code) == n
  {
    hide Decimal.ValueOf, Word;
    if StatusOf(line) == Some(n) {
      var version := Word(line);
      var rest := line[|version| + 1..];
      var code := Word(rest);
      assert line == version + (" " + (code + rest[|code|..]));
      assert StatusLine(line, version, code, rest[|code|..]);
    }
    if version, code, after :| StatusLine(line, version, code, after) && Decimal.ValueOf(code) == n {
      WordIs(version, " " + (code + after));
      assert line[|version| + 1..] == code + after;
      WordIs(code, after);
    }
  }

  // ---- the response ----

  /** These lines, up to the first blank one, and this body are what the bytes spell. */
  ghost predicate Spells(raw: Bytes, first: string, lines: seq<string>, body: Bytes) {
    var head := Utf8.EncodeAll(Text([first] + lines));
    && EachOneLine([first] + lines)
    && raw == head + (BLANK_LINE + body)
    && forall k: nat :: k < |head| ==> !OccursAt(raw, BLANK_LINE, k)
  }

  /** What the header lines and the body carry. */
  ghost predicate Carries(lines: seq<string>, body: Bytes, content: Bytes) {
    && AllCut(lines) && FramedOneWay(Headers(lines))
    && if HasEncoding(Headers(lines)) then Dechunked(body) == Some(content)
       else LengthsAre(Headers(lines), |body|) && content == body
  }

  ghost predicate Answers(raw: Bytes, a: Answer) {
    exists first, lines, body ::
      Spells(raw, first, lines, body) && StatusOf(first) == Some(a.status) && Carries(lines, body, Utf8.EncodeAll(a.text))
  }

  lemma SpelledOneWay(raw: Bytes, first: string, lines: seq<string>, body: Bytes)
    requires Spells(raw, first, lines, body)
    ensures Find(raw, BLANK_LINE).Some?
    ensures var split := Find(raw, BLANK_LINE).value;
            && body == raw[split + 4..] && Utf8.Decode(raw[..split]).Some?
            && Lines(Utf8.Decode(raw[..split]).value) == [first] + lines
  {
    hide Utf8.Decode, Utf8.EncodeAll, Lines, Text, Find;
    var text := Text([first] + lines);
    var head := Utf8.EncodeAll(text);
    assert raw[|head|..|head| + 4] == BLANK_LINE;
    assert OccursAt(raw, BLANK_LINE, |head|);
    var split := Find(raw, BLANK_LINE).value;
    assert split == |head|;
    assert raw[..split] == head;
    Utf8.DecodeIsInverse(head, text);
    TextsLines([first] + lines);
  }

  lemma SpelledSo(raw: Bytes, split: nat, text: string)
    requires Find(raw, BLANK_LINE) == Some(split) && Utf8.Decode(raw[..split]) == Some(text)
    ensures Spells(raw, Lines(text)[0], Lines(text)[1..], raw[split + 4..])
  {
    hide Utf8.Decode, Utf8.EncodeAll, Lines, Text;
    LinesAreText(text);
    Utf8.DecodeIsInverse(raw[..split], text);
    assert [Lines(text)[0]] + Lines(text)[1..] == Lines(text);
    assert raw == raw[..split] + (raw[split..split + 4] + raw[split + 4..]);
  }

  lemma NotSpelled(raw: Bytes, a: Answer)
    requires Find(raw, BLANK_LINE).None? || Utf8.Decode(raw[..Find(raw, BLANK_LINE).value]).None?
    ensures !Answers(raw, a)
  {
    hide Spells, Carries, StatusOf, Find, Utf8.Decode;
    if first, lines, body :| Spells(raw, first, lines, body) && StatusOf(first) == Some(a.status)
                             && Carries(lines, body, Utf8.EncodeAll(a.text)) {
      SpelledOneWay(raw, first, lines, body);
      assert false;
    }
  }

  lemma AnswerIs(raw: Bytes, split: nat, text: string, a: Answer)
    requires Find(raw, BLANK_LINE) == Some(split) && Utf8.Decode(raw[..split]) == Some(text)
    ensures Answers(raw, a) <==>
              && StatusOf(Lines(text)[0]) == Some(a.status)
              && Carries(Lines(text)[1..], raw[split + 4..], Utf8.EncodeAll(a.text))
  {
    hide Spells, Carries, StatusOf, Find, Utf8.Decode, Lines, Utf8.EncodeAll;
    SpelledSo(raw, split, text);
    if first, lines, body :| Spells(raw, first, lines, body) && StatusOf(first) == Some(a.status)
                             && Carries(lines, body, Utf8.EncodeAll(a.text)) {
      SpelledOneWay(raw, first, lines, body);
      assert ([first] + lines)[0] == first && ([first] + lines)[1..] == lines;
    }
  }

  lemma CarriedText(lines: seq<string>, body: Bytes, r: Option<Bytes>, text: string)
    requires !AllCut(lines) ==> r == None
    requires AllCut(lines) && !FramedOneWay(Headers(lines)) ==> r == None
    requires AllCut(lines) && FramedOneWay(Headers(lines)) ==>
               r == if HasEncoding(Headers(lines)) then Dechunked(body)
                    else if LengthsAre(Headers(lines), |body|) then Some(body) else None
    ensures Carries(lines, body, Utf8.EncodeAll(text)) <==> r.Some? && Utf8.Decode(r.value) == Some(text)
  {
    hide AllCut, FramedOneWay, HasEncoding, LengthsAre, Dechunked, Utf8.Decode, Utf8.EncodeAll;
    if r.Some? {
      Utf8.DecodeIsInverse(r.value, text);
    }
  }

  /** `parse_response`: exact, an answer is read if and only if the bytes spell it. */
  method ParseResponse(raw: Bytes) returns (r: Option<Answer>)
    ensures forall a: Answer :: r == Some(a) <==> Answers(raw, a)
  {
    hide Answers, Carries, StatusOf, Find, Lines, Utf8.Decode, Utf8.EncodeAll;
    hide AllCut, FramedOneWay, HasEncoding, LengthsAre, Dechunked;
    var split := Find(raw, BLANK_LINE);
    if split.None? || Utf8.Decode(raw[..split.value]).None? {
      forall a: Answer
        ensures !Answers(raw, a)
      {
        NotSpelled(raw, a);
      }
      return None;
    }
    var lines := Lines(Utf8.Decode(raw[..split.value]).value);
    forall a: Answer
      ensures Answers(raw, a) <==>
                && StatusOf(lines[0]) == Some(a.status)
                && Carries(lines[1..], raw[split.value + 4..], Utf8.EncodeAll(a.text))
    {
      AnswerIs(raw, split.value, Utf8.Decode(raw[..split.value]).value, a);
    }
    var status := StatusOf(lines[0]);
    if status.None? {
      return None;
    }
    var body := ReadBody(lines[1..], raw[split.value + 4..]);
    forall a: Answer
      ensures Carries(lines[1..], raw[split.value + 4..], Utf8.EncodeAll(a.text)) <==>
                body.Some? && Utf8.Decode(body.value) == Some(a.text)
    {
      CarriedText(lines[1..], raw[split.value + 4..], body, a.text);
    }
    if body.None? {
      return None;
    }
    var text := Utf8.Decode(body.value);
    if text.None? {
      return None;
    }
    return Some(Answer(status.value, text.value));
  }

  lemma BlankLineIs()
    ensures Utf8.EncodeAll("\r\n\r\n") == BLANK_LINE
  {
    CharactersAre(CR);
    assert "\r\n\r\n" == "\r\n" + "\r\n";
    Utf8.EncodeAllJoined("\r\n", "\r\n");
  }
}
