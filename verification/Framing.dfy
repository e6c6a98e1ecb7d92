/** Which framing an HTTP response uses, and the body it leaves. */
module Framing {
  import opened Machine
  import opened Chunked
  import Decimal

  // ---- header lines ----

  datatype Header = Header(name: string, value: string)

  /** `trim_matches([' ', '\t'])` */
  function TrimmedText(t: string): (r: string)
    ensures r == [] || (r[0] != ' ' && r[0] != '\t' && r[|r| - 1] != ' ' && r[|r| - 1] != '\t')
  {
    if t != [] && (t[0] == ' ' || t[0] == '\t') then TrimmedText(t[1..])
    else if t != [] && (t[|t| - 1] == ' ' || t[|t| - 1] == '\t') then TrimmedText(t[..|t| - 1])
    else t
  }

  /** `split_once(':')`, and the value trimmed */
  function CutLine(line: string): (r: Option<Header>)
    ensures r.Some? <==> ':' in line
    ensures r.Some? ==> ':' !in r.value.name && r.value.name + [':'] <= line
    ensures r.Some? ==> r.value.value == TrimmedText(line[|r.value.name| + 1..])
  {
    if line == [] then None
    else if line[0] == ':' then Some(Header([], TrimmedText(line[1..])))
    else
      match CutLine(line[1..])
      case None => None
      case Some(h) => Some(Header([line[0]] + h.name, h.value))
  }

  ghost predicate AllCut(lines: seq<string>) {
    forall i :: 0 <= i < |lines| ==> ':' in lines[i]
  }

  function Headers(lines: seq<string>): (headers: seq<Header>)
    requires forall i :: 0 <= i < |lines| ==> ':' in lines[i]
    ensures |headers| == |lines|
  {
    seq(|lines|, i requires 0 <= i < |lines| => CutLine(lines[i]).value)
  }

  // ---- what they say ----

  function LowerCase(t: string): string {
    seq(|t|, i requires 0 <= i < |t| => AsciiLower(t[i]))
  }

  predicate IsLength(h: Header) {
    LowerCase(h.name) == "content-length"
  }

  predicate IsEncoding(h: Header) {
    LowerCase(h.name) == "transfer-encoding"
  }

  function LengthOf(h: Header): Option<nat> {
    if h.value == [] || !Decimal.AllDigits(h.value) then None else Decimal.ParseUnsigned(h.value, U64_MAX)
  }

  /** Every length given is `n`. */
  ghost predicate LengthsAre(headers: seq<Header>, n: nat) {
    forall i :: 0 <= i < |headers| && IsLength(headers[i]) ==> LengthOf(headers[i]) == Some(n)
  }

  ghost predicate HasEncoding(headers: seq<Header>) {
    exists i :: 0 <= i < |headers| && IsEncoding(headers[i])
  }

  ghost predicate HasLength(headers: seq<Header>) {
    exists i :: 0 <= i < |headers| && IsLength(headers[i])
  }

  ghost predicate EncodedOnce(headers: seq<Header>) {
    && (forall i :: 0 <= i < |headers| && IsEncoding(headers[i]) ==> LowerCase(headers[i].value) == "chunked")
    && (forall i, j :: 0 <= i < j < |headers| ==> !(IsEncoding(headers[i]) && IsEncoding(headers[j])))
  }

  /** One way to read the body, and only one. */
  ghost predicate FramedOneWay(headers: seq<Header>) {
    && (exists n: nat :: LengthsAre(headers, n))
    && EncodedOnce(headers)
    && !(HasLength(headers) && HasEncoding(headers))
  }

  /** What the headers say about the body. */
  datatype Framing = Framing(length: Option<nat>, chunked: bool)

  ghost predicate Tells(headers: seq<Header>, f: Framing) {
    && (f.length.None? ==> !HasLength(headers))
    && (f.length.Some? ==> HasLength(headers) && LengthsAre(headers, f.length.value))
    && (f.chunked <==> HasEncoding(headers))
    && EncodedOnce(headers)
  }

  /** The header loop of `parse_response`. */
  method ReadHeaders(lines: seq<string>) returns (r: Option<Framing>)
    ensures r.Some? ==> AllCut(lines) && Tells(Headers(lines), r.value)
    ensures r.None? && AllCut(lines) ==>
              !EncodedOnce(Headers(lines)) || forall n: nat :: !LengthsAre(Headers(lines), n)
  {
    hide IsLength, IsEncoding, LengthOf, LowerCase, CutLine, Headers, Tells, EncodedOnce, LengthsAre;
    var length: Option<nat> := None;
    var chunked := false;
    NoHeaders();
    for i := 0 to |lines|
      invariant AllCut(lines[..i]) && Tells(Headers(lines[..i]), Framing(length, chunked))
    {
      var cut := CutLine(lines[i]);
      if cut.None? {
        return None;
      }
      var h := cut.value;
      OneMoreHeader(lines, i, h, Framing(length, chunked));
      if IsLength(h) {
        var n := LengthOf(h);
        if n.None? || (length.Some? && length.value != n.value) {
          return None;
        }
        length := n;
      } else if IsEncoding(h) {
        if LowerCase(h.value) != "chunked" || chunked {
          return None;
        }
        chunked := true;
      }
    }
    assert lines[..|lines|] == lines;
    return Some(Framing(length, chunked));
  }

  lemma NoHeaders()
    ensures Headers([]) == [] && Tells([], Framing(None, false))
  {
  }

  /** What one more header does to the framing so far, or to the chances of any framing at all. */
  lemma OneMoreHeader(lines: seq<string>, i: nat, h: Header, f: Framing)
    requires i < |lines| && AllCut(lines[..i]) && CutLine(lines[i]) == Some(h) && Tells(Headers(lines[..i]), f)
    ensures AllCut(lines[..i + 1])
    ensures var after := Headers(lines[..i + 1]);
            if IsLength(h) then
              if LengthOf(h).Some? && (f.length.Some? ==> f.length == LengthOf(h))
              then Tells(after, f.(length := LengthOf(h)))
              else AllCut(lines) ==> forall n: nat :: !LengthsAre(Headers(lines), n)
            else if IsEncoding(h) then
              if LowerCase(h.value) == "chunked" && !f.chunked
              then Tells(after, f.(chunked := true))
              else AllCut(lines) ==> !EncodedOnce(Headers(lines))
            else Tells(after, f)
  {
    hide CutLine, LowerCase, LengthOf, IsLength, IsEncoding, Headers, HasLength, HasEncoding, EncodedOnce, LengthsAre;
    HeadersOfPrefix(lines, i, h);
    NotBoth(h);
    HeadersGrow(Headers(lines[..i + 1]), i);
    LengthsFixed(Headers(lines[..i]), f);
    if AllCut(lines) {
      HeadersGrow(Headers(lines), i);
    }
  }

  lemma HeadersOfPrefix(lines: seq<string>, i: nat, h: Header)
    requires i < |lines| && AllCut(lines[..i]) && CutLine(lines[i]) == Some(h)
    ensures AllCut(lines[..i + 1])
    ensures var after := Headers(lines[..i + 1]);
            after[..i] == Headers(lines[..i]) && after[..i + 1] == after && after[i] == h
    ensures AllCut(lines) ==>
              && Headers(lines)[..i] == Headers(lines[..i]) && Headers(lines)[..i + 1] == Headers(lines[..i + 1])
              && Headers(lines)[i] == h
  {
    hide CutLine;
    assert forall k :: 0 <= k < i ==> lines[..i + 1][k] == lines[..i][k] == lines[k];
    assert lines[..i + 1][i] == lines[i];
  }

  lemma LengthsFixed(headers: seq<Header>, f: Framing)
    requires Tells(headers, f)
    ensures forall n: nat :: LengthsAre(headers, n) <==> f.length.None? || f.length == Some(n)
  {
    if f.length.Some? {
      var i :| 0 <= i < |headers| && IsLength(headers[i]);
    }
  }

  lemma NotBoth(h: Header)
    ensures !(IsLength(h) && IsEncoding(h))
  {
    assert "content-length"[0] != "transfer-encoding"[0];
  }

  /** `parse_response` from its header lines on: the choice of framing after the loop. */
  method ReadBody(lines: seq<string>, body: Bytes) returns (r: Option<Bytes>)
    ensures !AllCut(lines) ==> r == None
    ensures AllCut(lines) && !FramedOneWay(Headers(lines)) ==> r == None
    ensures AllCut(lines) && FramedOneWay(Headers(lines)) ==>
              r == if HasEncoding(Headers(lines)) then Dechunked(body)
                   else if LengthsAre(Headers(lines), |body|) then Some(body) else None
  {
    hide EncodedOnce, Dechunked, Headers;
    var f := ReadHeaders(lines);
    if f.None? {
      return None;
    }
    ghost var headers := Headers(lines);
    LengthsFixed(headers, f.value);
    var Framing(length, chunked) := f.value;
    if chunked && length.Some? {
      return None;
    }
    if length.None? {
      assert LengthsAre(headers, 0) && LengthsAre(headers, |body|);
    }
    if chunked {
      r := Dechunk(body);
      return;
    }
    if length.Some? && |body| != length.value {
      return None;
    }
    return Some(body);
  }

  lemma HeadersGrow(headers: seq<Header>, i: nat)
    requires i < |headers|
    ensures var before, after, h := headers[..i], headers[..i + 1], headers[i];
            && (HasLength(after) <==> HasLength(before) || IsLength(h))
            && (HasEncoding(after) <==> HasEncoding(before) || IsEncoding(h))
            && (EncodedOnce(after) <==>
                  EncodedOnce(before) && (IsEncoding(h) ==> LowerCase(h.value) == "chunked" && !HasEncoding(before)))
            && (forall n: nat :: LengthsAre(after, n) <==> LengthsAre(before, n) && (IsLength(h) ==> LengthOf(h) == Some(n)))
            && (!EncodedOnce(after) ==> !EncodedOnce(headers))
            && (forall n: nat :: LengthsAre(headers, n) ==> LengthsAre(after, n))
  {
    var before, after := headers[..i], headers[..i + 1];
    assert forall k :: 0 <= k < i ==> before[k] == after[k] == headers[k];
    assert after[i] == headers[i];
  }

  // ---- names, values and lengths, character by character ----

  predicate AllBlank(t: string) {
    forall i :: 0 <= i < |t| ==> t[i] in " \t"
  }

  /** A value is what is left between the blanks around it. */
  lemma {:induction false} TrimmedIs(before: string, value: string, after: string)
    requires AllBlank(before) && AllBlank(after)
    requires value != [] ==> value[0] !in " \t" && value[|value| - 1] !in " \t"
    ensures TrimmedText(before + (value + after)) == value
    decreases |before| + |after|
  {
    var t := before + (value + after);
    if before != [] {
      assert t[0] == before[0] && t[1..] == before[1..] + (value + after);
      TrimmedIs(before[1..], value, after);
    } else if after != [] {
      if value == [] {
        assert t == after && t[0] == after[0] && t[1..] == [] + ([] + after[1..]);
        TrimmedIs([], [], after[1..]);
      } else {
        var n := |after| - 1;
        assert t[0] == value[0] && t[|t| - 1] == after[n];
        assert t[..|t| - 1] == [] + (value + after[..n]);
        TrimmedIs([], value, after[..n]);
      }
    } else {
      assert t == value;
    }
  }

  /** The same name, in any capitals. */
  predicate IsName(t: string, name: string) {
    |t| == |name|
    && forall i :: 0 <= i < |t| ==>
         t[i] == name[i] || ('A' <= t[i] <= 'Z' && t[i] as int + 32 == name[i] as int)
  }

  lemma LowerCaseIs(t: string, name: string)
    requires forall i :: 0 <= i < |name| ==> !('A' <= name[i] <= 'Z')
    ensures LowerCase(t) == name <==> IsName(t, name)
  {
    var low := LowerCase(t);
    assert |low| == |t| && forall i :: 0 <= i < |t| ==> low[i] == AsciiLower(t[i]);
    if IsName(t, name) {
      forall i | 0 <= i < |t|
        ensures low[i] == name[i]
      {
      }
    }
  }

  /** The two headers the reader looks at, by name, and what it takes from each. */
  lemma HeadersAre(h: Header, n: nat)
    ensures IsLength(h) <==> IsName(h.name, "content-length")
    ensures IsEncoding(h) <==> IsName(h.name, "transfer-encoding")
    ensures LowerCase(h.value) == "chunked" <==> IsName(h.value, "chunked")
    ensures LengthOf(h) == Some(n) <==>
              h.value != [] && Decimal.AllDigits(h.value) && Decimal.ValueOf(h.value) == n <= 0xFFFF_FFFF_FFFF_FFFF
  {
    hide LowerCase, IsName, Decimal.ValueOf;
    LowerCaseIs(h.name, "content-length");
    LowerCaseIs(h.name, "transfer-encoding");
    LowerCaseIs(h.value, "chunked");
    if h.value != [] && Decimal.AllDigits(h.value) {
      assert Decimal.IsDigit(h.value[0]);
    }
  }
}
