/**
 Reading a multipart body: sections 5.1 and 5.1.1 of RFC 2046 for the
 delimiters and header blocks, section 4.2 of RFC 7578 for the part name.
 `mime` parses a media type and gives its canonical text back.
 */
module Splitter {
  import opened Wrappers
  import opened Text
  import opened Multipart

  type Mime = Bytes -> Option<Bytes>

  datatype Field =
    Field(name: Option<Bytes>, contentType: Option<Bytes>, encoding: Option<Bytes>, bytes: Bytes)

  /** What a reader of the body meets next. `Bad` ends the stream. */
  datatype Item = Good(field: Field) | Bad

  // --------------------------------------------------------------- delimiters

  function Delimiter(boundary: Bytes): (d: Bytes)
    ensures |d| == |boundary| + 4
  {
    CRLF + DashBoundary(boundary)
  }

  /** The body is read as if a CRLF preceded it, so that the first dash-boundary
      is a delimiter like the others; the first segment is the preamble. */
  function Segments(body: Bytes, boundary: Bytes): seq<Bytes> {
    SplitOn(CRLF + body, Delimiter(boundary))
  }

  /** What follows a delimiter: `--` closes the body, otherwise transport padding
      and a CRLF come before the part. */
  function Items(mime: Mime, segments: seq<Bytes>): seq<Item> {
    if segments == [] then [Bad]
    else if "--" <= segments[0] then []
    else
      var rest := TrimLeft(segments[0]);
      if |segments| == 1 || !(CRLF <= rest) then [Bad]
      else
        match ParsePart(mime, rest[2..])
        case None => [Bad]
        case Some(field) => [Good(field)] + Items(mime, segments[1..])
  }

  function ReadItems(mime: Mime, body: Bytes, boundary: Bytes): seq<Item> {
    Items(mime, Segments(body, boundary)[1..])
  }

  // ------------------------------------------------------------ header blocks

  type Header = (Bytes, Bytes)

  /** Header lines up to the empty line, and what follows it. */
  function HeaderLines(content: Bytes): Option<(seq<Bytes>, Bytes)>
    decreases |content|
  {
    var k :- Find(content, CRLF, 0);
    if k == 0 then Some(([], content[2..]))
    else
      var (lines, payload) :- HeaderLines(content[k + 2..]);
      Some(([content[..k]] + lines, payload))
  }

  function ParseLines(lines: seq<Bytes>): Option<seq<Header>> {
    if lines == [] then Some([])
    else
      var header :- ParseHeader(lines[0]);
      var headers :- ParseLines(lines[1..]);
      Some([header] + headers)
  }

  function ParseHeader(line: Bytes): Option<Header> {
    var c :- Find(line, ":", 0);
    Some((Lower(line[..c]), Trim(line[c + 1..])))
  }

  function Lookup(headers: seq<Header>, name: Bytes): Option<Bytes> {
    if headers == [] then None
    else if headers[0].0 == name then Some(headers[0].1)
    else Lookup(headers[1..], name)
  }

  function MakeField(mime: Mime, headers: seq<Header>, payload: Bytes): Field {
    var disposition := Lookup(headers, "content-disposition");
    var contentType := Lookup(headers, "content-type");
    Field(
      if disposition.Some? then DispositionName(disposition.value) else None,
      if contentType.Some? then mime(contentType.value) else None,
      Lookup(headers, "content-encoding"),
      payload)
  }

  function ParsePart(mime: Mime, content: Bytes): Option<Field> {
    var (lines, payload) :- HeaderLines(content);
    var headers :- ParseLines(lines);
    Some(MakeField(mime, headers, payload))
  }

  /** The `name` parameter of a `form-data` disposition. */
  function DispositionName(value: Bytes): Option<Bytes> {
    var k :- Find(value, ";", 0);
    if Lower(Trim(value[..k])) == "form-data" then NameParameter(value[k + 1..]) else None
  }

  function NameParameter(params: Bytes): Option<Bytes>
    decreases |params|
  {
    var s := TrimLeft(params);
    var e :- Find(s, "=", 0);
    var attribute, after := Lower(s[..e]), s[e + 1..];
    if "\"" <= after then
      var q :- Find(after, "\"", 1);
      if attribute == "name" then Some(after[1..q])
      else
        var next :- Find(after, ";", q);
        NameParameter(after[next + 1..])
    else
      match Find(after, ";", 0)
      case None => if attribute == "name" then Some(Trim(after)) else None
      case Some(next) => if attribute == "name" then Some(Trim(after[..next])) else NameParameter(after[next + 1..])
  }

  // --------------------------------------------- delimiters come back in place

  predicate NoBreak(s: Bytes) { '\r' !in s && '\n' !in s }

  function Segment(p: Part): Bytes { CRLF + Content(p) }

  function Contents(parts: seq<Part>): (r: seq<Bytes>)
    ensures |r| == |parts| && forall i :: 0 <= i < |parts| ==> r[i] == Content(parts[i])
  {
    if parts == [] then [] else [Content(parts[0])] + Contents(parts[1..])
  }

  /** The segments after the preamble: every part behind a CRLF, then the close. */
  function Behind(contents: seq<Bytes>): (r: seq<Bytes>)
    ensures |r| == |contents| + 1
    ensures forall i :: 0 <= i < |contents| ==> r[i] == CRLF + contents[i]
    ensures r[|contents|] == "--" + CRLF
  {
    if contents == [] then ["--" + CRLF] else [CRLF + contents[0]] + Behind(contents[1..])
  }

  function SegmentsOf(parts: seq<Part>): seq<Bytes> { Behind(Contents(parts)) }

  function Frames(contents: seq<Bytes>, dash: Bytes): (r: seq<Bytes>)
    ensures |r| == |contents|
  {
    seq(|contents|, i requires 0 <= i < |contents| => dash + CRLF + contents[i] + CRLF)
  }

  lemma DelimiterBorderless(boundary: Bytes)
    requires NoBreak(boundary)
    ensures Borderless(Delimiter(boundary))
  {
    assert Delimiter(boundary)[1..] == "\n--" + boundary;
  }

  lemma {:induction false} FramesAreJoin(contents: seq<Bytes>, dash: Bytes)
    ensures CRLF + (Concat(Frames(contents, dash)) + (dash + "--" + CRLF)) ==
            CRLF + dash + Join(Behind(contents), CRLF + dash)
  {
    if contents == [] {
      assert Frames(contents, dash) == [] && Behind(contents) == ["--" + CRLF];
      CloseOnly(dash);
    } else {
      var rest := contents[1..];
      FramesAreJoin(rest, dash);
      assert Behind(contents)[1..] == Behind(rest);
      assert Frames(contents, dash)[1..] == Frames(rest, dash);
      PartThenRest(dash, contents[0], Concat(Frames(rest, dash)), dash + "--" + CRLF,
                   Join(Behind(rest), CRLF + dash));
    }
  }

  lemma PrintedIsJoin(parts: seq<Part>, boundary: Bytes)
    ensures CRLF + Printed(parts, boundary) == Join([[]] + SegmentsOf(parts), Delimiter(boundary))
  {
    var d, segs := Delimiter(boundary), SegmentsOf(parts);
    FramesAreJoin(Contents(parts), DashBoundary(boundary));
    assert PrintedParts(parts, boundary) == Frames(Contents(parts), DashBoundary(boundary));
    assert ([[]] + segs)[1..] == segs;
    LeadingDelimiter(d, Join(segs, d));
  }

  lemma LeadingDelimiter(d: Bytes, rest: Bytes)
    ensures [] + d + rest == d + rest
  {
  }

  lemma CloseOnly(dash: Bytes)
    ensures CRLF + ([] + (dash + "--" + CRLF)) == CRLF + dash + ("--" + CRLF)
  {
  }

  lemma PartThenRest(dash: Bytes, content: Bytes, printed: Bytes, close: Bytes, joined: Bytes)
    requires CRLF + (printed + close) == CRLF + dash + joined
    ensures CRLF + (((dash + CRLF + content + CRLF) + printed) + close) ==
            CRLF + dash + ((CRLF + content) + (CRLF + dash) + joined)
  {
    calc {
      CRLF + (((dash + CRLF + content + CRLF) + printed) + close);
      CRLF + dash + CRLF + content + (CRLF + (printed + close));
      CRLF + dash + CRLF + content + (CRLF + dash + joined);
      CRLF + dash + ((CRLF + content) + (CRLF + dash) + joined);
    }
  }

  /** The text between the delimiters of a printed body is what was printed if
      and only if no part contains a delimiter. */
  lemma SegmentsExactlyWhen(parts: seq<Part>, boundary: Bytes)
    requires NoBreak(boundary)
    ensures Segments(Printed(parts, boundary), boundary) == [[]] + SegmentsOf(parts) <==>
            forall i :: 0 <= i < |parts| ==> !Contains(Segment(parts[i]), Delimiter(boundary))
  {
    DelimiterBorderless(boundary);
    PrintedIsJoin(parts, boundary);
    CloseIsFree(boundary);
    SplitJoinExactlyWhen([[]] + SegmentsOf(parts), Delimiter(boundary));
    FreeBehind(Contents(parts), Delimiter(boundary));
  }

  lemma FreeBehind(contents: seq<Bytes>, d: Bytes)
    requires d != [] && !Contains("--" + CRLF, d)
    ensures (forall s :: s in [[]] + Behind(contents) ==> !Contains(s, d)) <==>
            (forall i :: 0 <= i < |contents| ==> !Contains(CRLF + contents[i], d))
  {
    var all := [[]] + Behind(contents);
    assert !Contains([], d);
    assert forall i :: 0 <= i < |contents| ==> all[i + 1] == CRLF + contents[i] && all[i + 1] in all;
    forall s | s in all && forall i :: 0 <= i < |contents| ==> !Contains(CRLF + contents[i], d)
      ensures !Contains(s, d)
    {
      var i :| 0 <= i < |all| && all[i] == s;
      if 0 < i <= |contents| {
        assert s == CRLF + contents[i - 1];
      }
    }
  }

  lemma CloseIsFree(boundary: Bytes)
    ensures !Contains("--" + CRLF, Delimiter(boundary))
  {
    var d := Delimiter(boundary);
    assert d[0] == '\r';
    forall k: nat ensures !At("--" + CRLF, d, k) {
      if k + |d| <= 4 {
        assert ("--" + CRLF)[k..k + |d|][0] == '-';
      }
    }
  }

  /** A header line hides no delimiter. */
  lemma LineIsFree(line: Bytes, rest: Bytes, boundary: Bytes)
    requires NoBreak(line) && rest != [] && (line + rest)[0] != '-'
    ensures Contains(CRLF + line + rest, Delimiter(boundary)) <==> Contains(rest, Delimiter(boundary))
  {
    var d, s, n := Delimiter(boundary), CRLF + line + rest, 2 + |line|;
    assert d[0] == '\r' && d[2] == '-';
    forall k: nat | k < n ensures !At(s, d, k) {
      if k + |d| <= |s| {
        assert s[k..k + |d|][0] == s[k] && s[k..k + |d|][2] == s[k + 2];
        if k == 0 {
          assert s[2] == (line + rest)[0];
        } else if k >= 2 {
          assert s[k] == line[k - 2] && line[k - 2] in line;
        }
      }
    }
    forall k: nat ensures At(rest, d, k) <==> At(s, d, n + k) {
      if n + k + |d| <= |s| {
        assert s[n + k..n + k + |d|] == rest[k..k + |d|];
      }
    }
    if Contains(s, d) {
      var k: nat :| At(s, d, k);
      assert At(rest, d, k - n);
    }
    if Contains(rest, d) {
      var k: nat :| At(rest, d, k);
      assert At(s, d, n + k);
    }
  }

  ghost predicate Clean(p: Part) {
    NoBreak(p.name) && NoBreak(p.contentType) && (p.encoding.Some? ==> NoBreak(p.encoding.value))
  }

  /** With clean headers only the payload can hide a delimiter, and it does so
      also when it begins with the dash-boundary. */
  lemma OnlyPayloadMatters(p: Part, boundary: Bytes)
    requires Clean(p)
    ensures Contains(Segment(p), Delimiter(boundary)) <==> Contains(CRLF + p.bytes, Delimiter(boundary))
  {
    var l1, l2 := DispositionLine(p.name), TypeLine(p.contentType);
    assert NoBreak(l1) && l1[0] == 'C';
    assert NoBreak(l2) && l2[0] == 'C';
    if p.encoding.Some? {
      var l3 := EncodingLine(p.encoding.value);
      assert NoBreak(l3) && l3[0] == 'C';
      ThreeLinesFree(l1, l2, l3, p.bytes, boundary);
      ThreeLines(l1, l2, l3, p.bytes);
    } else {
      TwoLinesFree(l1, l2, p.bytes, boundary);
      TwoLines(l1, l2, p.bytes);
    }
  }

  lemma TwoLinesFree(a: Bytes, b: Bytes, payload: Bytes, boundary: Bytes)
    requires NoBreak(a) && a != [] && a[0] == 'C' && NoBreak(b) && b != [] && b[0] == 'C'
    ensures Contains(CRLF + a + (CRLF + b + (CRLF + [] + (CRLF + payload))), Delimiter(boundary)) <==>
            Contains(CRLF + payload, Delimiter(boundary))
  {
    var tail := CRLF + payload;
    LineIsFree([], tail, boundary);
    LineIsFree(b, CRLF + [] + tail, boundary);
    LineIsFree(a, CRLF + b + (CRLF + [] + tail), boundary);
  }

  lemma ThreeLinesFree(a: Bytes, b: Bytes, c: Bytes, payload: Bytes, boundary: Bytes)
    requires NoBreak(a) && a != [] && a[0] == 'C' && NoBreak(b) && b != [] && b[0] == 'C'
    requires NoBreak(c) && c != [] && c[0] == 'C'
    ensures Contains(CRLF + a + (CRLF + b + (CRLF + c + (CRLF + [] + (CRLF + payload)))), Delimiter(boundary)) <==>
            Contains(CRLF + payload, Delimiter(boundary))
  {
    TwoLinesFree(b, c, payload, boundary);
    LineIsFree(a, CRLF + b + (CRLF + c + (CRLF + [] + (CRLF + payload))), boundary);
  }

  lemma TwoLines(a: Bytes, b: Bytes, payload: Bytes)
    ensures CRLF + a + (CRLF + b + (CRLF + [] + (CRLF + payload))) ==
            CRLF + ((a + CRLF + b + CRLF) + CRLF + payload)
  {
  }

  lemma ThreeLines(a: Bytes, b: Bytes, c: Bytes, payload: Bytes)
    ensures CRLF + a + (CRLF + b + (CRLF + c + (CRLF + [] + (CRLF + payload)))) ==
            CRLF + ((a + CRLF + b + CRLF + c + CRLF) + CRLF + payload)
  {
  }

  lemma DropPrefix(pre: Bytes, a: Bytes, b: Bytes, k: nat)
    requires At(pre + a, pre + b, k)
    ensures At(a, b, k)
  {
    var n, s, d := |pre|, pre + a, pre + b;
    assert s[k..k + |d|][n..] == s[k + n..k + |d|] == a[k..k + |b|];
    assert d[n..] == b;
  }

  lemma PayloadIsFree(payload: Bytes, boundary: Bytes)
    requires !Contains(payload, DashBoundary(boundary))
    ensures !Contains(CRLF + payload, Delimiter(boundary))
  {
    if k: nat :| At(CRLF + payload, Delimiter(boundary), k) {
      DropPrefix(CRLF, payload, DashBoundary(boundary), k);
    }
  }

  // ------------------------------------------------- header blocks come back

  lemma NotIn(s: Bytes, c: char)
    requires c !in s
    ensures !Contains(s, [c])
  {
    forall k: nat ensures !At(s, [c], k) {
      if k < |s| {
        assert s[k..k + 1][0] == s[k] && s[k] in s;
      }
    }
  }

  lemma NoCrlf(s: Bytes)
    requires NoBreak(s)
    ensures !Contains(s, CRLF)
  {
    forall k: nat ensures !At(s, CRLF, k) {
      if k + 2 <= |s| {
        assert s[k..k + 2][0] == s[k] && s[k] in s;
      }
    }
  }

  lemma HeaderComesBack(name: Bytes, value: Bytes)
    requires ':' !in name
    ensures ParseHeader(name + ":" + value) == Some((Lower(name), Trim(value)))
  {
    NotIn(name, ':');
    FirstDelimiter(name, ":", value);
    var line := name + ":" + value;
    assert line[..|name|] == name && line[|name| + 1..] == value;
  }

  /** A line that parses as `header`. */
  ghost predicate LineOf(line: Bytes, header: Header) {
    NoBreak(line) && line != [] && ParseHeader(line) == Some(header)
  }

  lemma LeadingBlank(s: Bytes)
    ensures Trim(" " + s) == Trim(s)
  {
    assert (" " + s)[1..] == s;
  }

  lemma TrimNothing(s: Bytes)
    requires s != [] && !Blank(s[0]) && !Blank(s[|s| - 1])
    ensures Trim(s) == s
  {
  }

  lemma PrintedHeader(name: Bytes, value: Bytes, lower: Bytes)
    requires NoBreak(name) && NoBreak(value) && name != [] && ':' !in name && Lower(name) == lower
    ensures LineOf(name + ":" + (" " + value), (lower, Trim(value)))
  {
    HeaderComesBack(name, " " + value);
    LeadingBlank(value);
    assert NoBreak(":") && NoBreak(" ");
  }

  lemma ValueShape(name: Bytes)
    requires NoBreak(name)
    ensures var value := DispositionValue(name);
            value != [] && !Blank(value[0]) && !Blank(value[|value| - 1]) && NoBreak(value)
  {
  }

  lemma DispositionComesBack(name: Bytes)
    requires NoBreak(name)
    ensures LineOf(DispositionLine(name), ("content-disposition", DispositionValue(name)))
  {
    ValueShape(name);
    TrimNothing(DispositionValue(name));
    PrintedHeader("Content-Disposition", DispositionValue(name), "content-disposition");
  }

  lemma TypeComesBack(contentType: Bytes)
    requires NoBreak(contentType)
    ensures LineOf(TypeLine(contentType), ("content-type", Trim(contentType)))
  {
    PrintedHeader("Content-Type", contentType, "content-type");
  }

  lemma EncodingComesBack(encoding: Bytes)
    requires NoBreak(encoding)
    ensures LineOf(EncodingLine(encoding), ("content-encoding", Trim(encoding)))
  {
    PrintedHeader("Content-Encoding", encoding, "content-encoding");
  }

  function HeadersOf(p: Part): seq<Header> {
    [("content-disposition", DispositionValue(p.name)), ("content-type", Trim(p.contentType))]
    + if p.encoding.Some? then [("content-encoding", Trim(p.encoding.value))] else []
  }

  /** Lines, each with its CRLF. */
  function Block(lines: seq<Bytes>): Bytes {
    if lines == [] then [] else lines[0] + CRLF + Block(lines[1..])
  }

  lemma LineComesBack(line: Bytes, rest: Bytes, lines: seq<Bytes>, payload: Bytes, all: Bytes)
    requires NoBreak(line) && line != [] && all == line + CRLF + rest
    requires HeaderLines(rest) == Some((lines, payload))
    ensures HeaderLines(all) == Some(([line] + lines, payload))
  {
    NoCrlf(line);
    FirstDelimiter(line, CRLF, rest);
    assert all[..|line|] == line && all[|line| + 2..] == rest;
  }

  lemma BlankLineComesBack(payload: Bytes, all: Bytes)
    requires all == CRLF + payload
    ensures HeaderLines(all) == Some(([], payload))
  {
    NoCrlf([]);
    FirstDelimiter([], CRLF, payload);
    assert all == [] + CRLF + payload && all[2..] == payload;
  }

  lemma {:induction false} BlockComesBack(lines: seq<Bytes>, payload: Bytes, all: Bytes)
    requires forall i :: 0 <= i < |lines| ==> NoBreak(lines[i]) && lines[i] != []
    requires all == Block(lines) + (CRLF + payload)
    ensures HeaderLines(all) == Some((lines, payload))
  {
    if lines == [] {
      assert all == CRLF + payload;
      BlankLineComesBack(payload, all);
    } else {
      var rest := Block(lines[1..]) + (CRLF + payload);
      BlockComesBack(lines[1..], payload, rest);
      assert all == lines[0] + CRLF + rest;
      LineComesBack(lines[0], rest, lines[1..], payload, all);
      assert lines == [lines[0]] + lines[1..];
    }
  }

  lemma {:induction false} LinesComeBack(lines: seq<Bytes>, headers: seq<Header>)
    requires AllLines(lines, headers)
    ensures ParseLines(lines) == Some(headers)
  {
    if lines != [] {
      LinesComeBack(lines[1..], headers[1..]);
      assert LineOf(lines[0], headers[0]);
      assert headers == [headers[0]] + headers[1..];
    }
  }

  function LinesOf(p: Part): seq<Bytes> {
    [DispositionLine(p.name), TypeLine(p.contentType)]
    + if p.encoding.Some? then [EncodingLine(p.encoding.value)] else []
  }

  lemma BlockOfTwo(a: Bytes, b: Bytes, rest: seq<Bytes>)
    ensures Block([a, b] + rest) == a + CRLF + b + CRLF + Block(rest)
  {
    assert ([a, b] + rest)[1..] == [b] + rest && ([b] + rest)[1..] == rest;
  }

  lemma ContentIsBlock(p: Part)
    ensures Content(p) == Block(LinesOf(p)) + (CRLF + p.bytes)
  {
    var rest := if p.encoding.Some? then [EncodingLine(p.encoding.value)] else [];
    BlockOfTwo(DispositionLine(p.name), TypeLine(p.contentType), rest);
    BlockOfOption(p, rest);
    ThenPayload(Headers(p), p.bytes);
  }

  lemma BlockOfOption(p: Part, rest: seq<Bytes>)
    requires rest == if p.encoding.Some? then [EncodingLine(p.encoding.value)] else []
    ensures Block(rest) == if p.encoding.Some? then EncodingLine(p.encoding.value) + CRLF else []
  {
    if p.encoding.Some? {
      assert rest[1..] == [] && Block([]) == [];
    }
  }

  lemma ThenPayload(headers: Bytes, payload: Bytes)
    ensures headers + CRLF + payload == headers + (CRLF + payload)
  {
  }

  ghost predicate AllLines(lines: seq<Bytes>, headers: seq<Header>) {
    |lines| == |headers| && forall i :: 0 <= i < |lines| ==> LineOf(lines[i], headers[i])
  }

  lemma TwoLinesMore(a: Bytes, h: Header, b: Bytes, k: Header, lines: seq<Bytes>, headers: seq<Header>)
    requires LineOf(a, h) && LineOf(b, k) && AllLines(lines, headers)
    ensures AllLines([a, b] + lines, [h, k] + headers)
  {
  }

  lemma LinesParse(p: Part)
    requires Clean(p)
    ensures AllLines(LinesOf(p), HeadersOf(p))
  {
    DispositionComesBack(p.name);
    TypeComesBack(p.contentType);
    var lines, headers: seq<Header> := [], [];
    if p.encoding.Some? {
      EncodingComesBack(p.encoding.value);
      lines, headers := [EncodingLine(p.encoding.value)], [("content-encoding", Trim(p.encoding.value))];
    }
    TwoLinesMore(DispositionLine(p.name), ("content-disposition", DispositionValue(p.name)),
                 TypeLine(p.contentType), ("content-type", Trim(p.contentType)), lines, headers);
  }

  lemma HeadersComeBack(p: Part)
    requires Clean(p)
    ensures HeaderLines(Content(p)) == Some((LinesOf(p), p.bytes))
    ensures ParseLines(LinesOf(p)) == Some(HeadersOf(p))
  {
    LinesParse(p);
    ContentIsBlock(p);
    assert forall i :: 0 <= i < |LinesOf(p)| ==> LineOf(LinesOf(p)[i], HeadersOf(p)[i]);
    BlockComesBack(LinesOf(p), p.bytes, Content(p));
    LinesComeBack(LinesOf(p), HeadersOf(p));
  }

  lemma ParametersOf(params: Bytes, value: Bytes)
    requires value == "form-data" + ";" + params
    ensures DispositionName(value) == NameParameter(params)
  {
    NotIn("form-data", ';');
    FirstDelimiter("form-data", ";", params);
    assert value[..9] == "form-data" && value[10..] == params;
    TrimNothing("form-data");
    assert Lower("form-data") == "form-data";
  }

  lemma NameParameterOf(after: Bytes, params: Bytes)
    requires "\"" <= after && Find(after, "\"", 1).Some?
    requires params == " name=" + after
    ensures NameParameter(params) == Some(after[1..Find(after, "\"", 1).value])
  {
    var s := "name" + "=" + after;
    assert params[1..] == s && TrimLeft(params) == s;
    NotIn("name", '=');
    FirstDelimiter("name", "=", after);
    assert s[..4] == "name" && s[5..] == after;
    assert Lower("name") == "name";
  }

  lemma ClosingQuote(name: Bytes, after: Bytes)
    requires after == "\"" + name + "\""
    ensures var q := Find(after, "\"", 1);
            q.Some? && q.value <= |name| + 1 && (after[1..q.value] == name <==> '"' !in name)
  {
    assert after[|name| + 1] == '"';
    assert At(after, "\"", |name| + 1);
    var q := Find(after, "\"", 1).value;
    assert after[1..|name| + 1] == name;
    if '"' !in name {
      forall k: nat | 1 <= k < |name| + 1 ensures !At(after, "\"", k) {
        assert after[k..k + 1][0] == name[k - 1] && name[k - 1] in name;
      }
    } else {
      var i :| 0 <= i < |name| && name[i] == '"';
      assert after[i + 1..i + 2] == "\"";
      assert At(after, "\"", i + 1);
      assert |after[1..q]| < |name|;
    }
  }

  lemma QuotedName(name: Bytes, params: Bytes)
    requires params == " name=\"" + name + "\""
    ensures NameParameter(params) == Some(name) <==> '"' !in name
  {
    var after := "\"" + name + "\"";
    ClosingQuote(name, after);
    assert params == " name=" + after;
    NameParameterOf(after, params);
  }

  /** A part name comes back if and only if it has no quote. */
  lemma NameComesBackExactlyWhen(name: Bytes)
    ensures DispositionName(DispositionValue(name)) == Some(name) <==> '"' !in name
  {
    QuotedName(name, " name=\"" + name + "\"");
    ParametersOf(" name=\"" + name + "\"", DispositionValue(name));
  }

  /** What the reader is given for a printed part. */
  function FieldOf(mime: Mime, p: Part): Field {
    Field(Some(p.name), mime(Trim(p.contentType)),
          if p.encoding.Some? then Some(Trim(p.encoding.value)) else None, p.bytes)
  }

  ghost predicate Printable(p: Part, boundary: Bytes) {
    Clean(p) && '"' !in p.name && !Contains(CRLF + p.bytes, Delimiter(boundary))
  }

  lemma PartComesBack(mime: Mime, p: Part)
    requires Clean(p) && '"' !in p.name
    ensures ParsePart(mime, Content(p)) == Some(FieldOf(mime, p))
  {
    HeadersComeBack(p);
    NameComesBackExactlyWhen(p.name);
    HeadersLookup(p);
  }

  lemma LookupDistinct(a: Header, b: Header, rest: seq<Header>, c: Bytes)
    requires a.0 != b.0 && c != a.0 && c != b.0
    ensures Lookup([a, b] + rest, a.0) == Some(a.1)
    ensures Lookup([a, b] + rest, b.0) == Some(b.1)
    ensures Lookup([a, b] + rest, c) == Lookup(rest, c)
  {
    assert ([a, b] + rest)[1..] == [b] + rest;
    assert ([b] + rest)[1..] == rest;
  }

  lemma HeadersLookup(p: Part)
    ensures Lookup(HeadersOf(p), "content-disposition") == Some(DispositionValue(p.name))
    ensures Lookup(HeadersOf(p), "content-type") == Some(Trim(p.contentType))
    ensures Lookup(HeadersOf(p), "content-encoding") ==
            if p.encoding.Some? then Some(Trim(p.encoding.value)) else None
  {
    var rest := if p.encoding.Some? then [("content-encoding", Trim(p.encoding.value))] else [];
    assert |"content-disposition"| != |"content-type"| && |"content-encoding"| != |"content-type"|;
    LookupDistinct(("content-disposition", DispositionValue(p.name)), ("content-type", Trim(p.contentType)),
                   rest, "content-encoding");
  }

  /** The item behind one delimiter. */
  lemma FirstItem(mime: Mime, content: Bytes, field: Field, segments: seq<Bytes>)
    requires |segments| > 1 && segments[0] == CRLF + content && ParsePart(mime, content) == Some(field)
    ensures Items(mime, segments) == [Good(field)] + Items(mime, segments[1..])
  {
    assert segments[0][0] == '\r' && segments[0][2..] == content;
  }

  function GoodItems(mime: Mime, parts: seq<Part>): (r: seq<Item>)
    ensures |r| == |parts|
  {
    seq(|parts|, i requires 0 <= i < |parts| => Good(FieldOf(mime, parts[i])))
  }

  function Goods(fields: seq<Field>): seq<Item> {
    if fields == [] then [] else [Good(fields[0])] + Goods(fields[1..])
  }

  lemma {:induction false} GoodsAt(fields: seq<Field>)
    ensures |Goods(fields)| == |fields| && forall i :: 0 <= i < |fields| ==> Goods(fields)[i] == Good(fields[i])
  {
    if fields != [] {
      GoodsAt(fields[1..]);
    }
  }

  lemma {:induction false} ItemsBehind(mime: Mime, contents: seq<Bytes>, fields: seq<Field>)
    requires |contents| == |fields|
    requires forall i :: 0 <= i < |contents| ==> ParsePart(mime, contents[i]) == Some(fields[i])
    ensures Items(mime, Behind(contents)) == Goods(fields)
  {
    var segs := Behind(contents);
    if contents == [] {
      assert segs == ["--" + CRLF];
    } else {
      ItemsBehind(mime, contents[1..], fields[1..]);
      FirstItem(mime, contents[0], fields[0], segs);
    }
  }

  lemma ItemsComeBack(mime: Mime, parts: seq<Part>)
    requires forall p :: p in parts ==> Clean(p) && '"' !in p.name
    ensures Items(mime, SegmentsOf(parts)) == GoodItems(mime, parts)
  {
    var fields := seq(|parts|, i requires 0 <= i < |parts| => FieldOf(mime, parts[i]));
    forall i | 0 <= i < |parts| ensures ParsePart(mime, Contents(parts)[i]) == Some(fields[i]) {
      PartComesBack(mime, parts[i]);
    }
    ItemsBehind(mime, Contents(parts), fields);
    GoodsAt(fields);
  }

  /** Reading undoes printing: every part comes back with its name, payload and
      encoding, in order. */
  lemma PrintedPartsReadBack(mime: Mime, parts: seq<Part>, boundary: Bytes)
    requires NoBreak(boundary) && forall p :: p in parts ==> Printable(p, boundary)
    ensures ReadItems(mime, Printed(parts, boundary), boundary) == GoodItems(mime, parts)
  {
    forall i | 0 <= i < |parts| ensures !Contains(Segment(parts[i]), Delimiter(boundary)) {
      assert parts[i] in parts;
      OnlyPayloadMatters(parts[i], boundary);
    }
    SegmentsExactlyWhen(parts, boundary);
    assert ([[]] + SegmentsOf(parts))[1..] == SegmentsOf(parts);
    ItemsComeBack(mime, parts);
  }

  // ------------------------------------------------------ and only those do

  lemma FindLonger(c: Bytes, d: Bytes, more: Bytes, all: Bytes, k: nat)
    requires Find(c, d, 0) == Some(k) && all == c + more
    ensures Find(all, d, 0) == Some(k)
  {
    forall j: nat | j <= k ensures At(all, d, j) <==> At(c, d, j) {
      if j + |d| <= |c| {
        assert all[j..j + |d|] == c[j..j + |d|];
      }
    }
  }

  /** A header block that ends still ends there when the part goes on. */
  lemma {:induction false} LongerPart(c: Bytes, more: Bytes, all: Bytes)
    requires HeaderLines(c).Some? && all == c + more
    ensures HeaderLines(all).Some? && |HeaderLines(all).value.1| == |HeaderLines(c).value.1| + |more|
    decreases |c|
  {
    var k := Find(c, CRLF, 0).value;
    FindLonger(c, CRLF, more, all, k);
    assert all[k + 2..] == c[k + 2..] + more;
    if k > 0 {
      LongerPart(c[k + 2..], more, all[k + 2..]);
    }
  }

  ghost predicate ShorterOrBad(items: seq<Item>, payload: Bytes) {
    items == [] || items[0].Bad? || |items[0].field.bytes| < |payload|
  }

  lemma FirstItemCases(mime: Mime, content: Bytes, segments: seq<Bytes>)
    requires segments != [] && segments[0] == CRLF + content
    ensures Items(mime, segments) != []
    ensures Items(mime, segments)[0].Bad? ||
            (HeaderLines(content).Some? && Items(mime, segments)[0].field.bytes == HeaderLines(content).value.1)
  {
    assert segments[0][0] == '\r' && segments[0][2..] == content;
  }

  lemma CutBeforeContent(mime: Mime, segments: seq<Bytes>)
    requires segments != [] && |segments[0]| < 2
    ensures Items(mime, segments) == [Bad]
  {
    assert |TrimLeft(segments[0])| < 2;
  }

  /** A part cut short by a delimiter does not give its payload. */
  lemma CutPart(mime: Mime, cut: Bytes, more: Bytes, content: Bytes, payload: Bytes, segments: seq<Bytes>)
    requires HeaderLines(content).Some? && HeaderLines(content).value.1 == payload
    requires content == cut + more && more != [] && segments != [] && segments[0] == CRLF + cut
    ensures ShorterOrBad(Items(mime, segments), payload)
  {
    FirstItemCases(mime, cut, segments);
    if HeaderLines(cut).Some? {
      LongerPart(cut, more, content);
    }
  }

  lemma FirstPieceShorter(seg: Bytes, d: Bytes, tail: Bytes) returns (m: nat)
    requires d != [] && Contains(seg, d)
    ensures m < |seg| && SplitOn(seg + d + tail, d)[0] == seg[..m]
  {
    var s := seg + d + tail;
    var k: nat :| At(seg, d, k);
    assert s[k..k + |d|] == seg[k..k + |d|];
    assert At(s, d, k);
    m := Find(s, d, 0).value;
    assert s[..m] == seg[..m];
  }

  lemma CutSomewhere(mime: Mime, content: Bytes, seg: Bytes, payload: Bytes, m: nat, segments: seq<Bytes>)
    requires HeaderLines(content).Some? && HeaderLines(content).value.1 == payload
    requires seg == CRLF + content && m < |seg| && segments != [] && segments[0] == seg[..m]
    ensures ShorterOrBad(Items(mime, segments), payload)
  {
    if m < 2 {
      CutBeforeContent(mime, segments);
    } else {
      assert seg[..m] == CRLF + content[..m - 2];
      CutPart(mime, content[..m - 2], content[m - 2..], content, payload, segments);
    }
  }

  lemma NotCut(mime: Mime, content: Bytes, seg: Bytes, payload: Bytes, d: Bytes, tail: Bytes, segments: seq<Bytes>)
    requires HeaderLines(content).Some? && HeaderLines(content).value.1 == payload
    requires seg == CRLF + content && d != [] && segments == SplitOn(seg + d + tail, d)
    requires !ShorterOrBad(Items(mime, segments), payload)
    ensures !Contains(seg, d)
  {
    if Contains(seg, d) {
      var m := FirstPieceShorter(seg, d, tail);
      CutSomewhere(mime, content, seg, payload, m, segments);
    }
  }

  /** The item a clean part gives, whatever its name. */
  function RawField(mime: Mime, p: Part): Field {
    FieldOf(mime, p).(name := DispositionName(DispositionValue(p.name)))
  }

  lemma WholePart(mime: Mime, p: Part, segments: seq<Bytes>)
    requires Clean(p) && |segments| > 1 && segments[0] == CRLF + Content(p)
    ensures Items(mime, segments) == [Good(RawField(mime, p))] + Items(mime, segments[1..])
  {
    HeadersComeBack(p);
    HeadersLookup(p);
    FirstItem(mime, Content(p), RawField(mime, p), segments);
  }

  /** If the first part reads back, it was printable, and the rest follows it. */
  lemma FirstPartNeeds(mime: Mime, p: Part, boundary: Bytes, tail: Bytes, items: seq<Item>)
    requires Clean(p) && NoBreak(boundary)
    requires Items(mime, SplitOn((CRLF + Content(p)) + Delimiter(boundary) + tail, Delimiter(boundary))) ==
             [Good(FieldOf(mime, p))] + items
    ensures Printable(p, boundary)
    ensures Items(mime, SplitOn(tail, Delimiter(boundary))) == items
  {
    var d, content := Delimiter(boundary), Content(p);
    HeadersComeBack(p);
    NotCut(mime, content, CRLF + content, p.bytes, d, tail, SplitOn((CRLF + content) + d + tail, d));
    OnlyPayloadMatters(p, boundary);
    DelimiterBorderless(boundary);
    SplitOff(CRLF + content, d, tail);
    NameNeeds(mime, p, SplitOn(tail, d), items);
  }

  lemma NameNeeds(mime: Mime, p: Part, segments: seq<Bytes>, items: seq<Item>)
    requires Clean(p) && segments != []
    requires Items(mime, [CRLF + Content(p)] + segments) == [Good(FieldOf(mime, p))] + items
    ensures '"' !in p.name && Items(mime, segments) == items
  {
    var all := [CRLF + Content(p)] + segments;
    assert all[1..] == segments;
    WholePart(mime, p, all);
    assert ([Good(FieldOf(mime, p))] + items)[0] == Good(RawField(mime, p));
    assert ([Good(FieldOf(mime, p))] + items)[1..] == items;
    assert ([Good(RawField(mime, p))] + Items(mime, segments))[1..] == Items(mime, segments);
    NameComesBackExactlyWhen(p.name);
  }

  lemma FirstGoodItem(mime: Mime, parts: seq<Part>)
    requires parts != []
    ensures GoodItems(mime, parts) == [Good(FieldOf(mime, parts[0]))] + GoodItems(mime, parts[1..])
  {
  }

  lemma {:induction false} ReadBackNeedsPrintable(mime: Mime, parts: seq<Part>, boundary: Bytes)
    requires NoBreak(boundary) && forall p :: p in parts ==> Clean(p)
    requires Items(mime, SplitOn(Join(SegmentsOf(parts), Delimiter(boundary)), Delimiter(boundary))) ==
             GoodItems(mime, parts)
    ensures forall p :: p in parts ==> Printable(p, boundary)
  {
    if parts != [] {
      var p, rest := parts[0], parts[1..];
      var tail := Join(SegmentsOf(rest), Delimiter(boundary));
      FirstGoodItem(mime, parts);
      assert p in parts;
      FirstPartNeeds(mime, p, boundary, tail, GoodItems(mime, rest));
      ReadBackNeedsPrintable(mime, rest, boundary);
    }
  }

  lemma SplitOff(p: Bytes, d: Bytes, tail: Bytes)
    requires d != [] && !Contains(p, d) && Borderless(d)
    ensures SplitOn(p + d + tail, d) == [p] + SplitOn(tail, d)
  {
    FirstDelimiter(p, d, tail);
    assert (p + d + tail)[..|p|] == p && (p + d + tail)[|p| + |d|..] == tail;
  }

  /** A body printed with clean headers reads back part for part if and only if
      no name has a quote and no payload contains the delimiter, a payload that
      begins with the dash-boundary counting as one that does. */
  lemma ReadBackExactlyWhen(mime: Mime, parts: seq<Part>, boundary: Bytes)
    requires NoBreak(boundary) && forall p :: p in parts ==> Clean(p)
    ensures ReadItems(mime, Printed(parts, boundary), boundary) == GoodItems(mime, parts) <==>
            forall p :: p in parts ==> Printable(p, boundary)
  {
    if forall p :: p in parts ==> Printable(p, boundary) {
      PrintedPartsReadBack(mime, parts, boundary);
    } else if ReadItems(mime, Printed(parts, boundary), boundary) == GoodItems(mime, parts) {
      var d, segs := Delimiter(boundary), SegmentsOf(parts);
      PrintedIsJoin(parts, boundary);
      assert ([[]] + segs)[1..] == segs;
      DelimiterBorderless(boundary);
      SplitOff([], d, Join(segs, d));
      ReadBackNeedsPrintable(mime, parts, boundary);
    }
  }

  // ------------------------------------------------- payloads that break the framing

  lemma {:induction false} ConcatTogether(xs: seq<Bytes>, ys: seq<Bytes>)
    ensures Concat(xs + ys) == Concat(xs) + Concat(ys)
  {
    if xs == [] {
      assert xs + ys == ys;
    } else {
      ConcatTogether(xs[1..], ys);
      assert (xs + ys)[1..] == xs[1..] + ys;
      assert xs[0] + (Concat(xs[1..]) + Concat(ys)) == xs[0] + Concat(xs[1..]) + Concat(ys);
    }
  }

  lemma PrintedAt(parts: seq<Part>, boundary: Bytes, i: nat, printed: seq<Bytes>)
    requires i < |parts| && printed == PrintedParts(parts, boundary)
    ensures printed[i] == PrintedPart(parts[i], boundary)
  {
  }

  lemma PrintedTogether(a: seq<Part>, b: seq<Part>, boundary: Bytes)
    ensures Concat(PrintedParts(a + b, boundary)) ==
            Concat(PrintedParts(a, boundary)) + Concat(PrintedParts(b, boundary))
  {
    var all, left, right := PrintedParts(a + b, boundary), PrintedParts(a, boundary), PrintedParts(b, boundary);
    forall i | 0 <= i < |all| ensures all[i] == (left + right)[i] {
      PrintedAt(a + b, boundary, i, all);
      if i < |a| {
        PrintedAt(a, boundary, i, left);
        assert (a + b)[i] == a[i];
      } else {
        PrintedAt(b, boundary, i - |a|, right);
        assert (a + b)[i] == b[i - |a|];
      }
    }
    assert all == left + right;
    ConcatTogether(left, right);
  }

  lemma OnePrinted(p: Part, boundary: Bytes)
    ensures Concat(PrintedParts([p], boundary)) == PrintedPart(p, boundary)
  {
    assert PrintedParts([p], boundary)[1..] == [];
  }

  lemma Regrouped(dash: Bytes, headers: Bytes, payload: Bytes, content: Bytes)
    ensures dash + CRLF + (headers + CRLF + (payload + (CRLF + dash) + CRLF + content)) + CRLF ==
            (dash + CRLF + (headers + CRLF + payload) + CRLF) + (dash + CRLF + content + CRLF)
  {
  }

  /** A payload that contains a delimiter and the text of another part is the
      same body as two parts, so it is read as those two. */
  lemma SmuggledPart(mime: Mime, before: seq<Part>, p: Part, q: Part, after: seq<Part>, boundary: Bytes)
    requires NoBreak(boundary) && forall x :: x in before + [p, q] + after ==> Printable(x, boundary)
    ensures var smuggler := p.(bytes := p.bytes + Delimiter(boundary) + CRLF + Content(q));
            && Printed(before + [smuggler] + after, boundary) == Printed(before + [p, q] + after, boundary)
            && ReadItems(mime, Printed(before + [smuggler] + after, boundary), boundary) ==
               GoodItems(mime, before + [p, q] + after)
  {
    var smuggler := p.(bytes := p.bytes + Delimiter(boundary) + CRLF + Content(q));
    PrintedTogether(before + [smuggler], after, boundary);
    PrintedTogether(before, [smuggler], boundary);
    PrintedTogether(before + [p, q], after, boundary);
    PrintedTogether(before, [p, q], boundary);
    OnePrinted(smuggler, boundary);
    TwoPrinted(p, q, boundary, Concat(PrintedParts([p, q], boundary)));
    Regrouped(DashBoundary(boundary), Headers(p), p.bytes, Content(q));
    PrintedPartsReadBack(mime, before + [p, q] + after, boundary);
  }

  lemma {:induction false} BlockAlone(lines: seq<Bytes>)
    requires forall i :: 0 <= i < |lines| ==> NoBreak(lines[i]) && lines[i] != []
    ensures HeaderLines(Block(lines)).None?
  {
    if lines != [] {
      var line, rest := lines[0], Block(lines[1..]);
      BlockAlone(lines[1..]);
      NoCrlf(line);
      FirstDelimiter(line, CRLF, rest);
      assert (line + CRLF + rest)[|line| + 2..] == rest;
    }
  }

  lemma HeadersAlone(p: Part)
    requires Clean(p)
    ensures HeaderLines(Headers(p)).None?
  {
    ContentIsBlock(p);
    var n := |Block(LinesOf(p))|;
    assert |Content(p)| == n + 2 + |p.bytes| == |Headers(p)| + 2 + |p.bytes|;
    assert Block(LinesOf(p)) == Content(p)[..n] == Headers(p);
    LinesAreLines(p);
    BlockAlone(LinesOf(p));
  }

  lemma LinesAreLines(p: Part)
    requires Clean(p)
    ensures forall i :: 0 <= i < |LinesOf(p)| ==> NoBreak(LinesOf(p)[i]) && LinesOf(p)[i] != []
  {
  }

  lemma HeadersFree(p: Part, boundary: Bytes)
    requires Clean(p)
    ensures !Contains(CRLF + Headers(p), Delimiter(boundary))
  {
    var d, bare := Delimiter(boundary), p.(bytes := []);
    OnlyPayloadMatters(bare, boundary);
    assert Segment(bare) == CRLF + Headers(p) + CRLF;
    forall k: nat ensures !At(CRLF + Headers(p), d, k) {
      assert !At(Segment(bare), d, k);
      assert k + |d| <= |CRLF + Headers(p)| ==> (CRLF + Headers(p))[k..k + |d|] == Segment(bare)[k..k + |d|];
    }
  }

  lemma BoundaryText(dash: Bytes, content: Bytes, headers: Bytes, rest: Bytes, more: Bytes)
    ensures CRLF + ((dash + CRLF + content + CRLF) + (dash + CRLF + (headers + CRLF + (dash + rest)) + CRLF) + more) ==
            [] + (CRLF + dash)
            + ((CRLF + content) + (CRLF + dash) + ((CRLF + headers) + (CRLF + dash) + (rest + CRLF + more)))
  {
  }

  lemma CutHeaders(mime: Mime, p: Part, segments: seq<Bytes>)
    requires Clean(p) && segments != [] && segments[0] == CRLF + Headers(p)
    ensures Items(mime, segments) == [Bad]
  {
    HeadersAlone(p);
    assert segments[0][0] == '\r' && segments[0][2..] == Headers(p);
  }

  lemma PrintedAfterTwo(m: Part, p: Part, after: seq<Part>, boundary: Bytes, more: Bytes)
    requires more == Concat(PrintedParts(after, boundary)) + (DashBoundary(boundary) + "--" + CRLF)
    ensures Printed([m, p] + after, boundary) == PrintedPart(m, boundary) + PrintedPart(p, boundary) + more
  {
    var two := Concat(PrintedParts([m, p], boundary));
    var rest, close := Concat(PrintedParts(after, boundary)), DashBoundary(boundary) + "--" + CRLF;
    PrintedTogether([m, p], after, boundary);
    assert Printed([m, p] + after, boundary) == two + rest + close;
    TwoPrinted(m, p, boundary, two);
    Reassociated(two, rest, close);
  }

  lemma TwoPrinted(m: Part, p: Part, boundary: Bytes, two: Bytes)
    requires two == Concat(PrintedParts([m, p], boundary))
    ensures two == PrintedPart(m, boundary) + PrintedPart(p, boundary)
  {
    PrintedTogether([m], [p], boundary);
    OnePrinted(m, boundary);
    OnePrinted(p, boundary);
    assert [m] + [p] == [m, p];
  }

  lemma Reassociated(a: Bytes, b: Bytes, c: Bytes)
    ensures a + b + c == a + (b + c)
  {
  }

  lemma BoundaryShape(m: Part, p: Part, rest: Bytes, boundary: Bytes, more: Bytes, text: Bytes)
    requires p.bytes == DashBoundary(boundary) + rest
    requires text == CRLF + (PrintedPart(m, boundary) + PrintedPart(p, boundary) + more)
    ensures var d := Delimiter(boundary);
            text == [] + d + ((CRLF + Content(m)) + d + ((CRLF + Headers(p)) + d + (rest + CRLF + more)))
  {
    BoundaryText(DashBoundary(boundary), Content(m), Headers(p), rest, more);
  }

  /** A payload that begins with the dash-boundary ends its own headers early, so
      the reader stops there, whatever follows. */
  lemma BoundaryFirst(mime: Mime, m: Part, p: Part, rest: Bytes, after: seq<Part>, boundary: Bytes)
    requires NoBreak(boundary) && Printable(m, boundary) && Clean(p) && p.bytes == DashBoundary(boundary) + rest
    ensures ReadItems(mime, Printed([m, p] + after, boundary), boundary) == [Good(FieldOf(mime, m)), Bad]
  {
    var body := Printed([m, p] + after, boundary);
    var more := Concat(PrintedParts(after, boundary)) + (DashBoundary(boundary) + "--" + CRLF);
    PrintedAfterTwo(m, p, after, boundary, more);
    BoundaryShape(m, p, rest, boundary, more, CRLF + body);
    BoundarySegments(mime, m, p, rest + CRLF + more, boundary, CRLF + body);
  }

  lemma BoundarySegments(mime: Mime, m: Part, p: Part, tail: Bytes, boundary: Bytes, text: Bytes)
    requires NoBreak(boundary) && Printable(m, boundary) && Clean(p)
    requires var d := Delimiter(boundary);
             text == [] + d + ((CRLF + Content(m)) + d + ((CRLF + Headers(p)) + d + tail))
    ensures Items(mime, SplitOn(text, Delimiter(boundary))[1..]) == [Good(FieldOf(mime, m)), Bad]
  {
    var d, first, second := Delimiter(boundary), CRLF + Content(m), CRLF + Headers(p);
    DelimiterBorderless(boundary);
    OnlyPayloadMatters(m, boundary);
    HeadersFree(p, boundary);
    SplitOff(second, d, tail);
    SplitOff(first, d, second + d + tail);
    SplitOff([], d, first + d + (second + d + tail));
    var segments := [first] + ([second] + SplitOn(tail, d));
    assert SplitOn(text, d)[1..] == segments;
    PartComesBack(mime, m);
    FirstItem(mime, Content(m), FieldOf(mime, m), segments);
    assert segments[1..] == [second] + SplitOn(tail, d);
    CutHeaders(mime, p, segments[1..]);
  }
}
