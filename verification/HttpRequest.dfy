/** The request text parser processRequest of src/backend/HttpServer.cpp. */
module HttpRequest {
  import opened Options
  import opened Pairs
  import opened Split
  import opened TextSearch

  const CRLF: string := "\r\n"
  const BLANK: string := "\r\n\r\n"
  const COLON: string := ": "

  datatype Parsed = BadRequest | Request(verb: string, path: string, headers: map<string, string>, body: string)

  /** An unsigned 64-bit length after wrap-around. */
  function SizeT(x: int): nat { x % 0x1_0000_0000_0000_0000 }

  /** std::string::substr. */
  function Substr(t: string, pos: nat, n: nat): string
    requires pos <= |t|
  {
    if n < |t| - pos then t[pos..pos + n] else t[pos..]
  }

  // ----- header lines

  function Stripped(line: string): string {
    if line != [] && line[|line| - 1] == '\r' then line[..|line| - 1] else line
  }

  function HeaderOf(line: string): Option<Pair> {
    var text := Stripped(line);
    var colon := Find(text, COLON);
    if line == [] || line == ['\r'] || colon.None? then None
    else Some(Pair(text[..colon.value], text[colon.value + 2..]))
  }

  function Add(m: map<string, string>, line: string): map<string, string> {
    var h := HeaderOf(line);
    if h.None? then m else m[h.value.key := h.value.value]
  }

  function AddAll(m: map<string, string>, lines: seq<string>): map<string, string>
    decreases lines
  {
    if lines == [] then m else AddAll(Add(m, lines[0]), lines[1..])
  }

  /** The part of the text that is taken for the headers. The length wraps when there is none. */
  function HeaderSection(raw: string, firstLineEnd: nat, headerEnd: nat): string
    requires firstLineEnd + 2 <= |raw|
  {
    Substr(raw, firstLineEnd + 2, SizeT(headerEnd - firstLineEnd - 2))
  }

  function Parse(raw: string): Parsed {
    var firstLineEnd := Find(raw, CRLF);
    if firstLineEnd.None? then BadRequest
    else
      var line := SkipSpaces(raw[..firstLineEnd.value]);
      var name := Word(line);
      var path := Word(SkipSpaces(line[|name|..]));
      var headerEnd := Find(raw, BLANK);
      if headerEnd.None? then Request(name, path, map[], [])
      else
        var section := HeaderSection(raw, firstLineEnd.value, headerEnd.value);
        Request(name, path, AddAll(map[], Parts(section, '\n')), raw[headerEnd.value + 4..])
  }

  // ----- the method

  lemma {:induction false} AddAllAppend(m: map<string, string>, lines: seq<string>, line: string)
    ensures AddAll(m, lines + [line]) == Add(AddAll(m, lines), line)
    decreases lines
  {
    if lines == [] {
      assert [] + [line] == [line];
    } else {
      assert (lines + [line])[1..] == lines[1..] + [line];
      AddAllAppend(Add(m, lines[0]), lines[1..], line);
    }
  }

  method ParseHeaders(section: string) returns (headers: map<string, string>)
    ensures headers == AddAll(map[], Parts(section, '\n'))
  {
    hide Parts, Add;
    var lines, last := SplitAt(section, '\n');
    lines := lines + [last];
    headers := map[];
    for i := 0 to |lines|
      invariant headers == AddAll(map[], lines[..i])
    {
      AddAllAppend(map[], lines[..i], lines[i]);
      assert lines[..i + 1] == lines[..i] + [lines[i]];
      headers := ParseLine(headers, lines[i]);
    }
    assert lines[..|lines|] == lines;
  }

  /** The loop body of the header loop. */
  method ParseLine(before: map<string, string>, text: string) returns (headers: map<string, string>)
    ensures headers == Add(before, text)
  {
    hide Find;
    headers := before;
    var line := text;
    if line == [] || line == ['\r'] {
      return;
    }
    if line[|line| - 1] == '\r' {
      line := line[..|line| - 1];
    }
    var colon := Find(line, COLON);
    if colon.Some? {
      headers := headers[line[..colon.value] := line[colon.value + 2..]];
    }
  }

  method ProcessRequest(raw: string) returns (r: Parsed)
    ensures r == Parse(raw)
  {
    hide Find, AddAll, Parts;
    var firstLineEnd := Find(raw, CRLF);
    if firstLineEnd.None? {
      return BadRequest;
    }
    var stream := SkipSpaces(raw[..firstLineEnd.value]);
    var name := Word(stream);
    stream := SkipSpaces(stream[|name|..]);
    var path := Word(stream);
    var headers, body := map[], "";
    var headerEnd := Find(raw, BLANK);
    if headerEnd.Some? {
      headers := ParseHeaders(HeaderSection(raw, firstLineEnd.value, headerEnd.value));
      body := raw[headerEnd.value + 4..];
    }
    r := Request(name, path, headers, body);
  }

  // ----- well-formed requests

  predicate NoLineBreak(t: string) {
    forall i :: 0 <= i < |t| ==> t[i] != '\r' && t[i] != '\n'
  }

  predicate WellFormed(h: Pair) {
    NoLineBreak(h.key) && NoLineBreak(h.value) && Find(h.key, COLON).None?
  }

  function Line(h: Pair): string { h.key + COLON + h.value }

  /** Header lines separated, not ended, by line breaks. */
  function Lines(headers: seq<Pair>): string
    requires headers != []
  {
    if |headers| == 1 then Line(headers[0]) else Line(headers[0]) + CRLF + Lines(headers[1..])
  }

  /** A request line has a method, a path, and perhaps more behind a space. */
  predicate RequestLine(name: string, path: string, tail: string) {
    IsWord(name) && IsWord(path) && NoLineBreak(tail) && (tail != [] ==> tail[0] == ' ')
  }

  function Rendered(name: string, path: string, tail: string, headers: seq<Pair>, body: string): string {
    name + " " + path + tail + CRLF + (if headers == [] then [] else Lines(headers) + CRLF) + CRLF + body
  }

  // ----- finding the pieces of a well-formed request

  lemma ColonAt(key: string, value: string)
    requires Find(key, COLON).None?
    ensures Find(key + COLON + value, COLON) == Some(|key|)
  {
    var t := COLON + value;
    FindMeansNone(key, COLON);
    hide Find;
    forall i | 0 <= i < |key| ensures !(COLON <= key[i..] + t) {
      var k := key[i..];
      assert !(COLON <= k);
      if |k| == 1 {
        assert (k + t)[1] == ':';
      } else {
        assert (k + t)[..2] == k[..2];
      }
    }
    FindSkips(key, t, COLON);
    assert key + t == key + COLON + value;
    ColonAtOnce(value);
  }

  lemma ColonAtOnce(value: string)
    ensures Find(COLON + value, COLON) == Some(0)
  {
  }

  lemma LineFound(h: Pair, more: string)
    requires WellFormed(h) && (more == [] || more == ['\r'])
    ensures HeaderOf(Line(h) + more) == Some(h)
  {
    var text := Line(h);
    ColonAt(h.key, h.value);
    LineHasNoBreak(h);
    hide Find, WellFormed;
    assert Stripped(text + more) == text by {
      if more == [] {
        assert text + more == text;
      }
    }
    assert text[|h.key| + 2..] == h.value && text[..|h.key|] == h.key;
  }

  /** The first line break is at the end of a line without one. */
  lemma FirstBreak(line: string, rest: string, p: string)
    requires NoLineBreak(line) && p != [] && p[0] == '\r'
    ensures Find(line + rest, p) == Shifted(Find(rest, p), |line|)
  {
    forall i | 0 <= i < |line| ensures !(p <= line[i..] + rest) {
      assert (line[i..] + rest)[0] == line[i];
    }
    FindSkips(line, rest, p);
  }

  /** A line break that no other follows is not a blank line. */
  lemma BreakSkipped(rest: string)
    requires rest != [] && rest[0] != '\r'
    ensures Find(CRLF + rest, BLANK) == Shifted(Find(rest, BLANK), 2)
  {
    assert CRLF[0..] == CRLF && (CRLF + rest)[2] == rest[0];
    assert CRLF[1..] == ['\n'] && (CRLF[1..] + rest)[0] == '\n';
    assert BLANK[0] == '\r' && BLANK[2] == '\r';
    FindSkips(CRLF, rest, BLANK);
  }

  predicate AllWellFormed(headers: seq<Pair>) {
    forall i :: 0 <= i < |headers| ==> WellFormed(headers[i])
  }

  lemma LineHasNoBreak(h: Pair)
    requires WellFormed(h)
    ensures NoLineBreak(Line(h)) && |Line(h)| >= 2
  {
  }

  /** The blank line is found behind the last header. */
  lemma {:induction false} BlankAfterLines(headers: seq<Pair>, body: string)
    requires headers != [] && AllWellFormed(headers)
    ensures Lines(headers) != [] && Lines(headers)[0] != '\r'
    ensures Find(Lines(headers) + BLANK + body, BLANK) == Some(|Lines(headers)|)
  {
    hide Find, WellFormed, Line, NoLineBreak;
    var first := Line(headers[0]);
    LineHasNoBreak(headers[0]);
    NotReturn(first);
    if |headers| == 1 {
      assert Lines(headers) + BLANK + body == first + (BLANK + body);
      FirstBreak(first, BLANK + body, BLANK);
      FoundAtOnce(body);
    } else {
      var others := Lines(headers[1..]);
      BlankAfterLines(headers[1..], body);
      var rest := others + BLANK + body;
      assert rest[0] == others[0];
      assert Lines(headers) + BLANK + body == first + (CRLF + rest);
      FirstBreak(first, CRLF + rest, BLANK);
      BreakSkipped(rest);
    }
  }

  lemma NotReturn(t: string)
    requires NoLineBreak(t) && t != []
    ensures t[0] != '\r'
  {
  }

  lemma FoundAtOnce(body: string)
    ensures Find(BLANK + body, BLANK) == Some(0)
  {
  }

  /** Reading the header lines gives the map the headers denote. */
  lemma {:induction false} LinesParsed(m: map<string, string>, headers: seq<Pair>)
    requires headers != [] && AllWellFormed(headers)
    ensures AddAll(m, Parts(Lines(headers), '\n')) == Denoted(m, headers)
    decreases headers
  {
    hide Find, WellFormed, Line, NoLineBreak, HeaderOf;
    var first := Line(headers[0]);
    FreeOfNewline(headers[0]);
    if |headers| == 1 {
      PartsOfFree(first, '\n');
      LineFound(headers[0], []);
      assert first + [] == first;
      OneLine(m, first);
    } else {
      var others := headers[1..];
      var line := first + ['\r'];
      assert Lines(headers) == line + ['\n'] + Lines(others);
      PartsOfConcat(line, Lines(others), '\n');
      PartsOfFree(line, '\n');
      LineFound(headers[0], ['\r']);
      var parts := Parts(Lines(others), '\n');
      assert ([line] + parts)[1..] == parts;
      LinesParsed(Add(m, line), others);
    }
  }

  lemma OneLine(m: map<string, string>, line: string)
    ensures AddAll(m, [line]) == Add(m, line)
  {
    assert [line][1..] == [];
  }

  lemma FreeOfNewline(h: Pair)
    requires WellFormed(h)
    ensures Free(Line(h), '\n') && Free(Line(h) + ['\r'], '\n')
  {
  }

  // ----- the request line

  lemma RequestLineFound(name: string, path: string, tail: string)
    requires RequestLine(name, path, tail)
    ensures var line := name + " " + path + tail;
            && NoLineBreak(line) && SkipSpaces(line) == line && Word(line) == name
            && Word(SkipSpaces(line[|name|..])) == path
  {
    var line := name + " " + path + tail;
    var rest := " " + path + tail;
    assert line == name + rest;
    WordIs(name, rest);
    assert line[|name|..] == rest;
    assert rest[1..] == path + tail;
    WordIs(path, tail);
    assert SkipSpaces(rest) == SkipSpaces(rest[1..]);
  }

  lemma SectionFound(raw: string, start: nat, lines: string)
    requires start + 2 + |lines| < |raw| < 0x8000_0000_0000_0000
    requires raw[start + 2..start + 2 + |lines|] == lines
    ensures HeaderSection(raw, start, start + 2 + |lines|) == lines
  {
    var n: nat := start + 2 + |lines| - start - 2;
    assert n == |lines| && SizeT(n) == n;
  }

  lemma Sections(line: string, lines: string, body: string)
    ensures var raw := line + (CRLF + (lines + BLANK + body));
            && raw[..|line|] == line && raw[|line| + 2..|line| + 2 + |lines|] == lines
            && raw[|line| + 2 + |lines| + 4..] == body
  {
  }

  /** Where the line breaks of a request with headers are. */
  lemma BreaksFound(line: string, headers: seq<Pair>, body: string)
    requires NoLineBreak(line) && headers != [] && AllWellFormed(headers)
    ensures var raw := line + (CRLF + (Lines(headers) + BLANK + body));
            Find(raw, CRLF) == Some(|line|) && Find(raw, BLANK) == Some(|line| + 2 + |Lines(headers)|)
  {
    hide Find, AllWellFormed, NoLineBreak, Lines;
    BlankAfterLines(headers, body);
    var rest := Lines(headers) + BLANK + body;
    FirstBreak(line, CRLF + rest, CRLF);
    CrlfAtOnce(rest);
    FirstBreak(line, CRLF + rest, BLANK);
    assert rest[0] == Lines(headers)[0];
    BreakSkipped(rest);
  }

  /** With at least one header, the parser recovers every part of a well-formed request. */
  lemma RenderedIsParsed(name: string, path: string, tail: string, headers: seq<Pair>, body: string)
    requires RequestLine(name, path, tail) && headers != [] && AllWellFormed(headers)
    requires |Rendered(name, path, tail, headers, body)| < 0x8000_0000_0000_0000
    ensures Parse(Rendered(name, path, tail, headers, body)) == Request(name, path, Denoted(map[], headers), body)
  {
    hide Find, AllWellFormed, RequestLine, NoLineBreak, Lines, AddAll, Denoted, Parts, Word, SkipSpaces, HeaderSection;
    var raw := Rendered(name, path, tail, headers, body);
    var line, lines := name + " " + path + tail, Lines(headers);
    RequestLineFound(name, path, tail);
    assert raw == line + (CRLF + (lines + BLANK + body));
    BreaksFound(line, headers, body);
    Sections(line, lines, body);
    SectionFound(raw, |line|, lines);
    LinesParsed(map[], headers);
  }

  lemma CrlfAtOnce(rest: string)
    ensures Find(CRLF + rest, CRLF) == Some(0)
  {
  }

  /** A text is refused exactly when it has no line break at all. */
  lemma BadRequestExactly(raw: string)
    ensures Parse(raw) == BadRequest <==> forall i :: 0 <= i < |raw| ==> !("\r\n" <= raw[i..])
  {
    hide Find, AddAll, Parts, Word, SkipSpaces, HeaderSection;
    FindMeansNone(raw, CRLF);
  }

  /** Without a blank line there are no headers and no body. */
  lemma NoBlankLine(raw: string)
    requires forall i :: 0 <= i < |raw| ==> !("\r\n\r\n" <= raw[i..])
    ensures Parse(raw).Request? ==> Parse(raw).headers == map[] && Parse(raw).body == ""
  {
    hide Find, AddAll, Parts, Word, SkipSpaces, HeaderSection;
    FindMeansNone(raw, BLANK);
  }

  /** Method and path are the first two words, whatever white space is before, between and behind them. */
  lemma AnySpacing(lead: string, name: string, gap: string, path: string, tail: string)
    requires IsWord(name) && IsWord(path) && AllSpaces(lead) && AllSpaces(gap) && gap != []
    requires tail == [] || IsSpace(tail[0])
    ensures var line := lead + (name + (gap + (path + tail)));
            var stream := SkipSpaces(line);
            && Word(stream) == name && Word(SkipSpaces(stream[|name|..])) == path
  {
    hide SkipSpaces, Word, IsWord, IsSpace;
    FirstOfWord(name);
    FirstOfWord(path);
    var behind := gap + (path + tail);
    assert behind[0] == gap[0] && (name + behind)[0] == name[0] && (path + tail)[0] == path[0];
    AllSpacesSkipped(lead, name + behind);
    AllSpacesSkipped(gap, path + tail);
    WordIs(name, behind);
    assert (name + behind)[|name|..] == behind;
    WordIs(path, tail);
  }

  lemma OneHeader(h: Pair)
    requires WellFormed(h)
    ensures AllWellFormed([h]) && Lines([h]) == Line(h) && Denoted(map[], [h]) == map[h.key := h.value]
  {
    hide WellFormed;
    assert [h][1..] == [];
  }

  /** The parse of the plainest request with one header, letter by letter. */
  lemma OneHeaderRequest(name: string, path: string, key: string, value: string, body: string)
    requires RequestLine(name, path, " HTTP/1.1") && WellFormed(Pair(key, value))
    requires |name| + |path| + |key| + |value| + |body| < 0x4000_0000_0000_0000
    ensures Parse(name + " " + path + " HTTP/1.1\r\n" + key + ": " + value + "\r\n\r\n" + body) ==
            Request(name, path, map[key := value], body)
  {
    hide Parse, RequestLine, WellFormed;
    var h := Pair(key, value);
    OneHeader(h);
    hide Lines, AllWellFormed, Denoted;
    var raw := Rendered(name, path, " HTTP/1.1", [h], body);
    assert raw == name + " " + path + " HTTP/1.1" + "\r\n" + (key + ": " + value + "\r\n") + "\r\n" + body;
    assert raw == name + " " + path + " HTTP/1.1\r\n" + key + ": " + value + "\r\n\r\n" + body;
    RenderedIsParsed(name, path, " HTTP/1.1", [h], body);
  }

  // ----- a request without headers

  /** Without headers the length wraps, and the lines of the body are read as headers. */
  lemma BodyReadAsHeaders(name: string, path: string, tail: string, body: string)
    requires RequestLine(name, path, tail)
    requires |Rendered(name, path, tail, [], body)| < 0x8000_0000_0000_0000
    ensures Parse(Rendered(name, path, tail, [], body)) ==
            Request(name, path, AddAll(map[], Parts(CRLF + body, '\n')), body)
  {
    hide Find, RequestLine, NoLineBreak, AddAll, Parts, Word, SkipSpaces;
    var raw := Rendered(name, path, tail, [], body);
    var line := name + " " + path + tail;
    RequestLineFound(name, path, tail);
    assert raw == line + (BLANK + body);
    FirstBreak(line, BLANK + body, CRLF);
    FirstBreak(line, BLANK + body, BLANK);
    FoundAtOnce(body);
    assert BLANK + body == CRLF + (CRLF + body);
    CrlfAtOnce(CRLF + body);
    assert raw[..|line|] == line;
    assert raw[|line| + 2..] == CRLF + body;
    assert raw[|line| + 4..] == body;
    assert HeaderSection(raw, |line|, |line|) == CRLF + body;
  }

  /** Its header map is empty, as it should be, exactly when the body has no colon followed by a space. */
  lemma EmptyHeadersExactly(name: string, path: string, tail: string, body: string)
    requires RequestLine(name, path, tail)
    requires |Rendered(name, path, tail, [], body)| < 0x8000_0000_0000_0000
    ensures var r := Parse(Rendered(name, path, tail, [], body));
            r.Request? && (r.headers == map[] <==> Find(body, COLON).None?)
  {
    hide Parse, Find, RequestLine, Rendered, AddAll, Parts, HeaderOf, ColonFree;
    BodyReadAsHeaders(name, path, tail, body);
    var text := CRLF + body;
    var lines := Parts(text, '\n');
    NoHeaderLines(lines);
    forall k | 0 <= k < |lines| ensures HeaderOf(lines[k]).None? <==> ColonFree(lines[k]) {
      HeaderNeedsColon(lines[k]);
    }
    ColonInSomeLine(text);
    BreakAddsNoColon(body);
  }

  /** A body of header lines gives the very map these lines would give in their proper place. */
  lemma BodyBecomesHeaders(name: string, path: string, tail: string, headers: seq<Pair>)
    requires RequestLine(name, path, tail) && headers != [] && AllWellFormed(headers)
    requires |Rendered(name, path, tail, [], Lines(headers))| < 0x8000_0000_0000_0000
    ensures Parse(Rendered(name, path, tail, [], Lines(headers))) ==
            Request(name, path, Denoted(map[], headers), Lines(headers))
  {
    hide Parse, RequestLine, Rendered, Parts, HeaderOf, Lines, AllWellFormed, Denoted;
    BodyReadAsHeaders(name, path, tail, Lines(headers));
    assert CRLF + Lines(headers) == ['\r'] + ['\n'] + Lines(headers);
    PartsOfConcat(['\r'], Lines(headers), '\n');
    PartsOfFree(['\r'], '\n');
    LinesParsed(map[], headers);
    var parts := Parts(Lines(headers), '\n');
    assert ([['\r']] + parts)[0] == ['\r'] && ([['\r']] + parts)[1..] == parts;
    BareReturn();
  }

  lemma BareReturn()
    ensures HeaderOf(['\r']).None?
  {
  }

  /** The concrete failure: this request has no header line, and its body becomes one. */
  lemma BodyHeaderExample()
    ensures Parse("GET / HTTP/1.1" + BLANK + "a: b") == Request("GET", "/", map["a" := "b"], "a: b")
  {
    var h, tail := Pair("a", "b"), " HTTP/1.1";
    assert WellFormed(h);
    assert Line(h) == "a: b";
    assert RequestLine("GET", "/", tail);
    hide Parse, WellFormed, AllWellFormed, RequestLine, Lines, Denoted, Line;
    OneHeader(h);
    assert Rendered("GET", "/", tail, [], "a: b") == "GET / HTTP/1.1" + BLANK + "a: b";
    BodyBecomesHeaders("GET", "/", tail, [h]);
  }

  lemma BreakAddsNoColon(body: string)
    ensures ColonFree(CRLF + body) <==> Find(body, COLON).None?
  {
    var text := CRLF + body;
    FindMeansNone(body, COLON);
    if !ColonFree(text) {
      var i :| 0 <= i < |text| && COLON <= text[i..];
      assert text[i] == ':';
      assert text[i..] == body[i - 2..];
    }
    if Find(body, COLON).Some? {
      var i :| 0 <= i < |body| && COLON <= body[i..];
      assert text[i + 2..] == body[i..];
    }
  }

  ghost predicate ColonFree(t: string) {
    forall i :: 0 <= i < |t| ==> !(COLON <= t[i..])
  }

  lemma {:induction false} AddAllGrows(m: map<string, string>, lines: seq<string>)
    ensures m.Keys <= AddAll(m, lines).Keys
    decreases lines
  {
    if lines != [] {
      AddAllGrows(Add(m, lines[0]), lines[1..]);
    }
  }

  lemma {:induction false} NoHeaderLines(lines: seq<string>)
    ensures AddAll(map[], lines) == map[] <==> forall i :: 0 <= i < |lines| ==> HeaderOf(lines[i]).None?
  {
    hide HeaderOf;
    if lines != [] {
      AddAllGrows(Add(map[], lines[0]), lines[1..]);
      if HeaderOf(lines[0]).None? {
        NoHeaderLines(lines[1..]);
        assert forall i :: 0 <= i < |lines[1..]| ==> lines[1..][i] == lines[i + 1];
        if forall i :: 0 <= i < |lines[1..]| ==> HeaderOf(lines[1..][i]).None? {
          forall i | 0 <= i < |lines| ensures HeaderOf(lines[i]).None? {
            if i > 0 {
              assert lines[i] == lines[1..][i - 1];
            }
          }
        }
      } else {
        assert HeaderOf(lines[0]).value.key in Add(map[], lines[0]);
      }
    }
  }

  lemma HeaderNeedsColon(line: string)
    ensures HeaderOf(line).None? <==> ColonFree(line)
  {
    var text := Stripped(line);
    FindMeansNone(text, COLON);
    forall i | 0 <= i < |line| ensures COLON <= line[i..] <==> i < |text| && COLON <= text[i..] {
      if COLON <= line[i..] {
        assert line[i] == ':' && line[i + 1] == ' ';
        assert i + 1 < |text|;
      }
    }
  }

  lemma ColonFreeAppend(t: string, c: char)
    ensures ColonFree(t + [c]) <==> ColonFree(t) && !(t != [] && t[|t| - 1] == ':' && c == ' ')
  {
    var u, n := t + [c], |t| - 1;
    forall i | 0 <= i < n ensures COLON <= u[i..] <==> COLON <= t[i..] {
      assert u[i..][..2] == t[i..][..2];
    }
    assert u[|t|..] == [c];
    if t != [] {
      assert u[n..] == [t[n], c] && t[n..] == [t[n]];
    }
    if ColonFree(u) {
      forall i | 0 <= i < |t| ensures !(COLON <= t[i..]) {
        assert !(COLON <= u[i..]);
      }
    }
    if ColonFree(t) && !(t != [] && t[n] == ':' && c == ' ') {
      forall i | 0 <= i < |u| ensures !(COLON <= u[i..]) {
        if i < n {
          assert !(COLON <= t[i..]);
        } else if i == n {
          assert u[i..][0] == t[n] && u[i..][1] == c && COLON[0] == ':' && COLON[1] == ' ';
        } else {
          assert |u[i..]| == 1;
        }
      }
    }
    if t != [] && t[n] == ':' && c == ' ' {
      assert COLON <= u[n..];
    }
  }

  lemma LastPart(t: string)
    ensures var p := Parts(t, '\n');
            var last := p[|p| - 1];
            if t == [] || t[|t| - 1] == '\n' then last == [] else last != [] && last[|last| - 1] == t[|t| - 1]
  {
  }

  ghost predicate AllColonFree(lines: seq<string>) {
    forall k :: 0 <= k < |lines| ==> ColonFree(lines[k])
  }

  lemma AllColonFreeTake(p: seq<string>, c: char)
    requires p != []
    ensures AllColonFree(Take(p, c, '\n')) <==>
            AllColonFree(p) && (c != '\n' ==> ColonFree(p[|p| - 1] + [c]))
  {
    hide ColonFree;
    var q, n := Take(p, c, '\n'), |p| - 1;
    if c == '\n' {
      NothingIsColonFree();
      assert forall k :: 0 <= k < |p| ==> q[k] == p[k];
      assert q[|p|] == [];
    } else {
      assert forall k :: 0 <= k < n ==> q[k] == p[k];
      assert q[n] == p[n] + [c];
      ColonFreeAppend(p[n], c);
    }
  }

  lemma NothingIsColonFree()
    ensures ColonFree([])
  {
  }

  /** A colon and a space stand in the text exactly when they stand in one of its lines. */
  lemma {:induction false} ColonInSomeLine(t: string)
    ensures ColonFree(t) <==> AllColonFree(Parts(t, '\n'))
  {
    hide ColonFree, AllColonFree, Take;
    if t == [] {
      NothingIsColonFree();
      OneColonFree();
    } else {
      var init, c := t[..|t| - 1], t[|t| - 1];
      ColonInSomeLine(init);
      assert t == init + [c];
      ColonFreeAppend(init, c);
      var p := Parts(init, '\n');
      AllColonFreeTake(p, c);
      LastPart(init);
      ColonFreeAppend(p[|p| - 1], c);
      AllColonFreeHas(p, |p| - 1);
    }
  }

  lemma OneColonFree()
    ensures AllColonFree([[]])
  {
  }

  lemma AllColonFreeHas(p: seq<string>, k: nat)
    requires k < |p|
    ensures AllColonFree(p) ==> ColonFree(p[k])
  {
  }
}
