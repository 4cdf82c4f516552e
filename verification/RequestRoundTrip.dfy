/** Printing a well-formed request head and parsing it gives the request back. The grammar is
    that of sections 3, 3.2.2 and 5 of RFC 9112, for GET requests. */
module RequestRoundTrip {
  import opened Basics
  import opened CStrings
  import opened RequestSpec
  import opened RequestGrammar
  import opened RequestBodies
  import opened RequestReader

  datatype Target = OriginForm | AbsoluteForm(host: string)

  datatype Header = Header(name: string, blanks: string, value: string)

  datatype Request = Request(target: Target, url: string, headers: seq<Header>)

  ghost predicate WellFormedHeader(h: Header) {
    && h.name != "" && Plain(h.name) && Word(h.name) && ':' !in h.name
    && (forall i :: 0 <= i < |h.blanks| ==> Blank(h.blanks[i]))
    && Plain(h.value) && (h.value != "" ==> !Blank(h.value[0]))
  }

  ghost predicate WellFormed(r: Request) {
    && r.url != "" && r.url[0] == '/' && Plain(r.url) && Word(r.url)
    && (r.target.AbsoluteForm? ==> Plain(r.target.host) && Word(r.target.host) && '/' !in r.target.host)
    && forall h :: h in r.headers ==> WellFormedHeader(h)
  }

  predicate Connection(h: Header) { SameWord(h.name, "Connection") }
  predicate ContentLength(h: Header) { SameWord(h.name, "Content-Length") }
  predicate KeepAlive(h: Header) { Connection(h) && SameWord(h.value, "keep-alive") }

  /** The length that the last Content-Length field declares, or `base` if there is none. */
  function Declared(hs: seq<Header>, base: int): int
    decreases |hs|
  {
    if hs == [] then base else Declared(hs[1..], if ContentLength(hs[0]) then Atol(hs[0].value) else base)
  }

  // ---- the printer -------------------------------------------------------------------------

  function TargetText(r: Request): string {
    match r.target
    case OriginForm => r.url
    case AbsoluteForm(host) => "http://" + host + r.url
  }

  function RequestLineText(r: Request): string { "GET " + (TargetText(r) + " HTTP/1.1") }

  function HeaderText(h: Header): string { h.name + ":" + (h.blanks + h.value) }

  function HeaderLines(hs: seq<Header>): seq<string> {
    if hs == [] then [""] else [HeaderText(hs[0])] + HeaderLines(hs[1..])
  }

  function HeadLines(r: Request): seq<string> { [RequestLineText(r)] + HeaderLines(r.headers) }

  // ---- one line ----------------------------------------------------------------------------

  lemma PlainLine(line: string)
    requires Plain(line)
    ensures CString(line) == line && Clear(line, AtEol, 0, |line|)
  {
    assert forall k :: 0 <= k < |line| ==> line[k] in line;
    FindIs(line, AtNul, 0, |line|);
  }

  lemma PrintedLineIsFound(pre: string, line: string, post: string)
    requires Plain(line)
    ensures var s := pre + (line + CRLF + post);
            ScanLine(s, |pre|) == Line(|pre| + |line|) && s[|pre|..|pre| + |line|] == line
  {
    var s := pre + (line + CRLF + post);
    assert s[|pre|..|pre| + |line|] == line;
    assert forall k :: |pre| <= k < |pre| + |line| ==> s[k] == line[k - |pre|] && line[k - |pre|] in line;
    assert s[|pre| + |line|] == CR && s[|pre| + |line| + 1] == LF;
    FindIs(s, AtEol, |pre|, |pre| + |line|);
  }

  lemma SkipsBlanks(blanks: string, value: string)
    requires forall i :: 0 <= i < |blanks| ==> Blank(blanks[i])
    requires value != "" ==> !Blank(value[0])
    ensures SkipBlanks(blanks + value) == value
  {
    FindIs(blanks + value, AtNonBlank, 0, |blanks|);
  }

  /** A colon-free name is the field `key` exactly if the line starts with `key` and a colon. */
  lemma FieldName(name: string, rest: string, key: string)
    requires ':' !in name && ':' !in key
    ensures StartsText(name + ":" + rest, key + ":") <==> SameWord(name, key)
  {
    SameWordIs(name, key);
    var line := name + ":" + rest;
    var k := key + ":";
    assert line[|name|] == ':' && k[|key|] == ':';
    assert forall i :: 0 <= i < |name| ==> line[i] == name[i];
    assert forall i :: 0 <= i < |key| ==> k[i] == key[i];
    if StartsText(line, k) {
      assert forall i :: 0 <= i < |k| ==> Lower(line[..|k|][i]) == Lower(k[i]) && line[..|k|][i] == line[i];
      assert Lower(line[|key|]) == Lower(k[|key|]);
    }
    if SameText(name, key) {
      assert line[..|k|] == name + ":";
      assert SameText(name + ":", k);
    }
  }

  /** What a header field is there for. */
  function Effect(head: Head, h: Header): Head {
    if Connection(h) then (if KeepAlive(h) then head.(linger := true) else head)
    else if ContentLength(h) then head.(contentLength := Atol(h.value))
    else head
  }

  lemma HeaderTextIsPlain(h: Header)
    requires WellFormedHeader(h)
    ensures Plain(HeaderText(h)) && HeaderText(h) != []
  {
    assert forall i :: 0 <= i < |h.blanks| ==> !IsEol(h.blanks[i]) && h.blanks[i] != NUL;
  }

  /** A field is recognised by its name, and its value found behind the blanks. */
  lemma FieldIs(h: Header, key: string)
    requires WellFormedHeader(h) && ':' !in key
    ensures StartsText(HeaderText(h), key + ":") <==> SameWord(h.name, key)
    ensures SameWord(h.name, key) ==> |key| < |HeaderText(h)| && SkipBlanks(HeaderText(h)[|key| + 1..]) == h.value
  {
    var rest := h.blanks + h.value;
    FieldName(h.name, rest, key);
    assert HeaderText(h) == h.name + ":" + rest && HeaderText(h)[|h.name| + 1..] == rest;
    SkipsBlanks(h.blanks, h.value);
  }

  lemma HeaderTextStep(h: Header, head: Head)
    requires WellFormedHeader(h)
    ensures Plain(HeaderText(h))
    ensures HeaderStep(head, HeaderText(h)) == (Effect(head, h), NoRequest)
  {
    HeaderTextIsPlain(h);
    FieldIs(h, "Connection");
    FieldIs(h, "Content-Length");
    SameWordIs(h.value, "keep-alive");
    assert "Connection" + ":" == "Connection:" && "Content-Length" + ":" == "Content-Length:";
    hide WellFormedHeader, HeaderText, StartsText, SkipBlanks, Atol, Plain, SameText, SameWord;
  }

  lemma TargetIsTarget(r: Request)
    requires WellFormed(r)
    ensures Plain(TargetText(r)) && Word(TargetText(r)) && IsTarget(TargetText(r), r.url)
  {
  }

  lemma RequestLineTextIs(r: Request)
    requires WellFormed(r)
    ensures IsRequestLine(RequestLineText(r), "GET", ' ', TargetText(r), ' ', "HTTP/1.1", r.url)
  {
    TargetIsTarget(r);
    hide TargetText, IsTarget;
    var t := TargetText(r);
    assert "GET" + [' '] == "GET " && t + [' '] + "HTTP/1.1" == t + " HTTP/1.1";
  }

  lemma RequestLineIsPlain(r: Request)
    requires WellFormed(r)
    ensures Plain(RequestLineText(r))
  {
    TargetIsTarget(r);
    hide TargetText, IsTarget;
  }

  lemma RequestLineTextStep(r: Request)
    requires WellFormed(r)
    ensures RequestLineStep(FRESH_HEAD, RequestLineText(r)) ==
            (Head(Headers, Some(r.url), Some("HTTP/1.1"), false, 0), NoRequest)
  {
    RequestLineTextIs(r);
    hide *;
    RequestLineComplete(FRESH_HEAD, RequestLineText(r), "GET", ' ', TargetText(r), ' ', "HTTP/1.1", r.url);
  }

  // ---- the whole head ----------------------------------------------------------------------

  lemma PrintedLineStep(p: Parse, pre: string, line: string, post: string)
    requires !p.Stopped() && p.start == |pre| && Plain(line)
    ensures var s := pre + (line + CRLF + post);
            var (h, c) := if p.head.phase.RequestLine? then RequestLineStep(p.head, line) else HeaderStep(p.head, line);
            ParseFrom(p, s) == ParseFrom(Parse(h, p.lines + [line], |pre + line + CRLF|, c), s)
  {
    hide RequestLineStep, HeaderStep, Find;
    PrintedLineIsFound(pre, line, post);
    PlainLine(line);
    var s := pre + (line + CRLF + post);
    ParseStep(p, s, |pre| + |line|);
    hide ScanLine, CString, Plain, ParseFrom;
  }

  function AfterHeaders(head: Head, hs: seq<Header>): Head
    decreases |hs|
  {
    if hs == [] then head else AfterHeaders(Effect(head, hs[0]), hs[1..])
  }

  lemma NotBoth(h: Header)
    ensures !(Connection(h) && ContentLength(h))
  {
  }

  /** What the header fields leave in the head: the linger flag and the declared length. */
  lemma {:induction false} HeadersLeave(head: Head, hs: seq<Header>)
    ensures AfterHeaders(head, hs) ==
            head.(linger := head.linger || exists h :: h in hs && KeepAlive(h),
                  contentLength := Declared(hs, head.contentLength))
    decreases |hs|
  {
    if hs != [] {
      NotBoth(hs[0]);
      HeadersLeave(Effect(head, hs[0]), hs[1..]);
      assert hs == [hs[0]] + hs[1..];
      hide SameWord, Atol;
    }
  }

  /** The parse after the blank line: the request is complete, or its body is to come. */
  function AtBody(head: Head, lines: seq<string>, start: nat): Parse {
    if head.contentLength == 0 then Parse(head, lines, start, GetRequest)
    else Parse(head.(phase := Content), lines, start, NoRequest)
  }

  lemma BlankLineEnds(p: Parse, pre: string, post: string)
    requires p.code == NoRequest && p.head.phase.Headers? && p.start == |pre|
    ensures ParseFrom(p, pre + ("" + CRLF + post)) == AtBody(p.head, p.lines + [""], |pre| + 2)
  {
    PrintedLineStep(p, pre, "", post);
  }

  lemma {:induction false} HeadersParse(p: Parse, pre: string, hs: seq<Header>, post: string)
    requires p.code == NoRequest && p.head.phase.Headers? && p.start == |pre|
    requires forall h :: h in hs ==> WellFormedHeader(h)
    ensures ParseFrom(p, pre + (Print(HeaderLines(hs)) + post)) ==
            AtBody(AfterHeaders(p.head, hs), p.lines + HeaderLines(hs), |pre| + |Print(HeaderLines(hs))|)
    decreases |hs|
  {
    hide ParseFrom, HeaderStep, SameWord, Atol, WellFormedHeader, HeaderText, KeepAlive, Plain, AtBody;
    var lines := HeaderLines(hs);
    var line := lines[0];
    var rest := Print(lines[1..]) + post;
    assert Print(lines) + post == line + CRLF + rest;
    if hs == [] {
      assert Print(lines[1..]) == "" && rest == post;
      BlankLineEnds(p, pre, post);
    } else {
      assert hs[0] in hs && forall h :: h in hs[1..] ==> h in hs;
      HeaderTextStep(hs[0], p.head);
      PrintedLineStep(p, pre, line, rest);
      var pre' := pre + line + CRLF;
      var q := Parse(Effect(p.head, hs[0]), p.lines + [line], |pre'|, NoRequest);
      assert lines[1..] == HeaderLines(hs[1..]);
      assert pre + (line + CRLF + rest) == pre' + rest;
      HeadersParse(q, pre', hs[1..], post);
      assert q.lines + lines[1..] == p.lines + lines;
    }
  }

  /** The head that a request stands for. */
  ghost function HeadOf(r: Request): Head {
    Head(Headers, Some(r.url), Some("HTTP/1.1"), exists h :: h in r.headers && KeepAlive(h), Declared(r.headers, 0))
  }

  /** Print, then parse: exactly the printed url, the linger flag exactly if some Connection field
      says keep-alive, the declared length, and the complete-request verdict unless that length calls
      for a body; whatever follows the head in the stream. */
  lemma RoundTrip(r: Request, post: string)
    requires WellFormed(r)
    ensures ParseStream(Print(HeadLines(r)) + post) == AtBody(HeadOf(r), HeadLines(r), |Print(HeadLines(r))|)
  {
    var line := RequestLineText(r);
    var lines := HeaderLines(r.headers);
    HeadTextIs(r, post);
    hide ParseFrom, Print, HeaderLines, RequestLineText, KeepAlive, RequestLineStep, WellFormedHeader, Word;
    hide AfterHeaders;
    RequestLineTextStep(r);
    RequestLineIsPlain(r);
    hide Plain, AtBody;
    PrintedLineStep(FRESH_PARSE, "", line, Print(lines) + post);
    assert "" + line + CRLF == line + CRLF;
    var q := Parse(Head(Headers, Some(r.url), Some("HTTP/1.1"), false, 0), [] + [line], |line + CRLF|, NoRequest);
    HeadersParse(q, line + CRLF, r.headers, post);
    HeadersLeave(q.head, r.headers);
    assert q.lines + lines == HeadLines(r);
  }

  lemma HeadTextIs(r: Request, post: string)
    ensures var line := RequestLineText(r); var rest := Print(HeaderLines(r.headers)) + post;
            && Print(HeadLines(r)) + post == "" + (line + CRLF + rest) == line + CRLF + rest
            && |Print(HeadLines(r))| == |line + CRLF| + |Print(HeaderLines(r.headers))|
  {
  }

  /** The same through the connection object, for every way the printed bytes and a body of the
      declared length may arrive: url and linger flag are the printed ones, and the request is
      complete if and only if no arrival but the last has moved the count of the body's bytes, which
      without a body is always so. */
  method ServePrinted(conn: HttpConn, r: Request, body: string, arrivals: seq<string>) returns (code: Code)
    requires WellFormed(r) && |body| == Declared(r.headers, 0)
    requires Flatten(arrivals) == Print(HeadLines(r)) + body && |Flatten(arrivals)| < READ_BUFFER_SIZE
    requires forall c :: c in arrivals ==> c != ""
    requires conn.Valid() && conn.received == ""
    modifies conn, conn.readBuf
    ensures code == if body == "" || NeverMoved(|Print(HeadLines(r))|, "", arrivals) then GetRequest else NoRequest
    ensures Anchored(conn.bytes, conn.startLine, conn.url) && Text(conn.bytes, conn.url) == Some(r.url)
    ensures conn.linger <==> exists h :: h in r.headers && KeepAlive(h)
  {
    hide Find, ParseFrom, HeadLines, Print, KeepAlive, NeverMoved, ServeRounds, Text, Clip, UrlOffset, VersionOffset;
    RoundTrip(r, body);
    assert "" + Flatten(arrivals) == Flatten(arrivals);
    NothingParsed();
    if body != "" {
      BodyArrivesExactly("", arrivals);
      TerminatedExactly(Flatten(arrivals));
    }
    code := conn.Serve(arrivals);
  }

  // ---- negative lengths --------------------------------------------------------------------

  /** Where the url stands in the printed request. */
  function UrlAt(r: Request): int { 4 + |TargetText(r)| - |r.url| }

  lemma UrlOffsetIs(t: string, verb: string, b1: char, target: string, b2: char, version: string, url: string)
    requires IsRequestLine(t, verb, b1, target, b2, version, url)
    ensures UrlOffset(t) == |verb| + 1 + |target| - |url|
  {
    var rest := target + [b2] + version;
    assert t[|verb|] == b1 && t[|verb| + 1..] == rest;
    assert forall i :: 0 <= i < |verb| ==> t[i] == verb[i] && verb[i] in verb;
    FindIs(t, AtBlank, 0, |verb|);
    assert rest[..|target|] == target && rest[|target|] == b2;
    assert forall i :: 0 <= i < |target| ==> rest[i] == target[i] && target[i] in target;
    FindIs(rest, AtBlank, 0, |target|);
    PathOffsetOf(target, url);
    hide PathOffset, IsTarget, Find;
  }

  lemma PathOffsetOf(target: string, url: string)
    requires IsTarget(target, url)
    ensures PathOffset(target) == |target| - |url|
  {
    StartsWithIs(target, "http://");
    if StartsText(target, "http://") {
      var n := |target| - |url|;
      assert target[n] == target[n..][0] == '/';
      assert forall i :: 7 <= i < n ==> target[i] == target[7..n][i - 7];
      FindIs(target, AtSlash, 7, n);
    }
  }

  lemma PrintedUrlOffset(r: Request)
    requires WellFormed(r)
    ensures HeadLines(r) != [] && UrlOffset(CString(HeadLines(r)[0])) == UrlAt(r)
  {
    RequestLineTextIs(r);
    RequestLineIsPlain(r);
    PlainLine(RequestLineText(r));
    hide IsRequestLine, UrlOffset, WellFormed, Plain, TargetText;
    UrlOffsetIs(RequestLineText(r), "GET", ' ', TargetText(r), ' ', "HTTP/1.1", r.url);
  }

  /** A request that declares a negative length, for every way it may arrive with whatever follows it:
      it is complete at once, and its url is the printed one, cut off where the terminator falls into
      it if it does. */
  method ServeNegative(conn: HttpConn, r: Request, post: string, arrivals: seq<string>) returns (code: Code)
    requires WellFormed(r) && Declared(r.headers, 0) < 0
    requires Flatten(arrivals) == Print(HeadLines(r)) + post && |Flatten(arrivals)| < READ_BUFFER_SIZE
    requires forall c :: c in arrivals ==> c != ""
    requires conn.Valid() && conn.received == ""
    modifies conn, conn.readBuf
    ensures code == GetRequest
    ensures var k := |Print(HeadLines(r))| + Declared(r.headers, 0);
            && conn.readBuf[..] == conn.bytes && Anchored(conn.bytes, conn.startLine, conn.url)
            && Text(conn.bytes, conn.url) ==
               Some(if UrlAt(r) <= k < UrlAt(r) + |r.url| then r.url[..k - UrlAt(r)] else r.url)
    ensures conn.linger <==> exists h :: h in r.headers && KeepAlive(h)
  {
    hide Find, ParseFrom, HeadLines, Print, KeepAlive, ServeRounds, Text, UrlOffset, VersionOffset, UrlAt, CString;
    RoundTrip(r, post);
    PrintedUrlOffset(r);
    assert "" + Flatten(arrivals) == Flatten(arrivals);
    NothingParsed();
    NegativeCompletes("", arrivals);
    code := conn.Serve(arrivals);
  }

  // ---- witnesses ---------------------------------------------------------------------------

  /** A request whose only header declares a length. */
  function LengthRequest(url: string, value: string): Request {
    Request(OriginForm, url, [Header("Content-Length", " ", value)])
  }

  lemma NameIsWord(name: string)
    requires name == "Content-Length"
    ensures Plain(name) && Word(name) && ':' !in name
  {
  }

  lemma LengthFieldIsWellFormed(h: Header, value: string)
    requires h == Header("Content-Length", " ", value)
    requires Plain(value) && value != "" && !Blank(value[0])
    ensures WellFormedHeader(h)
  {
    NameIsWord(h.name);
    assert |h.name| == 14;
  }

  lemma LengthRequestIsWellFormed(url: string, value: string)
    requires url != "" && url[0] == '/' && Plain(url) && Word(url)
    requires Plain(value) && value != "" && !Blank(value[0])
    ensures WellFormed(LengthRequest(url, value))
  {
    var r := LengthRequest(url, value);
    LengthFieldIsWellFormed(r.headers[0], value);
    hide WellFormedHeader;
    assert forall k :: k in r.headers ==> k == r.headers[0];
  }

  lemma LengthRequestDeclares(url: string, value: string)
    ensures Declared(LengthRequest(url, value).headers, 0) == Atol(value)
  {
    var hs := LengthRequest(url, value).headers;
    assert SameWord("Content-Length", "Content-Length");
    hide Atol, SameWord;
    assert hs[1..] == [] && hs[0] == Header("Content-Length", " ", value);
    assert Declared(hs, 0) == Declared([], Atol(value));
  }

  lemma LengthRequestSize(url: string, value: string)
    ensures |Print(HeadLines(LengthRequest(url, value)))| == |url| + |value| + 35
  {
    var r := LengthRequest(url, value);
    var line, field := RequestLineText(r), HeaderText(Header("Content-Length", " ", value));
    assert |line| == |url| + 13 && |field| == |value| + 16;
    hide RequestLineText, HeaderText;
    assert HeaderLines(r.headers) == [field, ""] by { assert r.headers[1..] == []; }
    PrintSnoc([line, field], "");
    PrintSnoc([line], field);
    PrintSnoc([], line);
    assert [] + [line] == [line] && [line] + [field] == [line, field];
    assert HeadLines(r) == [line, field] + [""];
  }

  lemma OneArrivalOrTwo(head: string)
    ensures NeverMoved(|head|, "", [head + "ab"]) && !NeverMoved(|head|, "", [head + "a", "b"])
  {
    assert ("" + (head + "a"))[|head|] == 'a';
    assert !Unmoved("" + (head + "a"), |head|);
  }

  lemma SmallNumbers()
    ensures Atol("2") == 2 && Atol("-36") == -36
  {
    assert DigitsValue("2"[1..], 2) == 2;
    assert "-36"[1..] == "36" && "36"[1..] == "6" && "6"[1..] == "";
    assert DigitsValue("6", 3) == DigitsValue("", 36) == 36;
    assert DigitsValue("36", 0) == DigitsValue("6", 3);
  }

  /** Bodies, unlike heads, depend on how the bytes are cut: the whole request in one arrival is
      complete, and the same bytes with the last one in an arrival of its own are not. */
  method BodyDependsOnChunks() returns (whole: Code, cut: Code)
    ensures whole == GetRequest && cut == NoRequest
  {
    LengthRequestIsWellFormed("/", "2");
    LengthRequestDeclares("/", "2");
    LengthRequestSize("/", "2");
    SmallNumbers();
    hide *;
    whole, cut := ServeBothWays(LengthRequest("/", "2"));
  }

  method ServeBothWays(r: Request) returns (whole: Code, cut: Code)
    requires WellFormed(r) && Declared(r.headers, 0) == 2 && |Print(HeadLines(r))| <= 100
    ensures whole == GetRequest && cut == NoRequest
  {
    var head := Print(HeadLines(r));
    assert |head + "ab"| < READ_BUFFER_SIZE;
    hide *;
    OneArrivalOrTwo(head);
    FlattenOne(head + "ab");
    var one := new HttpConn();
    whole := ServePrinted(one, r, "ab", [head + "ab"]);
    FlattenTwo(head + "a", "b");
    assert head + "a" + "b" == head + "ab";
    var two := new HttpConn();
    cut := ServePrinted(two, r, "ab", [head + "a", "b"]);
  }

  /** A request of 42 bytes for "/abc" that declares a length of -36: the terminator falls on the
      seventh byte, and what is served is "/a". */
  method NegativeLengthCutsUrl() returns (code: Code, url: string)
    ensures code == GetRequest && url == "/a"
  {
    LengthRequestIsWellFormed("/abc", "-36");
    LengthRequestDeclares("/abc", "-36");
    LengthRequestSize("/abc", "-36");
    SmallNumbers();
    assert UrlAt(LengthRequest("/abc", "-36")) == 4;
    hide WellFormed, Declared, UrlAt, Print, HeadLines, Atol;
    code, url := ServeUrl(LengthRequest("/abc", "-36"));
    assert url == "/abc"[..2];
  }

  method ServeUrl(r: Request) returns (code: Code, url: string)
    requires WellFormed(r) && Declared(r.headers, 0) < 0 && |Print(HeadLines(r))| < READ_BUFFER_SIZE
    ensures code == GetRequest
    ensures var k := |Print(HeadLines(r))| + Declared(r.headers, 0);
            url == if UrlAt(r) <= k < UrlAt(r) + |r.url| then r.url[..k - UrlAt(r)] else r.url
  {
    hide Find, ParseFrom, HeadLines, Print, KeepAlive, WellFormed, Declared, UrlAt, CStringAt;
    var head := Print(HeadLines(r));
    assert head + "" == head && |head| > 0 by { HeadIsThere(r); }
    FlattenOne(head);
    var conn := new HttpConn();
    code := ServeNegative(conn, r, "", [head]);
    url := CStringAt(conn.readBuf[..], conn.url.value);
  }

  lemma HeadIsThere(r: Request)
    ensures Print(HeadLines(r)) != ""
  {
  }
}
