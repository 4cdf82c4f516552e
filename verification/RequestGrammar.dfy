/** The form of a request line, after section 3 of RFC 9112, in terms of the bytes alone, and what the
    parser's verdicts say about it. */
module RequestGrammar {
  import opened Basics
  import opened CStrings
  import opened RequestSpec

  predicate Blank(c: char) { c == ' ' || c == '\t' }

  /** Free of line breaks and NUL. */
  ghost predicate Plain(s: string) { forall c :: c in s ==> c != '\r' && c != '\n' && c != '\0' }

  /** Free of blanks. */
  ghost predicate Word(s: string) { forall c :: c in s ==> !Blank(c) }

  /** The same letter in either case, or the same character. */
  predicate SameLetter(a: char, b: char) {
    || a == b
    || ('a' <= a <= 'z' && b as int == a as int - 32)
    || ('a' <= b <= 'z' && a as int == b as int - 32)
  }

  predicate SameWord(a: string, b: string) {
    |a| == |b| && forall i :: 0 <= i < |a| ==> SameLetter(a[i], b[i])
  }

  predicate StartsWith(s: string, prefix: string) {
    |prefix| <= |s| && SameWord(s[..|prefix|], prefix)
  }

  /** An absolute-form target hides the path behind scheme and host. */
  ghost predicate IsTarget(target: string, url: string) {
    && url != "" && url[0] == '/'
    && if StartsWith(target, "http://")
       then 7 <= |target| - |url| && target[|target| - |url|..] == url && '/' !in target[7..|target| - |url|]
       else target == url
  }

  /** Method, blank, target, blank, version. */
  ghost predicate IsRequestLine(
    t: string, verb: string, b1: char, target: string, b2: char, version: string, url: string)
  {
    && t == verb + [b1] + (target + [b2] + version)
    && Word(verb) && Blank(b1) && Word(target) && Blank(b2)
    && SameWord(verb, "GET") && SameWord(version, "HTTP/1.1") && IsTarget(target, url)
  }

  ghost predicate HasForm(t: string) {
    exists verb, b1, target, b2, version, url :: IsRequestLine(t, verb, b1, target, b2, version, url)
  }

  // ---- one line ------------------------------------------------------------------------------

  /** strcasecmp tells words apart exactly by their letters, in either case. */
  lemma SameWordIs(a: string, b: string)
    ensures SameText(a, b) <==> SameWord(a, b)
  {
    assert forall i :: 0 <= i < |a| && i < |b| ==> (Lower(a[i]) == Lower(b[i]) <==> SameLetter(a[i], b[i]));
  }

  lemma StartsWithIs(s: string, prefix: string)
    ensures StartsText(s, prefix) <==> StartsWith(s, prefix)
  {
    if |prefix| <= |s| {
      SameWordIs(s[..|prefix|], prefix);
    }
  }

  lemma PathExact(h: Head, target: string, url: string)
    ensures PathStep(h.(url := Some(target)), target) == (h.(url := Some(url), phase := Headers), NoRequest) <==>
            IsTarget(target, url)
  {
    StartsWithIs(target, "http://");
    hide StartsText, StartsWith;
    if StartsText(target, "http://") {
      assert 7 <= |target| by { StartsLong(target, "http://"); }
      var k := Find(target, AtSlash, 7);
      FindSpec(target, AtSlash, 7);
      if k < |target| {
        assert '/' !in target[7..k];
      }
      if IsTarget(target, url) {
        var n := |target| - |url|;
        assert target[n] == target[n..][0] == '/';
        assert forall i :: 7 <= i < n ==> target[i] == target[7..n][i - 7];
        FindIs(target, AtSlash, 7, n);
      }
    }
  }

  lemma StartsLong(s: string, prefix: string)
    requires StartsText(s, prefix)
    ensures |prefix| <= |s|
  {
  }

  /** Whatever has the form of a request line is accepted, with exactly its path as the url. */
  lemma RequestLineComplete(
    h: Head, t: string, verb: string, b1: char, target: string, b2: char, version: string, url: string)
    requires IsRequestLine(t, verb, b1, target, b2, version, url)
    ensures RequestLineStep(h, t) == (h.(url := Some(url), version := Some(version), phase := Headers), NoRequest)
  {
    SameWordIs(verb, "GET");
    SameWordIs(version, "HTTP/1.1");
    PathExact(h.(version := Some(version)), target, url);
    hide SameText, SameWord, PathStep, IsTarget;
    var rest := target + [b2] + version;
    assert t[..|verb|] == verb && t[|verb|] == b1 && t[|verb| + 1..] == rest;
    assert forall i :: 0 <= i < |verb| ==> t[i] == verb[i] && verb[i] in verb;
    FindIs(t, AtBlank, 0, |verb|);
    assert rest[..|target|] == target && rest[|target|] == b2 && rest[|target| + 1..] == version;
    assert forall i :: 0 <= i < |target| ==> rest[i] == target[i] && target[i] in target;
    FindIs(rest, AtBlank, 0, |target|);
    hide Find;
    var h1 := h.(url := Some(rest));
    assert TargetStep(h1, rest) == PathStep(h1.(url := Some(target), version := Some(version)), target);
    assert h1.(url := Some(target), version := Some(version)) == h.(version := Some(version)).(url := Some(target));
  }

  /** And nothing else is: an accepted line has the form, and the url is its path. */
  lemma RequestLineSound(h: Head, t: string) returns (verb: string, b1: char, target: string, b2: char, version: string)
    requires RequestLineStep(h, t).1 == NoRequest
    ensures RequestLineStep(h, t).0.url.Some?
    ensures IsRequestLine(t, verb, b1, target, b2, version, RequestLineStep(h, t).0.url.value)
  {
    var i := Find(t, AtBlank, 0);
    FindSpec(t, AtBlank, 0);
    verb, b1 := t[..i], t[i];
    var rest := t[i + 1..];
    var j := Find(rest, AtBlank, 0);
    FindSpec(rest, AtBlank, 0);
    target, b2, version := rest[..j], rest[j], rest[j + 1..];
    SameWordIs(verb, "GET");
    SameWordIs(version, "HTTP/1.1");
    hide SameWord, SameText, IsTarget, Find;
    assert rest == target + [b2] + version;
    var h1 := h.(url := Some(rest), version := Some(version));
    var r := PathStep(h1.(url := Some(target)), target);
    assert RequestLineStep(h, t) == r;
    var url := r.0.url.value;
    assert r == (h1.(url := Some(url), phase := Headers), NoRequest);
    PathExact(h1, target, url);
  }

  /** Exactly the lines of that form are accepted; any other is a bad request. */
  lemma RequestLineVerdict(h: Head, t: string)
    ensures RequestLineStep(h, t).1 == if HasForm(t) then NoRequest else BadRequest
    ensures HasForm(t) ==> RequestLineStep(h, t).0.phase.Headers?
    ensures HasForm(t) ==> RequestLineStep(h, t).0.contentLength == h.contentLength
    ensures !HasForm(t) ==> RequestLineStep(h, t).0.phase == h.phase
  {
    if RequestLineStep(h, t).1 == NoRequest {
      var verb, b1, target, b2, version := RequestLineSound(h, t);
      hide IsRequestLine;
      assert HasForm(t);
    }
    if HasForm(t) {
      var verb, b1, target, b2, version, url :| IsRequestLine(t, verb, b1, target, b2, version, url);
      RequestLineComplete(h, t, verb, b1, target, b2, version, url);
    }
  }

  // ---- whole streams -------------------------------------------------------------------------

  /** A line that declares a length, and the length that the last such line declares. */
  predicate DeclaresLength(line: string) { StartsWith(CString(line), "Content-Length:") }

  function LengthOf(lines: seq<string>): int {
    if lines == [] then 0
    else
      var last := lines[|lines| - 1];
      if DeclaresLength(last) then Atol(SkipBlanks(CString(last)[15..])) else LengthOf(lines[..|lines| - 1])
  }

  predicate BlankLine(line: string) { CString(line) == "" }

  /** A request line, header lines, and the blank line that ends them. */
  ghost predicate IsHead(lines: seq<string>) {
    && |lines| >= 2 && HasForm(CString(lines[0])) && BlankLine(lines[|lines| - 1])
    && forall i :: 0 < i < |lines| - 1 ==> !BlankLine(lines[i])
  }

  /** What the lines handed over so far have come to. */
  ghost predicate Judged(p: Parse) {
    match p.head.phase
    case RequestLine =>
      if p.code == NoRequest then p.lines == [] && p.head.contentLength == 0
      else p.code == BadRequest && |p.lines| == 1 && !HasForm(CString(p.lines[0]))
    case Headers =>
      && p.lines != [] && HasForm(CString(p.lines[0])) && p.head.contentLength == LengthOf(p.lines[1..])
      && if p.code == NoRequest then forall i :: 0 < i < |p.lines| ==> !BlankLine(p.lines[i])
         else p.code == GetRequest && IsHead(p.lines) && p.head.contentLength == 0
    case Content =>
      p.code == NoRequest && IsHead(p.lines) && p.head.contentLength == LengthOf(p.lines[1..]) != 0
  }

  lemma HeaderVerdict(h: Head, line: string)
    ensures BlankLine(line) ==> !DeclaresLength(line)
    ensures var (h', code) := HeaderStep(h, CString(line));
            && h'.contentLength == (if DeclaresLength(line) then Atol(SkipBlanks(CString(line)[15..]))
                                    else h.contentLength)
            && if !BlankLine(line) then code == NoRequest && h'.phase == h.phase
               else if h.contentLength == 0 then code == GetRequest && h'.phase == h.phase
               else code == NoRequest && h'.phase.Content?
  {
    var t := CString(line);
    StartsWithIs(t, "Content-Length:");
    OneField(t);
    hide StartsText, StartsWith, SameText, SkipBlanks, Atol;
  }

  lemma OneField(t: string)
    ensures !(StartsText(t, "Content-Length:") && StartsText(t, "Connection:"))
    ensures StartsText(t, "Content-Length:") ==> |t| >= 15
  {
    assert StartsText(t, "Content-Length:") ==> Lower(t[..15][3]) == Lower("Content-Length:"[3]);
    assert StartsText(t, "Connection:") ==> Lower(t[..11][3]) == Lower("Connection:"[3]);
  }

  lemma LineJudged(p: Parse, s: string, e: nat)
    requires Judged(p) && !p.Stopped() && p.start <= e && e + 2 <= |s|
    ensures Judged(Advance(p, s, e))
  {
    if p.head.phase.RequestLine? {
      FirstLineJudged(p, s, e);
    } else {
      FieldJudged(p, s, e);
    }
  }

  lemma FirstLineJudged(p: Parse, s: string, e: nat)
    requires Judged(p) && !p.Stopped() && p.start <= e && e + 2 <= |s| && p.head.phase.RequestLine?
    ensures Judged(Advance(p, s, e))
  {
    hide RequestLineStep, HasForm;
    var line := s[p.start..e];
    RequestLineVerdict(p.head, CString(line));
    hide CString;
    assert p.lines + [line] == [line] && [line][1..] == [];
  }

  lemma FieldJudged(p: Parse, s: string, e: nat)
    requires Judged(p) && !p.Stopped() && p.start <= e && e + 2 <= |s| && p.head.phase.Headers?
    ensures Judged(Advance(p, s, e))
  {
    hide HeaderStep, HasForm, DeclaresLength, BlankLine;
    var line := s[p.start..e];
    HeaderVerdict(p.head, line);
    LengthOfSnoc(p.lines[1..], line);
    hide LengthOf, CString, Atol, SkipBlanks;
    var lines := p.lines + [line];
    assert lines[1..] == p.lines[1..] + [line] && lines[|lines| - 1] == line;
    assert forall i :: 0 <= i < |p.lines| ==> lines[i] == p.lines[i];
    var q := Advance(p, s, e);
    assert q.lines == lines && (q.head, q.code) == HeaderStep(p.head, CString(line));
  }

  lemma LengthOfSnoc(lines: seq<string>, line: string)
    ensures LengthOf(lines + [line]) ==
            if DeclaresLength(line) then Atol(SkipBlanks(CString(line)[15..])) else LengthOf(lines)
  {
    assert (lines + [line])[..|lines|] == lines;
  }

  lemma {:induction false} ParseJudged(p: Parse, s: string)
    requires p.start <= |s| && Judged(p)
    ensures Judged(ParseFrom(p, s))
    decreases |s| - p.start
  {
    if !p.Stopped() {
      var scan := ScanLine(s, p.start);
      if scan.Line? {
        LineJudged(p, s, scan.end);
        hide Judged, HandleLine;
        ParseJudged(Advance(p, s, scan.end), s);
      }
    }
  }

  /** Exactly what the parser's verdicts mean, for every stream, in terms of the lines it has cut off.
      A bad request is a first line that does not have the form of a request line. A complete one is a
      head whose last length, if there is one, is zero; and a body is to come exactly after a head
      that declares another length. */
  lemma VerdictExactly(s: string)
    ensures var p := ParseStream(s);
            && (p.code == BadRequest <==> p.lines != [] && !HasForm(CString(p.lines[0])))
            && (p.code == GetRequest <==> IsHead(p.lines) && LengthOf(p.lines[1..]) == 0)
            && (p.head.phase.Content? <==> IsHead(p.lines) && LengthOf(p.lines[1..]) != 0)
            && (p.head.phase.Content? ==> p.code == NoRequest)
  {
    ParseJudged(FRESH_PARSE, s);
    hide HasForm, LengthOf, BlankLine, ParseFrom;
  }
}
