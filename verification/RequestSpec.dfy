/** What the incremental request parser computes, as a function of the bytes received so far:
    cut the stream at CR LF, hand every line to the main state machine, stop at the first verdict.
    Nothing here knows about buffers, indices that survive between rounds, or in-place rewriting. */
module RequestSpec {
  import opened Basics
  import opened CStrings

  datatype Phase = RequestLine | Headers | Content
  datatype Code = NoRequest | GetRequest | BadRequest

  datatype Head = Head(phase: Phase, url: Option<string>, version: Option<string>, linger: bool, contentLength: int)

  const FRESH_HEAD: Head := Head(RequestLine, None, None, false, 0)

  // ---- the line splitter -------------------------------------------------------------------

  /** `Line(e)`: the line's text stops at `e`, where CR LF stands. `Open(e)` and `Bad(e)`: the
      scan stops at `e`, at the end of the data (or at a final CR), or at a stray CR or LF. */
  datatype LineScan = Line(end: nat) | Open(end: nat) | Bad(end: nat)

  function ScanLine(s: string, i: nat): (r: LineScan)
    requires i <= |s|
    ensures i <= r.end <= |s|
    ensures r.Line? ==> r.end + 2 <= |s| && s[r.end] == CR && s[r.end + 1] == LF
  {
    var e := Find(s, AtEol, i);
    if e == |s| then Open(e)
    else if s[e] == LF then Bad(e)
    else if e + 1 == |s| then Open(e)
    else if s[e] == CR && s[e + 1] == LF then Line(e)
    else Bad(e)
  }

  /** The scan, exactly: up to its end there is no line break; there, a line has CR LF, an open one
      the end of the data or a final CR, and a bad one an LF, or a CR with something else behind. */
  lemma ScanExactly(s: string, i: nat)
    requires i <= |s|
    ensures forall k :: i <= k < ScanLine(s, i).end ==> s[k] != '\r' && s[k] != '\n'
    ensures match ScanLine(s, i)
            case Line(e) => e + 1 < |s| && s[e] == '\r' && s[e + 1] == '\n'
            case Open(e) => e == |s| || (e + 1 == |s| && s[e] == '\r')
            case Bad(e) => e < |s| && (s[e] == '\n' || (s[e] == '\r' && e + 1 < |s| && s[e + 1] != '\n'))
  {
    FindSpec(s, AtEol, i);
  }

  /** Resuming anywhere inside the already scanned, line-break-free part changes nothing. */
  lemma ScanResumes(s: string, i: nat, j: nat)
    requires Clear(s, AtEol, i, j)
    ensures ScanLine(s, i) == ScanLine(s, j)
  {
    FindSpec(s, AtEol, j);
    FindIs(s, AtEol, i, Find(s, AtEol, j));
  }

  /** More data completes an open line; it never changes a finished line or repairs a bad one. */
  lemma ScanExtends(s: string, t: string, i: nat)
    requires i <= |s|
    ensures !ScanLine(s, i).Open? ==> ScanLine(s + t, i) == ScanLine(s, i)
    ensures ScanLine(s, i).end <= ScanLine(s + t, i).end
  {
    var e := ScanLine(s, i).end;
    FindSpec(s, AtEol, i);
    if e < |s| {
      FindIs(s + t, AtEol, i, e);
    } else {
      ScanResumes(s + t, i, e);
    }
  }

  // ---- the main state machine --------------------------------------------------------------

  function RequestLineStep(h: Head, t: string): (Head, Code)
  {
    var i := Find(t, AtBlank, 0);
    if i == |t| then (h.(url := None), BadRequest) else
    var rest := t[i + 1..];
    if !SameText(t[..i], "GET") then (h.(url := Some(rest)), BadRequest) else
    TargetStep(h.(url := Some(rest)), rest)
  }

  /** The part of the request line behind the method: target, blank, version. */
  function TargetStep(h: Head, rest: string): (Head, Code)
  {
    var j := Find(rest, AtBlank, 0);
    if j == |rest| then (h.(version := None), BadRequest) else
    var h1 := h.(url := Some(rest[..j]), version := Some(rest[j + 1..]));
    if !SameText(rest[j + 1..], "HTTP/1.1") then (h1, BadRequest) else PathStep(h1, rest[..j])
  }

  /** Scheme and host of an absolute-form target are dropped; what is left must be a path. */
  function PathStep(h: Head, target: string): (Head, Code) {
    var h2 := if StartsText(target, "http://") then h.(url := FromSlash(target, 7)) else h;
    if h2.url == None || h2.url.value == [] || h2.url.value[0] != '/' then (h2, BadRequest)
    else (h2.(phase := Headers), NoRequest)
  }

  /** strchr(s + i, '/') */
  function FromSlash(s: string, i: nat): Option<string>
    requires i <= |s|
  {
    var k := Find(s, AtSlash, i);
    if k == |s| then None else Some(s[k..])
  }

  function HeaderStep(h: Head, t: string): (Head, Code)
  {
    if t == [] then
      if h.contentLength != 0 then (h.(phase := Content), NoRequest) else (h, GetRequest)
    else if StartsText(t, "Connection:") then
      (if SameText(SkipBlanks(t[11..]), "keep-alive") then h.(linger := true) else h, NoRequest)
    else if StartsText(t, "Content-Length:") then
      (h.(contentLength := Atol(SkipBlanks(t[15..]))), NoRequest)
    else (h, NoRequest)
  }

  function HandleLine(h: Head, line: string): (Head, Code)
    requires !h.phase.Content?
  {
    if h.phase.RequestLine? then RequestLineStep(h, CString(line)) else HeaderStep(h, CString(line))
  }

  // ---- the whole head ----------------------------------------------------------------------

  /** `start` is the first byte not yet handed to the main state machine, `lines` what was. */
  datatype Parse = Parse(head: Head, lines: seq<string>, start: nat, code: Code) {
    predicate Stopped() { code != NoRequest || head.phase.Content? }
  }

  const FRESH_PARSE: Parse := Parse(FRESH_HEAD, [], 0, NoRequest)

  function Advance(p: Parse, s: string, e: nat): Parse
    requires !p.Stopped() && p.start <= e && e + 2 <= |s|
  {
    var line := s[p.start..e];
    var (h, c) := HandleLine(p.head, line);
    Parse(h, p.lines + [line], e + 2, c)
  }

  function ParseFrom(p: Parse, s: string): (q: Parse)
    requires p.start <= |s|
    ensures p.start <= q.start <= |s|
    decreases |s| - p.start
  {
    if p.Stopped() then p else
    match ScanLine(s, p.start)
    case Line(e) => ParseFrom(Advance(p, s, e), s)
    case _ => p
  }

  function ParseStream(s: string): (q: Parse)
    ensures q.start <= |s|
  {
    ParseFrom(FRESH_PARSE, s)
  }

  lemma ParseStep(p: Parse, s: string, e: nat)
    requires p.start <= |s| && !p.Stopped() && ScanLine(s, p.start) == Line(e)
    ensures ParseFrom(p, s) == ParseFrom(Advance(p, s, e), s)
  {
  }

  /** Parsing a prefix and carrying on when more has arrived is parsing everything at once. */
  lemma {:induction false} ParseExtends(p: Parse, s: string, t: string)
    requires p.start <= |s|
    ensures ParseFrom(p, s + t) == ParseFrom(ParseFrom(p, s), s + t)
    decreases |s| - p.start
  {
    if !p.Stopped() {
      var scan := ScanLine(s, p.start);
      if scan.Line? {
        ScanExtends(s, t, p.start);
        assert s[p.start..scan.end] == (s + t)[p.start..scan.end];
        ParseExtends(Advance(p, s, scan.end), s, t);
      }
    }
  }

  lemma NothingParsed()
    ensures ParseStream("") == FRESH_PARSE
  {
  }

  /** What has stopped the parser on a prefix is its verdict on the whole stream. */
  lemma StoppedStays(s: string, t: string)
    ensures ParseStream(s).Stopped() ==> ParseStream(s + t) == ParseStream(s)
  {
    ParseExtends(FRESH_PARSE, s, t);
  }

  /** One parsing round per arrival, each seeing everything received so far. */
  function ParseRounds(p: Parse, s: string, chunks: seq<string>): Parse
    requires p.start <= |s|
    decreases |chunks|
  {
    if chunks == [] then p else ParseRounds(ParseFrom(p, s + chunks[0]), s + chunks[0], chunks[1..])
  }

  lemma {:induction false} RoundsResume(s: string, chunks: seq<string>)
    ensures ParseRounds(ParseStream(s), s, chunks) == ParseStream(s + Flatten(chunks))
    decreases |chunks|
  {
    hide ParseFrom;
    if chunks == [] {
      assert s + Flatten(chunks) == s;
    } else {
      ParseExtends(FRESH_PARSE, s, chunks[0]);
      assert ParseFrom(ParseStream(s), s + chunks[0]) == ParseStream(s + chunks[0]);
      RoundsResume(s + chunks[0], chunks[1..]);
      assert s + chunks[0] + Flatten(chunks[1..]) == s + Flatten(chunks);
    }
  }

  /** Chunk independence: lines, url, version, linger and first verdict only depend on the bytes. */
  lemma ChunkIndependence(chunks: seq<string>)
    ensures ParseRounds(FRESH_PARSE, "", chunks) == ParseStream(Flatten(chunks))
  {
    NothingParsed();
    RoundsResume("", chunks);
    assert "" + Flatten(chunks) == Flatten(chunks);
  }

  /** A stray CR or LF is final: no continuation of the stream ever reaches a verdict. */
  lemma BadLineIsFinal(s: string, t: string)
    requires !ParseStream(s).Stopped() && ScanLine(s, ParseStream(s).start).Bad?
    ensures ParseStream(s + t) == ParseStream(s)
    ensures ScanLine(s + t, ParseStream(s).start) == ScanLine(s, ParseStream(s).start)
  {
    ParseExtends(FRESH_PARSE, s, t);
    ScanExtends(s, t, ParseStream(s).start);
  }

  function Print(lines: seq<string>): string {
    if lines == [] then "" else lines[0] + CRLF + Print(lines[1..])
  }

  lemma {:induction false} PrintSnoc(lines: seq<string>, line: string)
    ensures Print(lines + [line]) == Print(lines) + line + CRLF
  {
    if lines == [] {
      assert lines + [line] == [line];
      assert Print([line]) == line + CRLF + Print([]);
    } else {
      PrintSnoc(lines[1..], line);
      assert (lines + [line])[1..] == lines[1..] + [line];
      assert lines[0] + CRLF + (Print(lines[1..]) + line + CRLF) == (lines[0] + CRLF + Print(lines[1..])) + line + CRLF;
    }
  }

  /** The lines handed to the state machine, each with its CR LF, are exactly the consumed bytes. */
  lemma {:induction false} FramingIsExact(p: Parse, s: string)
    requires p.start <= |s| && Print(p.lines) == s[..p.start]
    ensures Print(ParseFrom(p, s).lines) == s[..ParseFrom(p, s).start]
    decreases |s| - p.start
  {
    hide HandleLine;
    if !p.Stopped() {
      var scan := ScanLine(s, p.start);
      if scan.Line? {
        var e := scan.end;
        PrintSnoc(p.lines, s[p.start..e]);
        assert s[..e + 2] == s[..p.start] + s[p.start..e] + CRLF;
        FramingIsExact(Advance(p, s, e), s);
      }
    }
  }

  predicate SaysKeepAlive(line: string) {
    var t := CString(line);
    StartsText(t, "Connection:") && SameText(SkipBlanks(t[11..]), "keep-alive")
  }

  /** Of all header lines, exactly those that say keep-alive set the linger flag. */
  lemma {:induction false} LingerIsExact(p: Parse, s: string)
    requires p.start <= |s| && p.head.phase.Headers?
    ensures |p.lines| <= |ParseFrom(p, s).lines|
    ensures ParseFrom(p, s).head.linger <==>
            p.head.linger || exists line :: line in ParseFrom(p, s).lines[|p.lines|..] && SaysKeepAlive(line)
    decreases |s| - p.start
  {
    hide HandleLine, SaysKeepAlive, ScanLine;
    var q := ParseFrom(p, s);
    if p.Stopped() || !ScanLine(s, p.start).Line? {
      assert q.lines[|p.lines|..] == [];
    } else {
      var e := ScanLine(s, p.start).end;
      var p1 := Advance(p, s, e);
      var line := s[p.start..e];
      BlankNeverSaysKeepAlive(p.head, line);
      if p1.head.phase.Headers? {
        LingerIsExact(p1, s);
        LinesGrow(p1, s);
        assert q.lines[|p.lines|..] == [line] + q.lines[|p1.lines|..];
      } else {
        assert q == p1 && q.lines[|p.lines|..] == [line];
      }
    }
  }

  lemma BlankNeverSaysKeepAlive(h: Head, line: string)
    requires h.phase.Headers?
    ensures HandleLine(h, line).0.linger <==> h.linger || SaysKeepAlive(line)
    ensures HandleLine(h, line).0.phase.Headers? || HandleLine(h, line).0.phase.Content?
  {
  }

  lemma {:induction false} LinesGrow(p: Parse, s: string)
    requires p.start <= |s|
    ensures p.lines <= ParseFrom(p, s).lines
    decreases |s| - p.start
  {
    hide HandleLine;
    if !p.Stopped() {
      var scan := ScanLine(s, p.start);
      if scan.Line? {
        LinesGrow(Advance(p, s, scan.end), s);
      }
    }
  }

  predicate DeclaresBody(line: string) {
    var t := CString(line);
    StartsText(t, "Content-Length:") && Atol(SkipBlanks(t[15..])) != 0
  }

  /** Only a header line with a nonzero Content-Length can lead into the Content phase. */
  lemma {:induction false} BodyMustBeDeclared(p: Parse, s: string)
    requires p.start <= |s|
    requires !p.head.phase.Content?
    requires p.head.contentLength != 0 ==> exists line :: line in p.lines && DeclaresBody(line)
    ensures p.lines <= ParseFrom(p, s).lines
    ensures ParseFrom(p, s).head.phase.Content? ==>
              exists line :: line in ParseFrom(p, s).lines && DeclaresBody(line)
    decreases |s| - p.start
  {
    if !p.Stopped() {
      var scan := ScanLine(s, p.start);
      if scan.Line? {
        var q := Advance(p, s, scan.end);
        var line := s[p.start..scan.end];
        assert line in q.lines;
        assert forall l :: l in p.lines ==> l in q.lines;
        if q.head.phase.Content? {
          assert ParseFrom(q, s) == q;
        } else {
          BodyMustBeDeclared(q, s);
        }
      }
    }
  }
}
