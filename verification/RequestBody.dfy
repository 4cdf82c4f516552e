/** Request bodies, whose size test starts over in every round: what the parser makes of a body that
    arrives in several pieces. */
module RequestBodies {
  import opened Basics
  import opened CStrings
  import opened RequestSpec

  // ---- one round ---------------------------------------------------------------------------

  /** One round in the Content phase: the size test, and after it the line splitter let loose on
      body bytes, which moves the point that the next size test counts from. */
  function BodyRound(len: int, checked: nat, s: string): (r: (Code, nat))
    requires checked <= |s|
    ensures checked <= r.1 <= |s|
    decreases |s| - checked
  {
    if |s| >= len + checked then (GetRequest, checked) else
    match ScanLine(s, checked)
    case Line(e) => BodyRound(len, e + 2, s)
    case scan => (NoRequest, scan.end)
  }

  lemma BodyRoundStep(len: int, checked: nat, s: string)
    requires checked <= |s|
    ensures |s| >= len + checked ==> BodyRound(len, checked, s) == (GetRequest, checked)
    ensures |s| < len + checked ==>
              var scan := ScanLine(s, checked);
              BodyRound(len, checked, s) ==
              if scan.Line? then BodyRound(len, scan.end + 2, s) else (NoRequest, scan.end)
  {
  }

  /** A round completes the body exactly if the bytes past `checked` already suffice at its start. */
  lemma {:induction false} BodyRoundVerdict(len: int, checked: nat, s: string)
    requires checked <= |s|
    ensures BodyRound(len, checked, s).0 == if |s| >= len + checked then GetRequest else NoRequest
    decreases |s| - checked
  {
    if |s| < len + checked {
      var scan := ScanLine(s, checked);
      if scan.Line? {
        BodyRoundVerdict(len, scan.end + 2, s);
      }
    }
  }

  /** A line break that is not a complete CR LF stands at `k`. */
  predicate StrayBreak(s: string, k: nat) {
    k < |s| && IsEol(s[k]) && !(s[k] == CR && k + 1 < |s| && s[k + 1] == LF)
  }

  /** The only streams on which a failed round does not move the point that the test counts from. */
  predicate Unmoved(s: string, k: nat) { |s| <= k || StrayBreak(s, k) }

  lemma StrayBreakScan(s: string, k: nat)
    requires k <= |s|
    ensures (!ScanLine(s, k).Line? && ScanLine(s, k).end == k) <==> Unmoved(s, k)
  {
    FindSpec(s, AtEol, k);
  }

  /** After a failed round, exactly: the count starts at the old point if nothing of the body has
      arrived or a stray line break comes first, and at a later one otherwise, at the end of the data
      if there is no line break; and the next round completes if and only if the declared length
      lies behind that point. */
  lemma BodyCountStartsOver(len: int, checked: nat, s: string, t: string)
    requires checked <= |s| < len + checked
    ensures var next := BodyRound(len, checked, s).1;
            && (next == checked <==> Unmoved(s, checked))
            && (Clear(s, AtEol, checked, |s|) ==> next == |s|)
            && (BodyRound(len, next, s + t).0 == GetRequest <==> |s + t| >= len + next)
  {
    StrayBreakScan(s, checked);
    BodyRoundStep(len, checked, s);
    BodyRoundVerdict(len, BodyRound(len, checked, s).1, s + t);
    if Clear(s, AtEol, checked, |s|) {
      FindIs(s, AtEol, checked, |s|);
    }
  }

  /** Exactly when a body cut in two is treated as if it had come at once, whatever the second piece:
      if and only if the first round has not moved the point to count from. */
  lemma TwoPiecesExactly(len: int, checked: nat, s: string)
    requires checked <= |s| < len + checked
    ensures (forall t :: BodyRound(len, BodyRound(len, checked, s).1, s + t).0 == BodyRound(len, checked, s + t).0)
            <==> Unmoved(s, checked)
  {
    hide BodyRound, Unmoved;
    var next := BodyRound(len, checked, s).1;
    BodyCountStartsOver(len, checked, s, "");
    if next == checked {
      assert forall t :: BodyRound(len, next, s + t).0 == BodyRound(len, checked, s + t).0;
    } else {
      var t := seq(len + checked - |s|, _ => 'x');
      BodyRoundVerdict(len, next, s + t);
      BodyRoundVerdict(len, checked, s + t);
      assert BodyRound(len, next, s + t).0 != BodyRound(len, checked, s + t).0;
    }
  }

  // ---- all rounds --------------------------------------------------------------------------

  /** The rounds of the Content phase, one per arrival, counting from `k` in the first. */
  function BodyRounds(len: int, k: nat, s: string, chunks: seq<string>): Code
    requires chunks != [] ==> k <= |s + chunks[0]|
    decreases |chunks|
  {
    if chunks == [] then NoRequest else
    var s' := s + chunks[0];
    var (code, next) := BodyRound(len, k, s');
    if code == GetRequest then code else BodyRounds(len, next, s', chunks[1..])
  }

  /** The rounds of a whole request, from a stream `s` on which the parser has not stopped. */
  function ServeRounds(s: string, chunks: seq<string>): Code
    decreases |chunks|
  {
    if chunks == [] then NoRequest else
    var s' := s + chunks[0];
    var p := ParseStream(s');
    if p.head.phase.Content? then BodyRounds(p.head.contentLength, p.start, s, chunks)
    else if p.code != NoRequest then p.code
    else ServeRounds(s', chunks[1..])
  }

  lemma NoMoreRounds(len: int, k: nat, s: string)
    ensures ServeRounds(s, []) == NoRequest && BodyRounds(len, k, s, []) == NoRequest
  {
  }

  /** For a head that declares no body the rounds give the verdict of one-shot arrival. */
  lemma {:induction false} HeadRounds(s: string, chunks: seq<string>)
    requires !ParseStream(s).Stopped() && !ParseStream(s + Flatten(chunks)).head.phase.Content?
    ensures ServeRounds(s, chunks) == ParseStream(s + Flatten(chunks)).code
    decreases |chunks|
  {
    hide ParseFrom;
    if chunks == [] {
      assert s + Flatten(chunks) == s;
    } else {
      var s' := s + chunks[0];
      assert s' + Flatten(chunks[1..]) == s + Flatten(chunks);
      StoppedStays(s', Flatten(chunks[1..]));
      if !ParseStream(s').Stopped() {
        HeadRounds(s', chunks[1..]);
      }
    }
  }

  /** The rounds of a body end with the complete verdict or with none. */
  lemma {:induction false} BodyRoundsEnd(len: int, k: nat, s: string, chunks: seq<string>)
    requires chunks != [] ==> k <= |s + chunks[0]|
    ensures BodyRounds(len, k, s, chunks) == GetRequest || BodyRounds(len, k, s, chunks) == NoRequest
    decreases |chunks|
  {
    hide BodyRound;
    if chunks != [] {
      BodyRoundsEnd(len, BodyRound(len, k, s + chunks[0]).1, s + chunks[0], chunks[1..]);
    }
  }

  lemma {:induction false} ContentRounds(s: string, chunks: seq<string>)
    requires !ParseStream(s).Stopped() && ParseStream(s + Flatten(chunks)).head.phase.Content?
    ensures ServeRounds(s, chunks) == GetRequest || ServeRounds(s, chunks) == NoRequest
    decreases |chunks|
  {
    hide ParseFrom, HandleLine;
    if chunks != [] {
      var s', rest := s + chunks[0], chunks[1..];
      assert s' + Flatten(rest) == s + Flatten(chunks);
      StoppedStays(s', Flatten(rest));
      if ParseStream(s').Stopped() {
        BodyRoundsEnd(ParseStream(s').head.contentLength, ParseStream(s').start, s, chunks);
      } else {
        ContentRounds(s', rest);
      }
    }
  }

  /** Too few bytes behind the point that the test counts from: no round completes. */
  lemma {:induction false} NeverEnough(len: int, k: nat, s: string, chunks: seq<string>)
    requires chunks != [] ==> k <= |s + chunks[0]|
    requires |s + Flatten(chunks)| < len + k
    ensures BodyRounds(len, k, s, chunks) == NoRequest
    decreases |chunks|
  {
    hide BodyRound;
    if chunks != [] {
      var s' := s + chunks[0];
      assert s' + Flatten(chunks[1..]) == s + Flatten(chunks);
      BodyRoundVerdict(len, k, s');
      NeverEnough(len, BodyRound(len, k, s').1, s', chunks[1..]);
    }
  }

  /** No arrival but the last moves the point to count from away from `k`. */
  predicate NeverMoved(k: nat, s: string, chunks: seq<string>)
    decreases |chunks|
  {
    |chunks| <= 1 || (Unmoved(s + chunks[0], k) && NeverMoved(k, s + chunks[0], chunks[1..]))
  }

  lemma {:induction false} BodyRoundsExactly(len: int, k: nat, s: string, chunks: seq<string>)
    requires chunks != [] && k <= |s + chunks[0]|
    requires forall c :: c in chunks ==> c != ""
    requires |s + Flatten(chunks)| == len + k
    ensures BodyRounds(len, k, s, chunks) == if NeverMoved(k, s, chunks) then GetRequest else NoRequest
    decreases |chunks|
  {
    hide BodyRound, Unmoved;
    var s', rest := s + chunks[0], chunks[1..];
    assert s' + Flatten(rest) == s + Flatten(chunks);
    BodyRoundVerdict(len, k, s');
    if rest == [] {
      assert |s'| == len + k;
    } else {
      assert rest[0] in chunks && forall c :: c in rest ==> c in chunks;
      assert Flatten(rest) == rest[0] + Flatten(rest[1..]);
      BodyCountStartsOver(len, k, s', "");
      var next := BodyRound(len, k, s').1;
      if next == k {
        BodyRoundsExactly(len, k, s', rest);
      } else {
        NeverEnough(len, next, s', rest);
      }
    }
  }

  lemma ScanLocal(s: string, n: nat, i: nat)
    requires i <= n <= |s| && ScanLine(s, i).Line? && ScanLine(s, i).end + 2 <= n
    ensures ScanLine(s[..n], i) == ScanLine(s, i)
  {
    var e := ScanLine(s, i).end;
    FindSpec(s, AtEol, i);
    FindIs(s[..n], AtEol, i, e);
  }

  /** What has stopped the parser is decided by the bytes it has consumed. */
  lemma {:induction false} ParseLocal(p: Parse, s: string, n: nat)
    requires p.start <= n <= |s| && ParseFrom(p, s).Stopped() && ParseFrom(p, s).start <= n
    ensures ParseFrom(p, s[..n]) == ParseFrom(p, s)
    decreases |s| - p.start
  {
    hide HandleLine;
    if !p.Stopped() {
      var e := ScanLine(s, p.start).end;
      ScanLocal(s, n, p.start);
      assert s[..n][p.start..e] == s[p.start..e];
      ParseLocal(Advance(p, s, e), s, n);
    }
  }

  /** Exactly when a body that arrives in pieces is ever complete. For every request whose bytes end
      with its declared body, and every division of them into arrivals: the rounds reach a verdict
      if and only if after no arrival but the last the body has begun, unless with a stray line
      break. A body with an ordinary first byte must arrive in one piece. */
  lemma {:induction false} BodyArrivesExactly(s: string, chunks: seq<string>)
    requires !ParseStream(s).Stopped() && forall c :: c in chunks ==> c != ""
    requires var p := ParseStream(s + Flatten(chunks));
             p.head.phase.Content? && |s + Flatten(chunks)| == p.head.contentLength + p.start
    ensures ServeRounds(s, chunks) ==
            if NeverMoved(ParseStream(s + Flatten(chunks)).start, s, chunks) then GetRequest else NoRequest
    decreases |chunks|
  {
    hide ParseFrom, BodyRounds, HandleLine;
    var all := s + Flatten(chunks);
    var p := ParseStream(all);
    assert s + "" == s && Flatten([]) == "";
    assert chunks != [];
    var s', rest := s + chunks[0], chunks[1..];
    assert s' + Flatten(rest) == all && all[..|s'|] == s';
    StoppedStays(s', Flatten(rest));
    if ParseStream(s').head.phase.Content? {
      BodyRoundsExactly(p.head.contentLength, p.start, s, chunks);
    } else {
      if |s'| >= p.start {
        ParseLocal(FRESH_PARSE, all, |s'|);
        assert false;
      }
      assert forall c :: c in rest ==> c in chunks;
      BodyArrivesExactly(s', rest);
      assert rest == [] ==> Flatten(rest) == "";
    }
  }

  // ---- negative lengths ----------------------------------------------------------------------

  /** Where the url of an accepted request line starts, ... */
  function UrlOffset(t: string): nat {
    var i := Find(t, AtBlank, 0);
    if i == |t| then 0 else
    var rest := t[i + 1..];
    i + 1 + PathOffset(rest[..Find(rest, AtBlank, 0)])
  }

  /** ... in its target, ... */
  function PathOffset(target: string): nat {
    if StartsText(target, "http://") then Find(target, AtSlash, 7) else 0
  }

  /** ... and where its version does. */
  function VersionOffset(t: string): nat {
    var i := Find(t, AtBlank, 0);
    if i == |t| then 0 else i + 1 + Find(t[i + 1..], AtBlank, 0) + 1
  }

  lemma PathOffsetIs(h: Head, target: string)
    requires PathStep(h.(url := Some(target)), target).1 == NoRequest
    ensures PathOffset(target) <= |target|
    ensures PathStep(h.(url := Some(target)), target) ==
            (h.(url := Some(target[PathOffset(target)..]), phase := Headers), NoRequest)
  {
  }

  lemma OffsetsAre(h: Head, t: string)
    requires RequestLineStep(h, t).1 == NoRequest
    ensures var h' := RequestLineStep(h, t).0;
            var u, v := UrlOffset(t), VersionOffset(t);
            && h'.url.Some? && h'.version.Some? && h'.phase.Headers?
            && u + |h'.url.value| < v <= |t|
            && h'.url.value == t[u..u + |h'.url.value|] && h'.version.value == t[v..]
  {
    var i := Find(t, AtBlank, 0);
    var rest := t[i + 1..];
    var j := Find(rest, AtBlank, 0);
    hide PathOffset, PathStep;
    PathOffsetIs(h.(version := Some(rest[j + 1..])), rest[..j]);
    assert RequestLineStep(h, t) == PathStep(h.(url := Some(rest[..j]), version := Some(rest[j + 1..])), rest[..j]);
    assert h.(url := Some(rest[..j]), version := Some(rest[j + 1..])) ==
           h.(version := Some(rest[j + 1..])).(url := Some(rest[..j]));
  }

  /** Url and version are still those of the request line. */
  ghost predicate FromFirstLine(p: Parse) {
    if p.head.phase.RequestLine? then p.code != NoRequest || (p.lines == [] && p.head == FRESH_HEAD)
    else
      && p.lines != [] && p.start >= |p.lines[0]| + 2
      && var first := RequestLineStep(FRESH_HEAD, CString(p.lines[0]));
         first.1 == NoRequest && p.head.url == first.0.url && p.head.version == first.0.version
  }

  lemma LineKeepsFirst(p: Parse, s: string, e: nat)
    requires !p.Stopped() && p.start <= e && e + 2 <= |s| && FromFirstLine(p)
    ensures FromFirstLine(Advance(p, s, e))
  {
    var line := s[p.start..e];
    if p.head.phase.RequestLine? {
      var first := RequestLineStep(FRESH_HEAD, CString(line));
      if first.1 == NoRequest {
        hide RequestLineStep;
        OffsetsAre(FRESH_HEAD, CString(line));
      } else {
        RejectedLine(FRESH_HEAD, CString(line));
      }
    }
  }

  lemma RejectedLine(h: Head, t: string)
    requires h.phase.RequestLine? && RequestLineStep(h, t).1 != NoRequest
    ensures RequestLineStep(h, t).0.phase.RequestLine?
  {
  }

  lemma {:induction false} ParseKeepsFirst(p: Parse, s: string)
    requires p.start <= |s| && FromFirstLine(p)
    ensures FromFirstLine(ParseFrom(p, s))
    decreases |s| - p.start
  {
    if !p.Stopped() {
      var scan := ScanLine(s, p.start);
      if scan.Line? {
        LineKeepsFirst(p, s, scan.end);
        hide FromFirstLine, HandleLine;
        ParseKeepsFirst(Advance(p, s, scan.end), s);
      }
    }
  }

  /** What is left of a C string at `p` when a NUL is stored at `k`. */
  function Clip(text: Option<string>, p: nat, k: int): Option<string> {
    if text.Some? && p <= k < p + |text.value| then Some(text.value[..k - p]) else text
  }

  /** The head after the size test of its body has been passed: the NUL is stored as many bytes
      behind the head as it declares, or in front of its end. */
  function Terminated(p: Parse): Head
    requires p.lines != []
  {
    var line := CString(p.lines[0]);
    var k := p.start + p.head.contentLength;
    p.head.(url := Clip(p.head.url, UrlOffset(line), k), version := Clip(p.head.version, VersionOffset(line), k))
  }

  /** What url, version, flag and length are when the parser has returned `code`. */
  function HeadAfter(p: Parse, code: Code): Head {
    if p.head.phase.Content? && code == GetRequest && p.lines != [] then Terminated(p) else p.head
  }

  /** A negative length passes the test at once. */
  lemma {:induction false} NegativeCompletes(s: string, chunks: seq<string>)
    requires !ParseStream(s).Stopped()
    requires var p := ParseStream(s + Flatten(chunks)); p.head.phase.Content? && p.head.contentLength < 0
    ensures ServeRounds(s, chunks) == GetRequest
    decreases |chunks|
  {
    hide ParseFrom, HandleLine;
    assert s + "" == s && Flatten([]) == "";
    assert chunks != [];
    var s', rest := s + chunks[0], chunks[1..];
    assert s' + Flatten(rest) == s + Flatten(chunks);
    StoppedStays(s', Flatten(rest));
    if !ParseStream(s').Stopped() {
      NegativeCompletes(s', rest);
    }
  }

  lemma ClipIs(text: string, p: nat, k: int)
    ensures Clip(Some(text), p, k) == Some(text) <==> !(p <= k < p + |text|)
  {
  }

  lemma FirstLineIsPrefix(s: string)
    requires ParseStream(s).lines != []
    ensures var line := ParseStream(s).lines[0]; |line| <= |s| && s[..|line|] == line
  {
    var p := ParseStream(s);
    var line := p.lines[0];
    FramingIsExact(FRESH_PARSE, s);
    PrintStarts(p.lines);
    hide Print, ParseFrom;
    SliceOfPrefix(s, p.start, 0, |line|);
  }

  lemma PrintStarts(lines: seq<string>)
    requires lines != []
    ensures |lines[0]| <= |Print(lines)| && Print(lines)[0..|lines[0]|] == lines[0]
  {
    assert Print(lines) == lines[0] + (CRLF + Print(lines[1..]));
  }

  /** Url and version are stretches of the stream, at their offsets and in front of the body. */
  lemma HeadLiesInStream(s: string)
    requires ParseStream(s).head.phase.Content?
    ensures var p := ParseStream(s);
            && p.lines != [] && p.head.url.Some? && p.head.version.Some?
            && var line := CString(p.lines[0]);
               var (u, v) := (UrlOffset(line), VersionOffset(line));
               && u + |p.head.url.value| < v && v + |p.head.version.value| <= p.start - 2
               && s[u..u + |p.head.url.value|] == p.head.url.value
               && s[v..v + |p.head.version.value|] == p.head.version.value
  {
    var p := ParseStream(s);
    ParseKeepsFirst(FRESH_PARSE, s);
    var line := p.lines[0];
    var t := CString(line);
    OffsetsAre(FRESH_HEAD, t);
    FirstLineIsPrefix(s);
    hide RequestLineStep, UrlOffset, VersionOffset, ParseFrom;
    assert t == line[..|t|] == s[..|t|];
    SliceOfPrefix(s, |t|, UrlOffset(t), UrlOffset(t) + |p.head.url.value|);
    SliceOfPrefix(s, |t|, VersionOffset(t), |t|);
    hide CString;
  }

  /** Exactly when the terminator damages the head, for every stream whose head declares a body: the
      url is left as it was if and only if the declared length does not reach back into the stretch
      of the stream where it lies, and likewise the version. A length that is not negative damages
      neither. */
  lemma TerminatedExactly(s: string)
    requires ParseStream(s).head.phase.Content?
    ensures var p := ParseStream(s);
            && p.lines != [] && p.head.url.Some? && p.head.version.Some?
            && var line := CString(p.lines[0]);
               var (u, v) := (UrlOffset(line), VersionOffset(line));
               var k := p.start + p.head.contentLength;
               && (Terminated(p).url == p.head.url <==> !(u <= k < u + |p.head.url.value|))
               && (Terminated(p).version == p.head.version <==> !(v <= k < v + |p.head.version.value|))
               && (p.head.contentLength >= 0 ==> Terminated(p) == p.head)
  {
    var p := ParseStream(s);
    HeadLiesInStream(s);
    hide UrlOffset, VersionOffset, ParseFrom, Clip;
    var line := CString(p.lines[0]);
    var k := p.start + p.head.contentLength;
    ClipIs(p.head.url.value, UrlOffset(line), k);
    ClipIs(p.head.version.value, VersionOffset(line), k);
  }
}
