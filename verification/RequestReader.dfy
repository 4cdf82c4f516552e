/** The receiving half of `http_conn`: a fixed byte buffer, the indices that survive between
    rounds, and the parser that overwrites separators with NUL so that url and version can be
    pointers into the buffer. The ghost field `received` is the stream as it came off the socket. */
module RequestReader {
  import opened Basics
  import opened CStrings
  import opened RequestSpec
  import opened RequestBodies
  import opened RequestGrammar

  const READ_BUFFER_SIZE: nat := 2048

  datatype LineStatus = LineOk | LineBad | LineOpen

  /** How a series of recv calls ends: EAGAIN, another error, or the peer's close. */
  datatype RecvEnd = WouldBlock | Failed | PeerClosed

  /** The string behind a pointer is terminated in front of `start`. */
  predicate Anchored(buf: string, start: nat, p: Option<nat>) {
    p.Some? ==> p.value < start <= |buf| && Find(buf, AtNul, p.value) < start
  }

  function Text(buf: string, p: Option<nat>): Option<string>
    requires p.Some? ==> p.value <= |buf|
  {
    if p.None? then None else Some(CStringAt(buf, p.value))
  }

  /** Bytes from `start` on may change freely: no anchored pointer reaches that far. */
  lemma AnchoredKept(buf: string, buf': string, start: nat, start': nat, p: Option<nat>)
    requires start <= start' <= |buf| == |buf'| && buf'[..start] == buf[..start]
    requires Anchored(buf, start, p)
    ensures Anchored(buf', start', p) && Text(buf', p) == Text(buf, p)
  {
    if p.Some? {
      CStringStable(buf, buf', p.value, start);
    }
  }

  /** Clip, for the string behind a pointer. */
  function ClipAt(text: Option<string>, p: Option<nat>, k: int): Option<string> {
    if p.None? then text else Clip(text, p.value, k)
  }

  /** A NUL stored at `k` is seen by a pointer exactly if `k` lies inside its string. */
  lemma StoreClips(buf: string, start: nat, p: Option<nat>, k: nat)
    requires Anchored(buf, start, p) && k < |buf|
    ensures Anchored(buf[k := NUL], start, p)
    ensures Text(buf[k := NUL], p) == ClipAt(Text(buf, p), p, k)
  {
    if p.Some? {
      var v, n := p.value, Find(buf, AtNul, p.value);
      FindSpec(buf, AtNul, v);
      var m := if v <= k < n then k else n;
      FindIs(buf[k := NUL], AtNul, v, m);
      SliceKept(buf, k, NUL, v, m);
      SliceOfSlice(buf, v, n, m);
    }
  }

  lemma NoneClipped(buf: string, start: nat, p: Option<nat>, k: int)
    requires Anchored(buf, start, p) && (k < 0 || k >= start)
    ensures ClipAt(Text(buf, p), p, k) == Text(buf, p)
  {
  }

  /** From the current line on, the buffer holds the received stream; up to `checked` that line
      is known to hold no line break; and the byte in front of `checked` is never a CR. */
  ghost predicate Agrees(buf: string, received: string, start: nat, checked: nat)
  {
    && |buf| == READ_BUFFER_SIZE
    && start <= checked <= |received| <= READ_BUFFER_SIZE
    && (forall k :: start <= k < |received| ==> buf[k] == received[k])
    && Clear(received, AtEol, start, checked)
    && (checked > 0 ==> buf[checked - 1] != CR)
  }

  lemma FreshAgrees(buf: string)
    requires |buf| == READ_BUFFER_SIZE
    ensures Agrees(buf, "", 0, 0)
  {
  }

  lemma AgreesGrows(buf: string, buf': string, received: string, bytes: string, start: nat, checked: nat)
    requires Agrees(buf, received, start, checked)
    requires |received + bytes| <= |buf'| == |buf|
    requires buf'[..|received|] == buf[..|received|]
    requires buf'[|received|..|received + bytes|] == bytes
    ensures Agrees(buf', received + bytes, start, checked)
    ensures buf'[..start] == buf[..start]
  {
  }

  lemma AgreesSkips(buf: string, received: string, start: nat, checked: nat, url: Option<nat>, version: Option<nat>)
    requires Agrees(buf, received, start, checked)
    requires Anchored(buf, start, url) && Anchored(buf, start, version)
    ensures Agrees(buf, received, checked, checked)
    ensures Anchored(buf, checked, url) && Anchored(buf, checked, version)
    ensures ScanLine(received, start) == ScanLine(received, checked)
  {
    ScanResumes(received, start, checked);
  }

  /** The C string at the start of a cut-off line is the line up to its own first NUL, if any. */
  lemma LineText(buf: string, a: nat, line: string)
    requires a + |line| < |buf| && buf[a..a + |line|] == line && buf[a + |line|] == NUL
    ensures Find(buf, AtNul, a) == a + Find(line, AtNul, 0)
    ensures CStringAt(buf, a) == CString(line)
  {
    var n := Find(line, AtNul, 0);
    FindSpec(line, AtNul, 0);
    assert forall k :: a <= k < a + |line| ==> buf[k] == buf[a..a + |line|][k - a];
    FindIs(buf, AtNul, a, a + n);
    assert buf[a..a + n] == line[..n];
  }

  /** Cutting the string at `a` in two, in front of the current line, is invisible to everything
      else: the stream, the scan position, and any pointer `p` to an earlier string. */
  lemma CutKeeps(buf: string, received: string, a: nat, i: nat, start: nat, checked: nat, p: Option<nat>)
    requires Agrees(buf, received, start, checked)
    requires a < |buf| && Find(buf, AtNul, a) < start - 1
    requires i < |CStringAt(buf, a)|
    requires Anchored(buf, a, p)
    ensures var cut := buf[a + i := NUL];
            && Agrees(cut, received, start, checked)
            && Anchored(cut, start, p) && Text(cut, p) == Text(buf, p)
            && Find(cut, AtNul, a) < start - 1 && CStringAt(cut, a) == CStringAt(buf, a)[..i]
            && a + i + 1 < start
            && Find(cut, AtNul, a + i + 1) < start - 1 && CStringAt(cut, a + i + 1) == CStringAt(buf, a)[i + 1..]
  {
    CutAt(buf, a, a + i);
    AnchoredKept(buf, buf[a + i := NUL], a, start, p);
  }

  /** Overwriting a complete line's CR LF and moving on behind it: the stream from there on is
      untouched, and earlier pointers still mean what they meant. */
  lemma LineTaken(buf: string, received: string, a: nat, e: nat, url: Option<nat>, version: Option<nat>)
    requires a <= e && Agrees(buf, received, a, e)
    requires ScanLine(received, a) == Line(e)
    requires Anchored(buf, a, url) && Anchored(buf, a, version)
    ensures var after := buf[e := NUL][e + 1 := NUL];
            && Agrees(after, received, e + 2, e + 2)
            && after[a..e] == received[a..e]
            && Anchored(after, a, url) && Anchored(after, e + 2, url) && Text(after, url) == Text(buf, url)
            && Anchored(after, a, version) && Anchored(after, e + 2, version)
            && Text(after, version) == Text(buf, version)
  {
    var after := buf[e := NUL][e + 1 := NUL];
    assert forall k :: a <= k < e ==> after[k] == received[k];
    AnchoredKept(buf, after, a, a, url);
    AnchoredKept(buf, after, a, e + 2, url);
    AnchoredKept(buf, after, a, a, version);
    AnchoredKept(buf, after, a, e + 2, version);
  }

  class HttpConn {
    const readBuf: array<char>
    var readIndex: nat
    var checkedIndex: nat
    var startLine: nat
    var checkState: Phase
    var url: Option<nat>
    var version: Option<nat>
    var linger: bool
    var contentLength: int

    /** The contents of `readBuf`. */
    ghost var bytes: string
    ghost var received: string
    /** The parse of the part of `received` that earlier rounds have seen. */
    ghost var parsed: Parse
    ghost var seen: nat

    ghost predicate Sound()
      reads this, readBuf
    {
      && readBuf[..] == bytes
      && startLine <= checkedIndex <= readIndex == |received| <= READ_BUFFER_SIZE == |bytes|
      && Agrees(bytes, received, startLine, checkedIndex)
      && Anchored(bytes, startLine, url) && Anchored(bytes, startLine, version)
    }

    ghost function HeadNow(): Head
      requires Anchored(bytes, startLine, url) && Anchored(bytes, startLine, version)
      reads this`bytes, this`startLine, this`url, this`version, this`checkState, this`linger, this`contentLength
    {
      Head(checkState, Text(bytes, url), Text(bytes, version), linger, contentLength)
    }

    /** The head as it is after a NUL has been stored at `k`. */
    ghost function HeadClipped(k: int): Head
      requires Anchored(bytes, startLine, url) && Anchored(bytes, startLine, version)
      reads this`bytes, this`startLine, this`url, this`version, this`checkState, this`linger, this`contentLength
    {
      HeadNow().(url := ClipAt(Text(bytes, url), url, k), version := ClipAt(Text(bytes, version), version, k))
    }

    /** Behind the request line, url and version point to where they stand in it. */
    ghost predicate Located(lines: seq<string>)
      reads this`checkState, this`startLine, this`url, this`version
    {
      if checkState.RequestLine? then lines == [] && startLine == 0
      else lines != [] && url == Some(UrlOffset(CString(lines[0]))) && version == Some(VersionOffset(CString(lines[0])))
    }

    ghost predicate Valid()
      reads this, readBuf
    {
      && Sound() && Located(parsed.lines)
      && seen <= readIndex
      && parsed == ParseStream(received[..seen])
      && parsed.code == NoRequest
      && parsed.head == HeadNow()
      && (if checkState.Content? then parsed.start <= startLine && contentLength > 0 else parsed.start == startLine)
    }

    constructor ()
      ensures Valid() && fresh(readBuf) && received == "" && !checkState.Content?
    {
      readBuf := new char[READ_BUFFER_SIZE](_ => NUL);
      readIndex, checkedIndex, startLine, checkState := 0, 0, 0, RequestLine;
      url, version, linger, contentLength := None, None, false, 0;
      received, parsed, seen := "", FRESH_PARSE, 0;
      new;
      bytes := readBuf[..];
    }

    /** memset of the buffer. */
    method Wipe()
      modifies this`bytes, readBuf
      ensures readBuf[..] == bytes && forall k :: 0 <= k < readBuf.Length ==> readBuf[k] == NUL
    {
      forall k | 0 <= k < readBuf.Length { readBuf[k] := NUL; }
      bytes := readBuf[..];
    }

    /** init(): back to an empty stream, from any state whatsoever. */
    method Reset()
      requires readBuf.Length == READ_BUFFER_SIZE
      modifies this, readBuf
      ensures Valid() && received == "" && !checkState.Content?
      ensures forall k :: 0 <= k < READ_BUFFER_SIZE ==> readBuf[k] == NUL
    {
      Wipe();
      Restart();
    }

    method Restart()
      requires readBuf[..] == bytes && |bytes| == READ_BUFFER_SIZE
      modifies this
      ensures Valid() && received == "" && !checkState.Content?
    {
      hide Find, Clear, ParseFrom, ScanLine, Agrees, CStringAt;
      readIndex, checkedIndex, startLine, checkState := 0, 0, 0, RequestLine;
      url, version, linger, contentLength := None, None, false, 0;
      received, parsed, seen := "", FRESH_PARSE, 0;
      FreshAgrees(bytes);
      assert Sound() && HeadNow() == FRESH_HEAD;
      hide Sound, HeadNow;
      NothingParsed();
      assert received[..seen] == "";
    }

    method Put(k: nat, c: char)
      requires k < readBuf.Length && readBuf[..] == bytes
      modifies this`bytes, readBuf
      ensures readBuf[..] == bytes == old(bytes)[k := c]
    {
      readBuf[k] := c;
      bytes := bytes[k := c];
    }

    /** The kernel's side of recv: the data lands behind what is already there. */
    method Store(data: string)
      requires readIndex + |data| <= readBuf.Length && readBuf[..] == bytes
      modifies this`bytes, readBuf
      ensures readBuf[..] == bytes && |bytes| == |old(bytes)|
      ensures bytes[..readIndex] == old(bytes)[..readIndex]
      ensures bytes[readIndex..readIndex + |data|] == data
    {
      forall k | 0 <= k < |data| { readBuf[readIndex + k] := data[k]; }
      bytes := readBuf[..];
    }

    method Receive(data: string)
      requires Valid()
      requires readIndex + |data| <= READ_BUFFER_SIZE
      modifies this`readIndex, this`received, this`bytes, readBuf
      ensures Valid()
      ensures received == old(received) + data
    {
      hide Find, Clear, CStringAt, Agrees, Anchored, ParseFrom;
      Store(data);
      AgreesGrows(old(bytes), bytes, received, data, startLine, checkedIndex);
      AnchoredKept(old(bytes), bytes, startLine, startLine, url);
      AnchoredKept(old(bytes), bytes, startLine, startLine, version);
      assert received[..seen] == (received + data)[..seen];
      received := received + data;
      readIndex := readIndex + |data|;
    }

    /** read(): recv until the socket would block. A full buffer makes recv return 0, which the
        loop takes for the peer's close, so filling the buffer to the last byte is a failure. */
    method Read(chunks: seq<string>, end: RecvEnd) returns (ok: bool)
      requires Valid()
      requires forall c :: c in chunks ==> c != ""
      modifies this`readIndex, this`received, this`bytes, readBuf
      ensures Valid()
      ensures received == if |old(received) + Flatten(chunks)| <= READ_BUFFER_SIZE
                          then old(received) + Flatten(chunks)
                          else (old(received) + Flatten(chunks))[..READ_BUFFER_SIZE]
      ensures ok <==> end.WouldBlock? && |old(received) + Flatten(chunks)| < READ_BUFFER_SIZE
    {
      hide Find, Clear, CStringAt, Agrees, Anchored, ParseFrom, HeadNow;
      ghost var all := received + Flatten(chunks);
      if readIndex >= READ_BUFFER_SIZE {
        return false;
      }
      var i := 0;
      assert chunks[0..] == chunks;
      while i < |chunks|
        invariant 0 <= i <= |chunks| && Valid()
        invariant all == received + Flatten(chunks[i..])
      {
        if readIndex == READ_BUFFER_SIZE {
          return false;
        }
        var space := READ_BUFFER_SIZE - readIndex;
        assert chunks[i..][0] == chunks[i] && chunks[i..][1..] == chunks[i + 1..];
        assert received + chunks[i] + Flatten(chunks[i + 1..]) == all;
        if |chunks[i]| > space {
          Receive(chunks[i][..space]);
          return false;
        }
        Receive(chunks[i]);
        i := i + 1;
      }
      ok := end.WouldBlock? && readIndex < READ_BUFFER_SIZE;
    }

    /** parse_line(): scan on from `checkedIndex`; a complete line has its CR LF overwritten. The
        source's success branch for an LF behind a CR that an earlier call passed over is dead. */
    method ParseLine() returns (status: LineStatus)
      requires readBuf[..] == bytes && |received| == readIndex
      requires Agrees(bytes, received, startLine, checkedIndex)
      modifies this`checkedIndex, this`bytes, readBuf
      ensures readBuf[..] == bytes
      ensures var scan := ScanLine(received, startLine);
              match status
              case LineOk => scan.Line? && checkedIndex == scan.end + 2 &&
                             bytes == old(bytes)[scan.end := NUL][scan.end + 1 := NUL]
              case LineBad => scan.Bad? && checkedIndex == scan.end && bytes == old(bytes)
              case LineOpen => scan.Open? && checkedIndex == scan.end && bytes == old(bytes)
      ensures !status.LineOk? ==> Agrees(bytes, received, startLine, checkedIndex)
      ensures status.LineOk? ==> Agrees(old(bytes), received, startLine, checkedIndex - 2)
      ensures if status.LineOk? then old(checkedIndex) + 2 <= checkedIndex else old(checkedIndex) <= checkedIndex
    {
      hide Find;
      while checkedIndex < readIndex
        invariant Agrees(bytes, received, startLine, checkedIndex)
        invariant readBuf[..] == bytes == old(bytes)
        decreases readIndex - checkedIndex
      {
        var temp := readBuf[checkedIndex];
        if temp == CR {
          FindIs(received, AtEol, startLine, checkedIndex);
          if checkedIndex + 1 == readIndex {
            return LineOpen;
          } else if readBuf[checkedIndex + 1] == LF {
            Put(checkedIndex, NUL);
            Put(checkedIndex + 1, NUL);
            checkedIndex := checkedIndex + 2;
            return LineOk;
          }
          return LineBad;
        } else if temp == LF {
          FindIs(received, AtEol, startLine, checkedIndex);
          if checkedIndex > 1 && readBuf[checkedIndex - 1] == CR {
            assert false;
          }
          return LineBad;
        }
        checkedIndex := checkedIndex + 1;
      }
      FindIs(received, AtEol, startLine, checkedIndex);
      return LineOpen;
    }

    /** A line that parse_line has just cut off lies at `a`, in front of the new `startLine`. */
    ghost predicate LineAt(a: nat, line: string)
      reads this, readBuf
    {
      && Sound()
      && a + |line| + 2 == startLine <= |bytes|
      && bytes[a..a + |line|] == line
      && bytes[a + |line|] == NUL
      && Anchored(bytes, a, url) && Anchored(bytes, a, version)
    }

    /** strpbrk(text, " \t") on the string `text` at `a`, and a NUL over the blank it finds. */
    method CutBlank(a: nat, text: string) returns (i: nat)
      requires readBuf[..] == bytes && Agrees(bytes, received, startLine, checkedIndex)
      requires a < startLine && Find(bytes, AtNul, a) < startLine - 1 && CStringAt(bytes, a) == text
      requires Anchored(bytes, a, version)
      modifies this`bytes, readBuf
      ensures readBuf[..] == bytes && Agrees(bytes, received, startLine, checkedIndex)
      ensures Anchored(bytes, startLine, version) && Text(bytes, version) == old(Text(bytes, version))
      ensures i == Find(text, AtBlank, 0) && (i == |text| ==> bytes == old(bytes))
      ensures i < |text| ==>
                && a + i + 1 < startLine
                && Find(bytes, AtNul, a) < startLine - 1 && CStringAt(bytes, a) == text[..i]
                && Find(bytes, AtNul, a + i + 1) < startLine - 1 && CStringAt(bytes, a + i + 1) == text[i + 1..]
    {
      hide Find, CStringAt, Text, Anchored, Clear;
      i := Find(text, AtBlank, 0);
      AnchoredKept(bytes, bytes, a, startLine, version);
      if i < |text| {
        CutKeeps(bytes, received, a, i, startLine, checkedIndex, version);
        Put(a + i, NUL);
      }
    }

    /** parse_request_line(text) */
    method ParseRequestLine(a: nat, ghost line: string) returns (code: Code)
      requires LineAt(a, line) && !checkState.Content?
      modifies this`url, this`version, this`checkState, this`bytes, readBuf
      ensures !checkState.Content?
      ensures Sound() && (HeadNow(), code) == RequestLineStep(old(HeadNow()), CString(line))
      ensures code == NoRequest ==>
                && checkState.Headers?
                && url == Some(a + UrlOffset(CString(line))) && version == Some(a + VersionOffset(CString(line)))
    {
      hide TargetStep, Find, Agrees, SameText, Clear, CStringAt, PathOffset;
      LineText(bytes, a, line);
      var t := CStringAt(readBuf[..], a);
      var i := CutBlank(a, t);
      url := if i == |t| then None else Some(a + i + 1);
      if url.None? || !SameText(t[..i], "GET") {
        return BadRequest;
      }
      code := ParseTarget(a + i + 1, t[i + 1..]);
    }

    /** The second half of parse_request_line: target, blank, version, with the target at `b`. */
    method ParseTarget(b: nat, rest: string) returns (code: Code)
      requires Sound() && b < startLine && url == Some(b)
      requires Find(bytes, AtNul, b) < startLine - 1 && CStringAt(bytes, b) == rest
      modifies this`url, this`version, this`checkState, this`bytes, readBuf
      ensures checkState == old(checkState) || checkState.Headers?
      ensures Sound() && (HeadNow(), code) == TargetStep(old(HeadNow()), rest)
      ensures code == NoRequest ==>
                var j := Find(rest, AtBlank, 0);
                checkState.Headers? && url == Some(b + PathOffset(rest[..j])) && version == Some(b + j + 1)
    {
      hide PathStep, PathOffset, Find, Agrees, SameText, Clear, CStringAt;
      version := None;
      var j := CutBlank(b, rest);
      version := if j == |rest| then None else Some(b + j + 1);
      if version.None? || !SameText(rest[j + 1..], "HTTP/1.1") {
        return BadRequest;
      }
      code := ParsePath(b, rest[..j]);
    }

    method ParsePath(b: nat, target: string) returns (code: Code)
      requires Sound() && url == Some(b) && CStringAt(bytes, b) == target
      modifies this`url, this`checkState
      ensures checkState == old(checkState) || checkState.Headers?
      ensures Sound() && (HeadNow(), code) == PathStep(old(HeadNow()), target)
      ensures code == NoRequest ==> checkState.Headers? && url == Some(b + PathOffset(target))
    {
      hide Find, Agrees, SameText;
      if StartsText(target, "http://") {
        var k := Find(target, AtSlash, 7);
        SuffixAt(bytes, b, k);
        url := if k == |target| then None else Some(b + k);
      }
      if url.Some? {
        FirstByte(bytes, url.value, '/');
      }
      if url.None? || readBuf[url.value] != '/' {
        return BadRequest;
      }
      checkState := Headers;
      return NoRequest;
    }

    /** parse_request_header(text) */
    method ParseRequestHeader(a: nat, ghost line: string) returns (code: Code)
      requires LineAt(a, line) && !checkState.Content?
      modifies this`linger, this`contentLength, this`checkState
      ensures checkState == old(checkState) || checkState.Content?
      ensures checkState.Content? ==> code == NoRequest
      ensures Sound() && (HeadNow(), code) == HeaderStep(old(HeadNow()), CString(line))
    {
      hide Find, Clear, Agrees, Anchored, HeaderStep, HeadNow;
      LineText(bytes, a, line);
      code := ApplyHeader(CStringAt(readBuf[..], a));
    }

    method ApplyHeader(t: string) returns (code: Code)
      requires Sound() && !checkState.Content?
      modifies this`linger, this`contentLength, this`checkState
      ensures checkState == old(checkState) || checkState.Content?
      ensures checkState.Content? ==> code == NoRequest
      ensures (HeadNow(), code) == HeaderStep(old(HeadNow()), t)
    {
      hide Find, Clear, Agrees, Anchored, Text, SameText, SkipBlanks, Atol;
      if t == [] {
        if contentLength != 0 {
          checkState := Content;
          return NoRequest;
        }
        return GetRequest;
      } else if StartsText(t, "Connection:") {
        if SameText(SkipBlanks(t[11..]), "keep-alive") {
          linger := true;
        }
      } else if StartsText(t, "Content-Length:") {
        contentLength := Atol(SkipBlanks(t[15..]));
      }
      return NoRequest;
    }

    /** The loop head of process_read: parse_line, and for a complete line get_line and the move of
        `startLine`, which leaves the line behind at `a`. */
    method NextLine() returns (status: LineStatus, a: nat)
      requires Sound()
      modifies this`checkedIndex, this`startLine, this`bytes, readBuf
      ensures a == old(startLine)
      ensures old(checkedIndex) <= checkedIndex && (status.LineOk? ==> old(checkedIndex) < checkedIndex)
      ensures var scan := ScanLine(received, a);
              if scan.Line?
              then status.LineOk? && checkedIndex == startLine == scan.end + 2 && LineAt(a, received[a..scan.end])
              else !status.LineOk? && checkedIndex == scan.end && startLine == a && Sound()
      ensures HeadNow() == old(HeadNow())
    {
      hide Find, Clear, Anchored, CStringAt;
      a := startLine;
      status := ParseLine();
      if status.LineOk? {
        LineTaken(old(bytes), received, a, ScanLine(received, a).end, url, version);
        startLine := checkedIndex;
      }
    }

    /** One turn of the loop on the request line or on a header: NextLine and the state machine. */
    method HeadTurn(ghost lines: seq<string>, ghost whole: Parse)
      returns (status: LineStatus, code: Code, ghost lines': seq<string>)
      requires Sound() && !checkState.Content? && Located(lines)
      requires whole == ParseFrom(Parse(HeadNow(), lines, startLine, NoRequest), received)
      modifies this, readBuf
      ensures Sound() && received == old(received) && readIndex == old(readIndex)
      ensures parsed == old(parsed) && seen == old(seen)
      ensures whole == ParseFrom(Parse(HeadNow(), lines', startLine, code), received)
      ensures code == NoRequest ==> Located(lines')
      ensures checkState.Content? ==> code == NoRequest
      ensures if status.LineOk? then old(checkedIndex) < checkedIndex == startLine
              else code == NoRequest && !checkState.Content? && checkedIndex == ScanLine(received, startLine).end &&
                   whole == Parse(HeadNow(), lines', startLine, code)
    {
      hide RequestLineStep, HeaderStep, Find, Clear, Agrees, Anchored, CStringAt, Text, UrlOffset, VersionOffset;
      ghost var p := Parse(HeadNow(), lines, startLine, NoRequest);
      var a;
      status, a := NextLine();
      code, lines' := NoRequest, lines;
      if status.LineOk? {
        ghost var e := ScanLine(received, a).end;
        lines' := lines + [received[a..e]];
        if checkState.RequestLine? {
          code := ParseRequestLine(a, received[a..e]);
        } else {
          code := ParseRequestHeader(a, received[a..e]);
        }
        assert Advance(p, received, e) == Parse(HeadNow(), lines', startLine, code);
        assert lines != [] ==> lines'[0] == lines[0];
      }
    }

    /** parse_request_content(text) with the text at `a`. The terminator is stored at a + length;
        `stray` says that this is outside the buffer, where the store is not part of this model. */
    method ParseRequestContent(a: nat) returns (code: Code, stray: bool)
      requires Sound() && a <= checkedIndex
      modifies this`bytes, readBuf
      ensures code == if readIndex >= contentLength + checkedIndex then GetRequest else NoRequest
      ensures readBuf[..] == bytes
      ensures stray <==> code == GetRequest && (a + contentLength < 0 || a + contentLength == READ_BUFFER_SIZE)
      ensures bytes == if code == GetRequest && !stray then old(bytes)[a + contentLength := NUL] else old(bytes)
      ensures contentLength >= 0 && readIndex < READ_BUFFER_SIZE ==> !stray
    {
      if readIndex >= contentLength + checkedIndex {
        stray := !(0 <= a + contentLength < READ_BUFFER_SIZE);
        if !stray {
          Put(a + contentLength, NUL);
        }
        return GetRequest, stray;
      }
      return NoRequest, false;
    }

    /** The size test, and what its store does to url and version. */
    method TestBody(a: nat) returns (code: Code)
      requires Sound() && a <= startLine
      requires Anchored(bytes, a, url) && Anchored(bytes, a, version)
      modifies this`bytes, readBuf
      ensures code == if readIndex >= contentLength + checkedIndex then GetRequest else NoRequest
      ensures code == NoRequest ==> Sound()
      ensures readBuf[..] == bytes && Anchored(bytes, startLine, url) && Anchored(bytes, startLine, version)
      ensures HeadNow() == if code == GetRequest then old(HeadClipped(a + contentLength)) else old(HeadNow())
    {
      hide Find, Agrees, CStringAt, Anchored, Clip, Text, ClipAt;
      var stray;
      code, stray := ParseRequestContent(a);
      var k := a + contentLength;
      if code == GetRequest {
        if stray {
          NoneClipped(bytes, startLine, url, k);
          NoneClipped(bytes, startLine, version, k);
        } else {
          StoreClips(old(bytes), startLine, url, k);
          StoreClips(old(bytes), startLine, version, k);
        }
      }
    }

    /** A store at or behind a line's start `a` is seen by no string in front of that line. */
    lemma NothingClipped(a: nat, k: int)
      requires Anchored(bytes, startLine, url) && Anchored(bytes, startLine, version)
      requires Anchored(bytes, a, url) && Anchored(bytes, a, version) && k >= a
      ensures HeadClipped(k) == HeadNow()
    {
      NoneClipped(bytes, a, url, k);
      NoneClipped(bytes, a, version, k);
    }

    /** The turns of process_read's loop in the Content phase, which it never leaves: a size test on
        entry, and after a failed test a further one behind every line cut out of the body. */
    method ReadBody() returns (code: Code)
      requires Sound() && checkState.Content?
      modifies this`checkedIndex, this`startLine, this`bytes, readBuf
      ensures old(startLine) <= startLine <= checkedIndex <= readIndex
      ensures (code, checkedIndex) == BodyRound(contentLength, old(checkedIndex), received)
      ensures code == NoRequest ==> Sound() && contentLength > 0
      ensures readBuf[..] == bytes && Anchored(bytes, startLine, url) && Anchored(bytes, startLine, version)
      ensures HeadNow() == if code == GetRequest then old(HeadClipped(startLine + contentLength)) else old(HeadNow())
    {
      hide Find, Clear, BodyRound, ScanLine, Agrees, Anchored, CStringAt, HeadNow, HeadClipped;
      ghost var k := startLine + contentLength;
      if contentLength >= 0 {
        NothingClipped(startLine, k);
      }
      var status := LineOk;
      while true
        invariant Sound() && HeadNow() == old(HeadNow()) && old(startLine) <= startLine
        invariant BodyRound(contentLength, checkedIndex, received) ==
                  BodyRound(contentLength, old(checkedIndex), received)
        invariant status.LineOk? || (status.LineOpen? && readIndex < contentLength + checkedIndex)
        invariant status.LineOk? ==> startLine == old(startLine) && HeadClipped(k) == old(HeadClipped(k))
        decreases readIndex - checkedIndex, status.LineOk?
      {
        var a := startLine;
        BodyRoundStep(contentLength, checkedIndex, received);
        if status.LineOk? {
          SkipScanned();
        } else {
          AgreesSkips(bytes, received, startLine, checkedIndex, url, version);
          status, a := NextLine();
          if !status.LineOk? {
            return NoRequest;
          }
          BodyRoundStep(contentLength, checkedIndex, received);
        }
        if contentLength >= 0 {
          NothingClipped(a, a + contentLength);
        }
        code := TestBody(a);
        if code == GetRequest {
          return;
        }
        status := LineOpen;
      }
    }

    /** get_line() and the move of `startLine` to where the scan stands. */
    method SkipScanned()
      requires Sound()
      modifies this`startLine
      ensures Sound() && startLine == checkedIndex && HeadNow() == old(HeadNow())
      ensures forall k :: HeadClipped(k) == old(HeadClipped(k))
    {
      hide Find, Clear, ScanLine, Agrees, CStringAt;
      AgreesSkips(bytes, received, startLine, checkedIndex, url, version);
      startLine := checkedIndex;
    }

    /** The turns of process_read's loop up to the first verdict, the body, or the end of the data. */
    method ReadHead(ghost lines: seq<string>, ghost whole: Parse) returns (code: Code)
      requires Sound() && !checkState.Content? && Located(lines)
      requires whole == ParseFrom(Parse(HeadNow(), lines, startLine, NoRequest), received)
      modifies this, readBuf
      ensures Sound() && received == old(received) && readIndex == old(readIndex)
      ensures parsed == old(parsed) && seen == old(seen)
      ensures code == NoRequest ==> Located(whole.lines)
      ensures whole.head == HeadNow() && whole.start == startLine && whole.code == code
      ensures checkState.Content? ==> checkedIndex == startLine && code == NoRequest
    {
      hide Find, Clear, ScanLine, HandleLine, Located;
      ghost var done := lines;
      code := NoRequest;
      while !checkState.Content?
        invariant Sound() && received == old(received) && readIndex == old(readIndex)
        invariant parsed == old(parsed) && seen == old(seen)
        invariant checkState.Content? ==> checkedIndex == startLine
        invariant code == NoRequest && Located(done)
        invariant whole == ParseFrom(Parse(HeadNow(), done, startLine, code), received)
        decreases readIndex - checkedIndex
      {
        var status;
        status, code, done := HeadTurn(done, whole);
        if !status.LineOk? || code != NoRequest {
          return;
        }
      }
    }

    /** process_read(): whatever the cuts between rounds were, the head is parsed as if all of
        `received` had arrived at once; only the body's size test depends on the rounds, and only its
        terminator can touch what has been parsed. */
    method ProcessRead() returns (code: Code)
      requires Valid()
      modifies this, readBuf
      ensures received == old(received) && readIndex == old(readIndex) == seen
      ensures startLine <= checkedIndex <= readIndex
      ensures parsed == ParseStream(received)
      ensures if parsed.head.phase.Content?
              then var from := if old(checkState).Content? then old(checkedIndex) else parsed.start;
                   (code, checkedIndex) == BodyRound(parsed.head.contentLength, from, received)
              else code == parsed.code
      ensures readBuf[..] == bytes && Anchored(bytes, startLine, url) && Anchored(bytes, startLine, version)
      ensures HeadNow() == HeadAfter(parsed, code)
      ensures code == NoRequest ==> Valid()
    {
      hide Find, Clear, ScanLine, HandleLine, BodyRound, Agrees, Anchored, CStringAt, ParseFrom, Text;
      ParseExtends(FRESH_PARSE, received[..seen], received[seen..]);
      StoppedStays(received[..seen], received[seen..]);
      assert received == received[..seen] + received[seen..];
      ghost var whole := ParseStream(received);
      if !checkState.Content? {
        code := ReadHead(parsed.lines, whole);
      }
      parsed, seen := whole, readIndex;
      assert received[..seen] == received;
      if checkState.Content? {
        HeadClippedIs();
        code := ReadBody();
      }
    }

    lemma HeadClippedIs()
      requires Sound() && checkState.Content? && Located(parsed.lines) && parsed.head == HeadNow()
      requires parsed == ParseStream(received) && parsed.start <= startLine
      requires contentLength > 0 || parsed.start == startLine
      ensures HeadClipped(startLine + contentLength) == HeadAfter(parsed, GetRequest)
    {
      hide ParseFrom, Find, Agrees, Clip, Text, UrlOffset, VersionOffset;
      if contentLength > 0 {
        NothingClipped(startLine, startLine + contentLength);
        TerminatedExactly(received);
      }
    }

    /** The dispatcher's read and the worker's process_read, arrival after arrival, until there is a
        verdict, for any stream that leaves the last byte of the buffer free. The verdict is that of
        the rounds; url, version, linger flag and length are those of the undivided stream, but for
        what the terminator of a complete body does to them; and unless the head declares a body, the
        verdict is that of the undivided stream too. A bad request is a first line without the form of
        a request line, and a complete one is a head, at once if it declares no length but zero. */
    method Serve(arrivals: seq<string>) returns (code: Code)
      requires Valid() && received == ""
      requires forall c :: c in arrivals ==> c != ""
      requires |Flatten(arrivals)| < READ_BUFFER_SIZE
      modifies this, readBuf
      ensures code == ServeRounds("", arrivals)
      ensures var whole := ParseStream(Flatten(arrivals));
              && (!whole.head.phase.Content? ==> code == whole.code)
              && (code == BadRequest <==> whole.lines != [] && !HasForm(CString(whole.lines[0])))
              && (code == GetRequest ==> IsHead(whole.lines))
              && (code == GetRequest <== IsHead(whole.lines) && LengthOf(whole.lines[1..]) == 0)
              && readBuf[..] == bytes && Anchored(bytes, startLine, url) && Anchored(bytes, startLine, version)
              && HeadNow() == HeadAfter(whole, code)
    {
      hide Find, Clear, ScanLine, HandleLine, BodyRound, BodyRounds, ServeRounds, Agrees, Anchored, ParseFrom, Text;
      hide HasForm, IsHead, LengthOf;
      ghost var all := Flatten(arrivals);
      NothingParsed();
      assert received[..seen] == "";
      assert "" + all == all;
      if ParseStream(all).head.phase.Content? {
        ContentRounds("", arrivals);
      } else {
        HeadRounds("", arrivals);
      }
      VerdictExactly(all);
      code := NoRequest;
      var i := 0;
      assert arrivals[0..] == arrivals;
      while i < |arrivals|
        invariant 0 <= i <= |arrivals| && Valid()
        invariant all == received + Flatten(arrivals[i..])
        invariant seen == readIndex && code == NoRequest
        invariant ServeRounds("", arrivals) ==
                  if checkState.Content? then BodyRounds(contentLength, checkedIndex, received, arrivals[i..])
                  else ServeRounds(received, arrivals[i..])
      {
        assert arrivals[i..] == [arrivals[i]] + arrivals[i + 1..] && arrivals[i] in arrivals;
        assert all == received + arrivals[i] + Flatten(arrivals[i + 1..]);
        code := ServeOne(arrivals[i], arrivals[i + 1..]);
        if code != NoRequest {
          StoppedStays(received, Flatten(arrivals[i + 1..]));
          return;
        }
        i := i + 1;
      }
      assert arrivals[i..] == [] && all == received;
      assert received[..seen] == received;
      NoMoreRounds(contentLength, checkedIndex, received);
    }

    /** One of these rounds, with the arrivals still to come. */
    method ServeOne(arrival: string, ghost later: seq<string>) returns (code: Code)
      requires Valid() && seen == readIndex && arrival != "" && |received + arrival| < READ_BUFFER_SIZE
      modifies this, readBuf
      ensures received == old(received) + arrival && parsed == ParseStream(received)
      ensures code == NoRequest ==> Valid() && seen == readIndex
      ensures parsed.Stopped() || code == NoRequest
      ensures readBuf[..] == bytes && Anchored(bytes, startLine, url) && Anchored(bytes, startLine, version)
      ensures HeadNow() == HeadAfter(parsed, code)
      ensures old(if checkState.Content? then BodyRounds(contentLength, checkedIndex, received, [arrival] + later)
                  else ServeRounds(received, [arrival] + later))
              == if code != NoRequest then code
                 else if checkState.Content? then BodyRounds(contentLength, checkedIndex, received, later)
                 else ServeRounds(received, later)
    {
      hide Find, Clear, ScanLine, HandleLine, BodyRound, Agrees, Anchored, ParseFrom, Text;
      ghost var was := received;
      assert was[..seen] == was;
      FlattenOne(arrival);
      StoppedStays(was, arrival);
      var ok := Read([arrival], WouldBlock);
      ghost var from := if checkState.Content? then checkedIndex else ParseStream(received).start;
      code := ProcessRead();
      BodyRoundVerdict(parsed.head.contentLength, from, received);
      assert ([arrival] + later)[0] == arrival && ([arrival] + later)[1..] == later;
    }
  }
}
