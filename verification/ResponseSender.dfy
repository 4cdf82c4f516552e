/** The sending half of `http_conn`: the bounded printer that assembles the response head, and the
    two-segment writev that is resumed after every partial send. */
module ResponseSender {
  import opened CStrings
  import opened ResponseTexts

  const WRITE_BUFFER_SIZE: nat := 2048

  // ---- the bookkeeping of a resumed writev, on values ---------------------------------------

  /** `segment0` is an offset and a length in the head, `segment1` in the mapped file. */
  datatype Segment = Segment(base: int, len: int)

  datatype Sending = Sending(header: string, file: string, segment0: Segment, segment1: Segment, sent: int, toSend: int)

  function Fresh(header: string, file: string): Sending {
    Sending(header, file, Segment(0, |header|), Segment(0, |file|), 0, |header| + |file|)
  }

  predicate Inside(segment: Segment, memory: string) {
    0 <= segment.base && 0 <= segment.len && segment.base + segment.len <= |memory|
  }

  function Bytes(segment: Segment, memory: string): string
    requires Inside(segment, memory)
  {
    memory[segment.base..segment.base + segment.len]
  }

  /** Both segments lie in the memory they are meant for. */
  predicate Defined(m: Sending) { Inside(m.segment0, m.header) && Inside(m.segment1, m.file) }

  /** What the next writev would send if it could send everything. */
  function Described(m: Sending): string
    requires Defined(m)
  {
    Bytes(m.segment0, m.header) + Bytes(m.segment1, m.file)
  }

  /** The bookkeeping after writev has returned `n`. */
  function AfterSend(m: Sending, n: nat): Sending {
    var have := m.sent + n;
    var left := m.toSend - n;
    if have >= m.segment0.len then
      m.(segment0 := m.segment0.(len := 0), segment1 := Segment(have - |m.header|, left), sent := have, toSend := left)
    else
      m.(segment0 := Segment(have, m.segment0.len - n), sent := have, toSend := left)
  }

  /** Nothing lost, nothing doubled: what went out and what is described make up the response. */
  ghost predicate Faithful(m: Sending, wire: string) {
    Defined(m) && wire + Described(m) == m.header + m.file && m.sent == |wire|
  }

  /** What is described is exactly the rest of header and file behind the first `sent` bytes. */
  predicate Aligned(m: Sending) {
    && 0 <= m.sent <= |m.header| + |m.file|
    && if m.sent < |m.header|
       then m.segment0 == Segment(m.sent, |m.header| - m.sent) && m.segment1 == Segment(0, |m.file|)
       else m.segment0.len == 0 && Inside(m.segment0, m.header) &&
            m.segment1 == Segment(m.sent - |m.header|, |m.header| + |m.file| - m.sent)
  }

  ghost predicate Accounted(m: Sending) {
    && m.sent + m.toSend == |m.header| + |m.file|
    && m.segment0.len + m.segment1.len == m.toSend && 0 <= m.segment0.len && 0 <= m.segment1.len && 0 <= m.sent
  }

  /** The sends that the comparison of the running total with the shrunk header length gets wrong:
      header bytes are left, yet the total has reached the number that were left before. */
  predicate Misjudged(w: nat, before: int, after: int) { before < w && w - before <= after < w }

  lemma AlignedIsFaithful(m: Sending, wire: string)
    requires Accounted(m) && Defined(m) && m.sent == |wire| && wire <= m.header + m.file
    requires Aligned(m)
    ensures Faithful(m, wire)
  {
  }

  /** Bytes sent and bytes to send always add up, whatever the kernel takes. */
  lemma SendAccounts(m: Sending, n: nat)
    requires Accounted(m) && n <= m.toSend
    ensures Accounted(AfterSend(m, n))
    ensures AfterSend(m, n).sent == m.sent + n && AfterSend(m, n).toSend == m.toSend - n
    ensures AfterSend(m, n).header == m.header && AfterSend(m, n).file == m.file
  {
  }

  /** One send, exactly: the description stays right if and only if the send is not misjudged; a
      misjudged one leaves a segment that starts in front of the file. */
  lemma SendExact(m: Sending, wire: string, n: nat)
    requires Accounted(m) && Aligned(m) && Faithful(m, wire) && n <= m.toSend
    ensures n <= |Described(m)|
    ensures var next := AfterSend(m, n); var wire' := wire + Described(m)[..n];
            if Misjudged(|m.header|, m.sent, next.sent) then !Defined(next)
            else Aligned(next) && Faithful(next, wire')
  {
    var next := AfterSend(m, n);
    var wire' := wire + Described(m)[..n];
    var all := m.header + m.file;
    assert wire' == all[..|wire'|];
    if !Misjudged(|m.header|, m.sent, next.sent) {
      AlignedIsFaithful(next, wire');
    }
  }

  // ---- whole runs ---------------------------------------------------------------------------

  function SendAll(m: Sending, ns: seq<nat>): Sending
    decreases |ns|
  {
    if ns == [] then m else SendAll(AfterSend(m, ns[0]), ns[1..])
  }

  function Total(ns: seq<nat>): nat {
    if ns == [] then 0 else ns[0] + Total(ns[1..])
  }

  /** The bytes one writev puts on the wire; nothing is claimed for undefined segments. */
  function Taken(m: Sending, n: nat): string {
    if Defined(m) && n <= |Described(m)| then Described(m)[..n] else ""
  }

  /** The bytes a run of sends puts on the wire. */
  function WireOf(m: Sending, ns: seq<nat>): string
    decreases |ns|
  {
    if ns == [] then "" else Taken(m, ns[0]) + WireOf(AfterSend(m, ns[0]), ns[1..])
  }

  predicate AnyMisjudged(w: nat, sent: int, ns: seq<nat>)
    decreases |ns|
  {
    ns != [] && (Misjudged(w, sent, sent + ns[0]) || AnyMisjudged(w, sent + ns[0], ns[1..]))
  }

  /** Every writev of the run finds segments that continue the response faithfully. */
  ghost predicate RunFaithful(m: Sending, wire: string, ns: seq<nat>)
    decreases |ns|
  {
    && Faithful(m, wire)
    && (ns != [] ==>
          ns[0] <= |Described(m)| && RunFaithful(AfterSend(m, ns[0]), wire + Described(m)[..ns[0]], ns[1..]))
  }

  /** For every series of partial sends: the response goes out unharmed exactly if none is misjudged. */
  lemma {:induction false} RunExact(m: Sending, wire: string, ns: seq<nat>)
    requires Accounted(m) && Aligned(m) && Faithful(m, wire) && Total(ns) <= m.toSend
    ensures RunFaithful(m, wire, ns) <==> !AnyMisjudged(|m.header|, m.sent, ns)
    ensures !AnyMisjudged(|m.header|, m.sent, ns) ==>
              Aligned(SendAll(m, ns)) && Faithful(SendAll(m, ns), wire + WireOf(m, ns))
    decreases |ns|
  {
    hide AfterSend, Described, Aligned, Misjudged, Accounted;
    if ns == [] {
      assert wire + WireOf(m, ns) == wire;
    } else {
      SendExact(m, wire, ns[0]);
      SendAccounts(m, ns[0]);
      var next := AfterSend(m, ns[0]);
      var wire' := wire + Described(m)[..ns[0]];
      if !Misjudged(|m.header|, m.sent, next.sent) {
        RunExact(next, wire', ns[1..]);
        assert wire' + WireOf(next, ns[1..]) == wire + WireOf(m, ns);
      }
    }
  }

  lemma {:induction false} RunAccounts(m: Sending, ns: seq<nat>)
    requires Accounted(m) && Total(ns) <= m.toSend
    ensures Accounted(SendAll(m, ns)) && SendAll(m, ns).sent == m.sent + Total(ns)
    decreases |ns|
  {
    if ns != [] {
      RunAccounts(AfterSend(m, ns[0]), ns[1..]);
    }
  }

  /** A drained, never misjudged run has put exactly header and file on the wire. */
  lemma DrainedRunDelivers(header: string, file: string, ns: seq<nat>)
    requires Total(ns) == |header| + |file|
    requires !AnyMisjudged(|header|, 0, ns)
    ensures WireOf(Fresh(header, file), ns) == header + file
    ensures SendAll(Fresh(header, file), ns).toSend == 0
  {
    hide AfterSend, WireOf, SendAll, Total, AnyMisjudged, Described;
    var m := Fresh(header, file);
    AlignedIsFaithful(m, "");
    RunAccounts(m, ns);
    SendAllKeeps(m, ns);
    DrainedMeansAll(m, "", ns);
    assert "" + WireOf(m, ns) == WireOf(m, ns);
  }

  lemma {:induction false} SendAllKeeps(m: Sending, ns: seq<nat>)
    ensures SendAll(m, ns).header == m.header && SendAll(m, ns).file == m.file
    decreases |ns|
  {
    if ns != [] {
      SendAllKeeps(AfterSend(m, ns[0]), ns[1..]);
    }
  }

  /** A head that the first writev takes whole is never misjudged afterwards. */
  lemma {:induction false} WholeHeadIsSafe(w: nat, sent: nat, ns: seq<nat>)
    requires ns != [] && (sent == 0 || sent >= w) && sent + ns[0] >= w
    ensures !AnyMisjudged(w, sent, ns)
    decreases |ns|
  {
    if |ns| > 1 {
      WholeHeadIsSafe(w, sent + ns[0], ns[1..]);
    }
  }

  /** Whatever the response, if its head has four bytes or more: half of the head, then one byte more,
      and the next segment starts in front of the file. */
  lemma MisjudgedExample(header: string, file: string)
    requires |header| >= 4
    ensures var ns := [(|header| + 1) / 2, 1];
            && Total(ns) <= |header| && AnyMisjudged(|header|, 0, ns)
            && SendAll(Fresh(header, file), ns).segment1.base < 0
  {
    var n := (|header| + 1) / 2;
    assert [n, 1][1..] == [1] && [1][1..] == [];
    assert Total([1]) == 1 + Total([]);
    var m := AfterSend(Fresh(header, file), n);
    assert SendAll(m, [1]) == AfterSend(m, 1);
  }

  /** If every writev sends something, the loop has drained after at most `toSend` turns. */
  lemma {:induction false} ProgressDrains(m: Sending, ns: seq<nat>)
    requires Accounted(m) && Total(ns) <= m.toSend
    requires forall n :: n in ns ==> n > 0
    ensures |ns| <= m.toSend
    ensures |ns| == m.toSend ==> SendAll(m, ns).toSend == 0
    decreases |ns|
  {
    if ns != [] {
      assert forall n :: n in ns[1..] ==> n in ns;
      assert ns[0] in ns;
      ProgressDrains(AfterSend(m, ns[0]), ns[1..]);
    }
  }

  lemma {:induction false} RunSnoc(m: Sending, ns: seq<nat>, n: nat)
    ensures SendAll(m, ns + [n]) == AfterSend(SendAll(m, ns), n)
    ensures WireOf(m, ns + [n]) == WireOf(m, ns) + Taken(SendAll(m, ns), n)
    ensures Total(ns + [n]) == Total(ns) + n
    decreases |ns|
  {
    hide AfterSend, Taken;
    if ns == [] {
      assert ns + [n] == [n];
      assert SendAll(m, [n]) == SendAll(AfterSend(m, n), []);
      assert WireOf(m, [n]) == Taken(m, n) + WireOf(AfterSend(m, n), []);
      assert Total([n]) == n + Total([]);
    } else {
      RunSnoc(AfterSend(m, ns[0]), ns[1..], n);
      assert (ns + [n])[1..] == ns[1..] + [n];
    }
  }

  // ---- the object ---------------------------------------------------------------------------

  datatype WritevResult = Took(n: nat) | Again | Error
  datatype SendEnd = Drained | Blocked | Broken
  datatype Interest = Nothing | In | Out
  function Min(a: int, b: int): int { if a < b then a else b }

  /** What the calls of writev in one write() have come to: `ns` are the counts of those that took
      something, each cut at what was left to send, up to the first that did not, or that sent the
      last of it; an error breaks the response, EAGAIN or the end of the list blocks it. */
  ghost predicate Explains(results: seq<WritevResult>, toSend: int, ns: seq<nat>, end: SendEnd) {
    && |ns| <= |results|
    && (forall i :: 0 <= i < |ns| ==>
          && Total(ns[..i]) < toSend && results[i].Took?
          && ns[i] == Min(results[i].n, toSend - Total(ns[..i])))
    && (end.Drained? <==> Total(ns) == toSend)
    && (end.Broken? <==> Total(ns) < toSend && |ns| < |results| && results[|ns|].Error?)
    && (end.Blocked? <==> Total(ns) < toSend && (|ns| == |results| || results[|ns|].Again?))
  }

  function Joined(parts: seq<seq<nat>>): seq<nat> {
    if parts == [] then [] else Joined(parts[..|parts| - 1]) + parts[|parts| - 1]
  }

  /** The same for one write() after the other: all but the last are blocked, and there is no further
      one exactly if the last has drained or broken, or no more are asked for. */
  ghost predicate AllExplained(rounds: seq<seq<WritevResult>>, toSend: int, parts: seq<seq<nat>>, end: SendEnd) {
    && |parts| <= |rounds| && (parts == [] ==> end.Blocked?) && (|parts| < |rounds| ==> !end.Blocked?)
    && forall k :: 0 <= k < |parts| ==>
         Explains(rounds[k], toSend - Total(Joined(parts[..k])), parts[k], if k + 1 == |parts| then end else Blocked)
  }

  lemma ExplainsMore(results: seq<WritevResult>, toSend: int, ns: seq<nat>, n: nat)
    requires |ns| < |results| && results[|ns|].Took? && Total(ns) < toSend
    requires n == Min(results[|ns|].n, toSend - Total(ns))
    requires forall i :: 0 <= i < |ns| ==>
               && Total(ns[..i]) < toSend && results[i].Took?
               && ns[i] == Min(results[i].n, toSend - Total(ns[..i]))
    ensures forall i :: 0 <= i < |ns + [n]| ==>
              && Total((ns + [n])[..i]) < toSend && results[i].Took?
              && (ns + [n])[i] == Min(results[i].n, toSend - Total((ns + [n])[..i]))
  {
    hide Total;
    assert ns[..|ns|] == ns;
    forall i | 0 <= i < |ns + [n]| ensures (ns + [n])[..i] == ns[..i] {
    }
  }

  /** The pieces that a printer with `index` bytes in its buffer accepts. */
  function Kept(index: nat, texts: seq<string>): seq<string>
    decreases |texts|
  {
    if texts == [] then []
    else if index + |texts[0]| <= WRITE_BUFFER_SIZE - 2 then [texts[0]] + Kept(index + |texts[0]|, texts[1..])
    else Kept(index, texts[1..])
  }

  lemma KeptStep(index: nat, texts: seq<string>, i: nat)
    requires i < |texts|
    ensures var kept, later := Kept(index, texts[i..]), texts[i + 1..];
            if index + |texts[i]| <= WRITE_BUFFER_SIZE - 2
            then var rest := Kept(index + |texts[i]|, later);
                 kept == [texts[i]] + rest && TotalLength(kept) == |texts[i]| + TotalLength(rest)
            else kept == Kept(index, later)
  {
    assert texts[i..][0] == texts[i] && texts[i..][1..] == texts[i + 1..];
    var rest := Kept(index + |texts[i]|, texts[i + 1..]);
    assert ([texts[i]] + rest)[1..] == rest;
  }

  lemma KeptNone(index: nat, texts: seq<string>)
    ensures Kept(index, texts[|texts|..]) == [] && TotalLength([]) == 0
  {
  }

  lemma {:induction false} KeptAll(index: nat, texts: seq<string>)
    requires index + TotalLength(texts) <= WRITE_BUFFER_SIZE - 2
    ensures Kept(index, texts) == texts
    decreases |texts|
  {
    if texts != [] {
      KeptAll(index + |texts[0]|, texts[1..]);
    }
  }

  /** Every response fits a fresh buffer. */
  lemma ResponseIsShort(v: Verdict, contents: string, contentType: string, linger: bool)
    requires |contentType| <= 100 && |contents| <= 0x7fff_ffff
    ensures var head := ResponseHead(v, contents, contentType, linger);
            Kept(0, head) == head && TotalLength(head) + |Form(v)| <= WRITE_BUFFER_SIZE - 2
  {
    FailuresAreShort(v);
    hide Status, Title, Form, HeadPieces, Kept;
    HeadIsShort(Status(v), Title(v), if v.FileRequest? then |contents| else |Form(v)|, contentType, linger);
    KeptAll(0, ResponseHead(v, contents, contentType, linger));
  }

  class HttpResponder {
    const writeBuf: array<char>
    var writeIndex: nat
    var linger: bool
    var file: string
    var iv0: Segment
    var iv1: Segment
    var bytesHaveSend: int
    var bytesToSend: int
    var armed: Interest

    /** The pieces the printer has accepted since the last init, and the bytes on the wire. */
    ghost var pieces: seq<string>
    ghost var wire: string

    /** The printer's invariant: the buffer's prefix is what was accepted, and the last accepted
        byte is never closer than two to the end, so the guard on a full buffer never fires. */
    ghost predicate Printed()
      reads this, writeBuf
    {
      && writeBuf.Length == WRITE_BUFFER_SIZE
      && writeIndex <= WRITE_BUFFER_SIZE - 2
      && writeBuf[..writeIndex] == Flatten(pieces)
    }

    ghost function State(): Sending
      reads this
    {
      Sending(Flatten(pieces), file, iv0, iv1, bytesHaveSend, bytesToSend)
    }

    constructor ()
      ensures Printed() && pieces == [] && wire == "" && fresh(writeBuf)
      ensures bytesHaveSend == bytesToSend == 0
    {
      writeBuf := new char[WRITE_BUFFER_SIZE](_ => NUL);
      writeIndex, linger, file, iv0, iv1 := 0, false, "", Segment(0, 0), Segment(0, 0);
      bytesHaveSend, bytesToSend, armed, pieces, wire := 0, 0, Nothing, [], "";
    }

    /** init(), the fields of this half. */
    method Init()
      requires writeBuf.Length == WRITE_BUFFER_SIZE
      modifies this`writeIndex, this`linger, this`bytesHaveSend, this`bytesToSend, this`pieces, this`wire, writeBuf
      ensures Printed() && pieces == [] && wire == "" && !linger && bytesHaveSend == bytesToSend == 0
    {
      writeIndex, linger, bytesHaveSend, bytesToSend := 0, false, 0, 0;
      forall k | 0 <= k < writeBuf.Length { writeBuf[k] := NUL; }
      pieces, wire := [], "";
    }

    /** vsnprintf: at most `size - 1` bytes of the text and a NUL, whatever the text's length. */
    method Format(text: string, size: nat)
      requires 0 < size && writeIndex + size <= writeBuf.Length
      modifies writeBuf
      ensures writeBuf[..writeIndex] == old(writeBuf[..writeIndex])
      ensures |text| < size ==> writeBuf[..writeIndex + |text|] == old(writeBuf[..writeIndex]) + text
    {
      var n := if |text| < size then |text| else size - 1;
      forall k | 0 <= k < n { writeBuf[writeIndex + k] := text[k]; }
      writeBuf[writeIndex + n] := NUL;
    }

    /** add_response: a piece is accepted whole or not at all. */
    method AddResponse(text: string) returns (ok: bool)
      requires Printed()
      modifies this`writeIndex, this`pieces, writeBuf
      ensures Printed()
      ensures ok <==> old(writeIndex) + |text| <= WRITE_BUFFER_SIZE - 2
      ensures pieces == (if ok then old(pieces) + [text] else old(pieces))
      ensures writeIndex == old(writeIndex) + (if ok then |text| else 0)
      ensures Flatten(pieces) == old(Flatten(pieces)) + (if ok then text else "")
    {
      if writeIndex >= WRITE_BUFFER_SIZE {
        assert false;
      }
      Format(text, WRITE_BUFFER_SIZE - 1 - writeIndex);
      if |text| >= WRITE_BUFFER_SIZE - 1 - writeIndex {
        return false;
      }
      FlattenSnoc(pieces, text);
      writeIndex := writeIndex + |text|;
      pieces := pieces + [text];
      return true;
    }

    /** A series of add_response calls whose verdicts nobody looks at, as in add_headers: each piece
        that fits behind those accepted before it is accepted, the others are skipped. */
    method AddAll(texts: seq<string>)
      requires Printed()
      modifies this`writeIndex, this`pieces, writeBuf
      ensures Printed() && pieces == old(pieces) + Kept(old(writeIndex), texts)
      ensures writeIndex == old(writeIndex) + TotalLength(Kept(old(writeIndex), texts))
    {
      hide Flatten, Kept, TotalLength;
      ghost var all := Kept(writeIndex, texts);
      assert texts[0..] == texts;
      for i := 0 to |texts|
        invariant Printed()
        invariant pieces + Kept(writeIndex, texts[i..]) == old(pieces) + all
        invariant writeIndex + TotalLength(Kept(writeIndex, texts[i..])) == old(writeIndex) + TotalLength(all)
      {
        KeptStep(writeIndex, texts, i);
        var ok := AddResponse(texts[i]);
        assert ok ==> old(pieces) + all == pieces + Kept(writeIndex, texts[i + 1..]);
      }
      KeptNone(writeIndex, texts);
    }

    /** process_write, from any state of the printer. Pieces that do not fit are skipped; it fails
        exactly if this happens to the text of a failure response, and never from a fresh buffer. A
        file response is described in full; a failure response does not touch the amount to send. */
    method ProcessWrite(verdict: Verdict, contents: string, contentType: string) returns (ok: bool)
      requires Printed()
      modifies this`writeIndex, this`pieces, this`file, this`iv0, this`iv1, this`bytesToSend, writeBuf
      ensures Printed()
      ensures var head := ResponseHead(verdict, contents, contentType, linger);
              var kept := Kept(old(writeIndex), head);
              match verdict
              case FileRequest =>
                && ok && pieces == old(pieces) + kept && writeIndex == old(writeIndex) + TotalLength(kept)
                && State() == Fresh(Flatten(pieces), contents).(sent := bytesHaveSend)
              case Other =>
                ok && pieces == old(pieces) && bytesToSend == old(bytesToSend) && iv0 == Segment(0, writeIndex)
              case _ =>
                && (ok <==> old(writeIndex) + TotalLength(kept) + |Form(verdict)| <= WRITE_BUFFER_SIZE - 2)
                && pieces == old(pieces) + kept + (if ok then [Form(verdict)] else [])
                && bytesToSend == old(bytesToSend) && iv0 == (if ok then Segment(0, writeIndex) else old(iv0))
      ensures !verdict.FileRequest? ==> file == old(file) && iv1 == old(iv1)
      ensures old(writeIndex) == 0 && |contentType| <= 100 && |contents| <= 0x7fff_ffff ==>
                ok && Kept(0, ResponseHead(verdict, contents, contentType, linger)) ==
                      ResponseHead(verdict, contents, contentType, linger)
      ensures old(writeIndex) == 0 && |contentType| <= 100 && |contents| <= 0x7fff_ffff &&
              Unbroken(contentType) && !verdict.Other? ==>
                IsResponse(writeBuf[..writeIndex], verdict,
                           if verdict.FileRequest? then |contents| else |Form(verdict)|, contentType, linger)
    {
      hide *;
      ghost var before := pieces;
      if writeIndex == 0 && |contentType| <= 100 && |contents| <= 0x7fff_ffff {
        ResponseIsShort(verdict, contents, contentType, linger);
        PrintedIs();
        if Unbroken(contentType) && !verdict.Other? {
          PrintedReads(before, verdict, contents, contentType, linger);
        }
      }
      match verdict {
        case FileRequest =>
          PrintFile(ResponseHead(verdict, contents, contentType, linger), contents);
          ok := true;
        case Other =>
          DescribeHead();
          ok := true;
        case _ =>
          ok := PrintFailure(ResponseHead(verdict, contents, contentType, linger), Form(verdict));
      }
      PrintedIs();
    }

    lemma PrintedIs()
      requires Printed()
      ensures writeIndex <= writeBuf.Length && writeBuf[..writeIndex] == Flatten(pieces)
      ensures writeIndex == 0 ==> Flatten(pieces) == ""
    {
    }

    /** The case of a file. */
    method PrintFile(head: seq<string>, contents: string)
      requires Printed()
      modifies this`writeIndex, this`pieces, this`file, this`iv0, this`iv1, this`bytesToSend, writeBuf
      ensures Printed() && pieces == old(pieces) + Kept(old(writeIndex), head)
      ensures State() == Fresh(Flatten(pieces), contents).(sent := bytesHaveSend)
      ensures writeIndex == old(writeIndex) + TotalLength(Kept(old(writeIndex), head))
    {
      hide Flatten, Kept, TotalLength;
      AddAll(head);
      file := contents;
      iv0, iv1 := Segment(0, writeIndex), Segment(0, |file|);
      bytesToSend := writeIndex + |file|;
    }

    /** The four cases of a failure, with its text. */
    method PrintFailure(head: seq<string>, text: string) returns (ok: bool)
      requires Printed()
      modifies this`writeIndex, this`pieces, this`iv0, writeBuf
      ensures Printed()
      ensures ok <==> old(writeIndex) + TotalLength(Kept(old(writeIndex), head)) + |text| <= WRITE_BUFFER_SIZE - 2
      ensures iv0 == if ok then Segment(0, writeIndex) else old(iv0)
      ensures pieces == old(pieces) + Kept(old(writeIndex), head) + (if ok then [text] else [])
    {
      hide Flatten, Kept, TotalLength;
      AddAll(head);
      ok := AddResponse(text);
      if ok {
        DescribeHead();
      }
    }

    method DescribeHead()
      requires Printed()
      modifies this`iv0
      ensures Printed() && iv0 == Segment(0, writeIndex)
    {
      iv0 := Segment(0, writeIndex);
    }

    /** The bookkeeping of write() after a send of `n` bytes. */
    method KeepBooks(n: nat)
      requires writeIndex == |Flatten(pieces)|
      modifies this`iv0, this`iv1, this`bytesHaveSend, this`bytesToSend
      ensures State() == AfterSend(old(State()), n)
    {
      hide Flatten;
      bytesHaveSend := bytesHaveSend + n;
      bytesToSend := bytesToSend - n;
      if bytesHaveSend >= iv0.len {
        iv0 := iv0.(len := 0);
        iv1 := Segment(bytesHaveSend - writeIndex, bytesToSend);
      } else {
        iv0 := Segment(bytesHaveSend, iv0.len - n);
      }
    }

    /** The loop of write(): send, keep the books, until drained, blocked or broken. */
    method SendLoop(results: seq<WritevResult>) returns (end: SendEnd, ghost ns: seq<nat>)
      requires Printed() && Accounted(State()) && bytesToSend > 0
      modifies this`iv0, this`iv1, this`bytesHaveSend, this`bytesToSend, this`wire
      ensures State() == SendAll(old(State()), ns) && Accounted(State())
      ensures wire == old(wire) + WireOf(old(State()), ns) && Total(ns) == old(bytesToSend) - bytesToSend
      ensures Explains(results, old(bytesToSend), ns, end)
      ensures end.Drained? <==> bytesToSend == 0
    {
      hide WireOf, SendAll, Total, Flatten, AfterSend, Taken;
      ghost var start := State();
      ns := [];
      RunEmpty(start);
      var i := 0;
      while i < |results|
        invariant 0 <= i <= |results|
        invariant State() == SendAll(start, ns) && Accounted(State()) && bytesToSend > 0
        invariant wire == old(wire) + WireOf(start, ns)
        invariant Total(ns) == old(bytesToSend) - bytesToSend
        invariant |ns| == i
        invariant forall j :: 0 <= j < i ==>
                    && Total(ns[..j]) < old(bytesToSend) && results[j].Took?
                    && ns[j] == Min(results[j].n, old(bytesToSend) - Total(ns[..j]))
      {
        var result := results[i];
        if result.Again? {
          return Blocked, ns;
        } else if result.Error? {
          return Broken, ns;
        }
        var n := if result.n <= bytesToSend then result.n else bytesToSend;
        SendAccounts(State(), n);
        RunSnoc(start, ns, n);
        ExplainsMore(results, old(bytesToSend), ns, n);
        wire := wire + Taken(State(), n);
        ns := ns + [n];
        KeepBooks(n);
        if bytesToSend <= 0 {
          return Drained, ns;
        }
        i := i + 1;
      }
      return Blocked, ns;
    }

    /** write(), on a response described by an earlier process_write: `results` are what the calls of
        writev return, and a list that runs out stands for a socket that would block. */
    method Write(results: seq<WritevResult>) returns (ok: bool, end: SendEnd, ghost ns: seq<nat>)
      requires Printed() && bytesToSend >= 0 && (bytesToSend > 0 ==> Accounted(State()))
      modifies this, writeBuf
      ensures Printed()
      ensures Total(ns) <= old(bytesToSend) && (end.Drained? <==> Total(ns) == old(bytesToSend))
      ensures Explains(results, old(bytesToSend), ns, end)
      ensures linger == (old(linger) && !(end.Drained? && ok))
      ensures match end
              case Drained => ok == (old(bytesToSend) == 0 || old(linger)) && armed == In
              case Blocked => ok && armed == Out && bytesToSend > 0
              case Broken => !ok && armed == old(armed) && bytesToSend > 0
      ensures if end.Drained? && ok then pieces == [] && wire == "" && bytesHaveSend == bytesToSend == 0
              else State() == SendAll(old(State()), ns) && Accounted(State()) &&
                   wire == old(wire) + WireOf(old(State()), ns)
      ensures old(Accounted(State()) && Aligned(State()) && Faithful(State(), wire)) &&
              !AnyMisjudged(|old(State()).header|, old(bytesHaveSend), ns) ==>
                if end.Drained? then old(wire) + WireOf(old(State()), ns) == old(State()).header + old(file)
                else Aligned(State()) && Faithful(State(), wire)
    {
      hide AfterSend, WireOf, SendAll, Total, AnyMisjudged, Flatten, Faithful, Aligned;
      if bytesToSend == 0 {
        RunEmpty(State());
        armed := In;
        Init();
        end, ns := Drained, [];
        ghost var m := old(State());
        if Accounted(m) && Aligned(m) && Faithful(m, old(wire)) && !AnyMisjudged(|m.header|, m.sent, []) {
          DrainedMeansAll(m, old(wire), []);
        }
        return true, Drained, [];
      }
      end, ns := SendLoop(results);
      ghost var m := old(State());
      if Aligned(m) && Faithful(m, old(wire)) && !AnyMisjudged(|m.header|, m.sent, ns) {
        RunExact(m, old(wire), ns);
        if end.Drained? {
          DrainedMeansAll(m, old(wire), ns);
        }
      }
      match end {
        case Blocked =>
          armed := Out;
          ok := true;
        case Broken =>
          ok := false;
        case Drained =>
          armed := In;
          ok := linger;
          if linger {
            Init();
          }
      }
    }
  }

  /** A failure response is printed and then dropped: the next write() sends none of it and starts
      over, because nothing has been declared to be sent. */
  method FailureIsNotSent(conn: HttpResponder, verdict: Verdict, contentType: string, results: seq<WritevResult>)
    returns (ok: bool, ghost ns: seq<nat>)
    requires conn.Printed() && conn.bytesToSend == 0 && !verdict.FileRequest?
    modifies conn, conn.writeBuf
    ensures ok && Total(ns) == 0 && conn.armed == In && conn.pieces == []
  {
    ok := conn.ProcessWrite(verdict, "", contentType);
    var end;
    ok, end, ns := conn.Write(results);
  }

  lemma {:induction false} KeepsSome(index: nat, texts: seq<string>, i: nat)
    requires i < |texts| && texts[i] != "" && index + |texts[i]| <= WRITE_BUFFER_SIZE - 2
    ensures TotalLength(Kept(index, texts)) > 0
    decreases |texts|
  {
    assert texts[0..] == texts;
    KeptStep(index, texts, 0);
    if i > 0 && |texts[0]| == 0 {
      KeepsSome(index, texts[1..], i - 1);
    } else if i > 0 && index + |texts[0]| > WRITE_BUFFER_SIZE - 2 {
      KeepsSome(index, texts[1..], i - 1);
    }
  }

  lemma BlankLineFits(index: nat, contents: string, contentType: string, linger: bool)
    requires index + 2 <= WRITE_BUFFER_SIZE - 2
    ensures TotalLength(Kept(index, ResponseHead(FileRequest, contents, contentType, linger))) > 0
  {
    KeepsSome(index, ResponseHead(FileRequest, contents, contentType, linger), 4);
  }

  /** Where process_write does fail: in an object that is used again and again without init(). Each
      time a file is asked for and the client hangs up before write(), the head stays in the buffer;
      whatever the file, after finitely many times every failure response is too long. */
  method WornOut(conn: HttpResponder, contents: string, contentType: string, verdict: Verdict)
    returns (lives: nat, ok: bool)
    requires conn.Printed() && !verdict.FileRequest? && !verdict.Other?
    modifies conn, conn.writeBuf
    ensures !ok && conn.Printed() && lives < WRITE_BUFFER_SIZE
  {
    hide Kept, ResponseHead, Flatten, TotalLength, Form;
    lives := 0;
    while conn.writeIndex + 2 <= WRITE_BUFFER_SIZE - 2
      invariant conn.Printed() && lives <= conn.writeIndex
      decreases WRITE_BUFFER_SIZE - conn.writeIndex
    {
      BlankLineFits(conn.writeIndex, contents, contentType, conn.linger);
      ok := conn.ProcessWrite(FileRequest, contents, contentType);
      lives := lives + 1;
    }
    FailuresAreShort(verdict);
    ok := conn.ProcessWrite(verdict, contents, contentType);
  }

  /** A whole file response, from a fresh buffer: process_write, and write() each time the socket has
      become writable again, `rounds` being what writev returns in each. Header and file go out
      unharmed if the response drains and none of all the sends is misjudged; as long as it is
      blocked or if it breaks, what went out and what is still described make up the response. */
  method Respond(conn: HttpResponder, contents: string, contentType: string, rounds: seq<seq<WritevResult>>)
    returns (ok: bool, end: SendEnd,
             ghost header: string, ghost ns: seq<nat>, ghost parts: seq<seq<nat>>, ghost sent: string)
    requires conn.Printed() && conn.pieces == [] && conn.writeIndex == 0 && conn.wire == ""
    requires conn.bytesHaveSend == conn.bytesToSend == 0
    requires |contentType| <= 100 && |contents| <= 0x7fff_ffff
    modifies conn, conn.writeBuf
    ensures header == Flatten(ResponseHead(FileRequest, contents, contentType, old(conn.linger)))
    ensures Unbroken(contentType) ==> IsResponse(header, FileRequest, |contents|, contentType, old(conn.linger))
    ensures ns == Joined(parts) && AllExplained(rounds, |header| + |contents|, parts, end)
    ensures sent == WireOf(Fresh(header, contents), ns) && Total(ns) <= |header| + |contents|
    ensures end.Drained? <==> Total(ns) == |header| + |contents|
    ensures ok == if end.Drained? then old(conn.linger) else end.Blocked?
    ensures rounds != [] && ok ==> conn.armed == if end.Drained? then In else Out
    ensures RunFaithful(Fresh(header, contents), "", ns) <==> !AnyMisjudged(|header|, 0, ns)
    ensures !AnyMisjudged(|header|, 0, ns) ==>
              if end.Drained? then sent == header + contents
              else Faithful(conn.State(), sent) && conn.State().header == header && conn.file == contents
  {
    hide AfterSend, WireOf, SendAll, Total, AnyMisjudged, Flatten, Described, ResponseHead, Kept, AllExplained, Joined;
    hide IsResponse, Unbroken;
    ok := conn.ProcessWrite(FileRequest, contents, contentType);
    ghost var m := conn.State();
    header := m.header;
    assert conn.pieces == ResponseHead(FileRequest, contents, contentType, old(conn.linger));
    HeadIsNotEmpty(contents, contentType, old(conn.linger));
    FileHeadReads(contents, contentType, old(conn.linger));
    ok, end, ns, parts, sent := SendRounds(conn, m, rounds);
    RunAccounts(m, ns);
    SendAllKeeps(m, ns);
    AlignedIsFaithful(m, "");
    assert "" + sent == sent;
    RunExact(m, "", ns);
    if !AnyMisjudged(|header|, 0, ns) && end.Drained? {
      DrainedMeansAll(m, "", ns);
    }
  }

  /** write(), each time the socket has become writable again, until it has drained or broken. */
  method SendRounds(conn: HttpResponder, ghost m: Sending, rounds: seq<seq<WritevResult>>)
    returns (ok: bool, end: SendEnd, ghost ns: seq<nat>, ghost parts: seq<seq<nat>>, ghost sent: string)
    requires conn.Printed() && conn.State() == m && Accounted(m) && conn.bytesToSend > 0 && conn.wire == ""
    modifies conn, conn.writeBuf
    ensures ns == Joined(parts) && AllExplained(rounds, m.toSend, parts, end)
    ensures sent == WireOf(m, ns) && Total(ns) <= m.toSend && (end.Drained? <==> Total(ns) == m.toSend)
    ensures !end.Drained? ==> conn.State() == SendAll(m, ns) && Accounted(conn.State())
    ensures ok == if end.Drained? then old(conn.linger) else end.Blocked?
    ensures rounds != [] && ok ==> conn.armed == if end.Drained? then In else Out
  {
    hide AfterSend, WireOf, SendAll, Total, AnyMisjudged, Flatten, Described, Explains, Joined, Faithful, Aligned;
    assert Joined([]) == [] by { NothingJoined(); }
    RunEmpty(m);
    ok, end, ns, sent, parts := true, Blocked, [], "", [];
    var i := 0;
    while i < |rounds| && end.Blocked?
      invariant 0 <= i <= |rounds| && conn.Printed()
      invariant |parts| == i && ns == Joined(parts) && (parts == [] ==> end.Blocked?)
      invariant forall k :: 0 <= k < i ==>
                  Explains(rounds[k], m.toSend - Total(Joined(parts[..k])), parts[k],
                           if k + 1 == i then end else Blocked)
      invariant sent == WireOf(m, ns) && Total(ns) <= m.toSend && (end.Drained? <==> Total(ns) == m.toSend)
      invariant !end.Drained? ==>
                  && conn.State() == SendAll(m, ns) && Accounted(conn.State()) && conn.wire == sent
                  && conn.bytesToSend > 0 && conn.linger == old(conn.linger)
      invariant ok == if end.Drained? then old(conn.linger) else end.Blocked?
      invariant i > 0 && ok ==> conn.armed == if end.Drained? then In else Out
    {
      RunAccounts(m, ns);
      SendAllKeeps(m, ns);
      ghost var part;
      ok, end, part := conn.Write(rounds[i]);
      RunAppend(m, ns, part);
      JoinedSnoc(parts, part);
      parts := parts + [part];
      sent := sent + WireOf(SendAll(m, ns), part);
      ns := ns + part;
      i := i + 1;
    }
  }

  lemma {:induction false} FlattenAppend(first: seq<string>, more: seq<string>)
    ensures Flatten(first + more) == Flatten(first) + Flatten(more)
    decreases |first|
  {
    if first == [] {
      assert first + more == more;
    } else {
      FlattenAppend(first[1..], more);
      assert (first + more)[1..] == first[1..] + more;
    }
  }

  /** What is printed into an empty buffer reads as a response. */
  lemma PrintedReads(before: seq<string>, v: Verdict, contents: string, contentType: string, linger: bool)
    requires Flatten(before) == "" && Unbroken(contentType) && !v.Other?
    ensures var head := ResponseHead(v, contents, contentType, linger);
            if v.FileRequest? then IsResponse(Flatten(before + head), v, |contents|, contentType, linger)
            else IsResponse(Flatten(before + head + [Form(v)]), v, |Form(v)|, contentType, linger)
  {
    var head := ResponseHead(v, contents, contentType, linger);
    ResponseReads(v, contents, contentType, linger);
    FlattenAppend(before, head);
    FlattenSnoc(before + head, Form(v));
    assert v.FileRequest? ==> Form(v) == "";
    hide ResponseHead, Flatten, IsResponse, Form;
    assert "" + Flatten(head) == Flatten(head) && Flatten(head) + "" == Flatten(head);
  }

  lemma NothingJoined()
    ensures Joined([]) == []
  {
  }

  lemma JoinedSnoc(parts: seq<seq<nat>>, part: seq<nat>)
    ensures Joined(parts + [part]) == Joined(parts) + part
    ensures parts[..|parts|] == parts
    ensures forall k :: 0 <= k <= |parts| ==> (parts + [part])[..k] == parts[..k]
  {
    assert (parts + [part])[..|parts|] == parts;
  }

  lemma FileHeadReads(contents: string, contentType: string, linger: bool)
    ensures Unbroken(contentType) ==>
              IsResponse(Flatten(ResponseHead(FileRequest, contents, contentType, linger)), FileRequest, |contents|,
                         contentType, linger)
  {
    if Unbroken(contentType) {
      ResponseReads(FileRequest, contents, contentType, linger);
      var text := Flatten(ResponseHead(FileRequest, contents, contentType, linger));
      assert text + Form(FileRequest) == text;
    }
  }

  lemma {:induction false} RunAppend(m: Sending, ns: seq<nat>, more: seq<nat>)
    ensures SendAll(m, ns + more) == SendAll(SendAll(m, ns), more)
    ensures WireOf(m, ns + more) == WireOf(m, ns) + WireOf(SendAll(m, ns), more)
    ensures Total(ns + more) == Total(ns) + Total(more)
    decreases |ns|
  {
    hide AfterSend, Taken;
    if ns == [] {
      assert ns + more == more;
    } else {
      RunAppend(AfterSend(m, ns[0]), ns[1..], more);
      assert (ns + more)[1..] == ns[1..] + more;
    }
  }

  lemma RunEmpty(m: Sending)
    ensures SendAll(m, []) == m && WireOf(m, []) == "" && Total([]) == 0
  {
  }

  lemma DrainedMeansAll(m: Sending, wire: string, ns: seq<nat>)
    requires Accounted(m) && Aligned(m) && Faithful(m, wire) && Total(ns) == m.toSend
    requires !AnyMisjudged(|m.header|, m.sent, ns)
    ensures wire + WireOf(m, ns) == m.header + m.file
  {
    RunExact(m, wire, ns);
    RunAccounts(m, ns);
    SendAllKeeps(m, ns);
    assert Described(SendAll(m, ns)) == "";
  }
}
