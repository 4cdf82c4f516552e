/** The text of a response, and what a client reads in it. */
module ResponseTexts {
  import opened CStrings
  import opened RequestGrammar
  import Spec = RequestSpec
  import Decimal

  // ---- what is printed -----------------------------------------------------------------------

  datatype Verdict = FileRequest | InternalError | BadRequest | NoResource | Forbidden | Other

  function Status(v: Verdict): nat {
    match v
    case InternalError => 500
    case BadRequest => 400
    case NoResource => 404
    case Forbidden => 403
    case _ => 200
  }

  function Title(v: Verdict): string {
    match v
    case InternalError => "Internal Error"
    case BadRequest => "Bad Request"
    case NoResource => "Not Found"
    case Forbidden => "Forbidden"
    case _ => "OK"
  }

  function Form(v: Verdict): string {
    match v
    case InternalError => "There was an unusual problem serving the requested file.\n"
    case BadRequest => "Your request has bad syntax or is inherently impossible to satisfy.\n"
    case NoResource => "The requested file was not found on this server.\n"
    case Forbidden => "You do not have permission to get file from this server.\n"
    case _ => ""
  }

  function HeadPieces(status: nat, title: string, length: nat, contentType: string, linger: bool): seq<string> {
    [StatusText(status, title) + CRLF, LengthText(length) + CRLF, TypeText(contentType) + CRLF,
     LingerText(linger) + CRLF, CRLF]
  }

  /** The head of a file response announces the file, that of a failure response its text. */
  function ResponseHead(v: Verdict, contents: string, contentType: string, linger: bool): seq<string> {
    HeadPieces(Status(v), Title(v), if v.FileRequest? then |contents| else |Form(v)|, contentType, linger)
  }

  function TotalLength(texts: seq<string>): nat {
    if texts == [] then 0 else |texts[0]| + TotalLength(texts[1..])
  }

  function StatusText(status: nat, title: string): string { "HTTP/1.1 " + Decimal.Text(status) + " " + title }
  function LengthText(length: nat): string { "Content-Length: " + Decimal.Text(length) }
  function TypeText(contentType: string): string { "Content-Type: " + contentType }
  function LingerText(linger: bool): string { "Connection:" + if linger then "keep-alive" else "close" }

  lemma LingerWidth(linger: bool)
    ensures |LingerText(linger)| <= 21
  {
  }

  lemma HeadIsShort(status: nat, title: string, length: nat, contentType: string, linger: bool)
    requires status <= 999 && |title| <= 100 && length <= 0x7fff_ffff && |contentType| <= 100
    ensures TotalLength(HeadPieces(status, title, length, contentType, linger)) <= 1000
  {
    Decimal.IntWidth(status);
    Decimal.IntWidth(length);
    assert |StatusText(status, title)| + |LengthText(length)| + |TypeText(contentType)| <= 900;
    LingerWidth(linger);
    hide StatusText, LengthText, TypeText, LingerText;
    var ps := HeadPieces(status, title, length, contentType, linger);
    assert TotalLength(ps[4..]) == |ps[4]| + TotalLength([]) by { assert ps[4..][1..] == []; }
    assert TotalLength(ps[3..]) == |ps[3]| + TotalLength(ps[4..]) by { assert ps[3..][1..] == ps[4..]; }
    assert TotalLength(ps[2..]) == |ps[2]| + TotalLength(ps[3..]) by { assert ps[2..][1..] == ps[3..]; }
  }

  lemma FailuresAreShort(v: Verdict)
    ensures Status(v) <= 999 && |Title(v)| <= 100 && |Form(v)| <= 100
    ensures v.FileRequest? || v.Other? || |Form(v)| >= 2
  {
    FormLength(v);
    hide Form;
  }

  lemma FormLength(v: Verdict)
    ensures match v
            case InternalError => |Form(v)| == 57
            case BadRequest => |Form(v)| == 68
            case NoResource => |Form(v)| == 49
            case Forbidden => |Form(v)| == 57
            case _ => |Form(v)| == 0
  {
  }

  lemma HeadIsNotEmpty(contents: string, contentType: string, linger: bool)
    ensures |Flatten(ResponseHead(FileRequest, contents, contentType, linger))| > 0
  {
  }

  // ---- what is read --------------------------------------------------------------------------

  /** The lines of a head that starts at `i`, up to the first empty one, ... */
  function LinesFrom(s: string, i: nat): seq<string>
    requires i <= |s|
    decreases |s| - i
  {
    match Spec.ScanLine(s, i)
    case Line(e) => if e == i then [""] else [s[i..e]] + LinesFrom(s, e + 2)
    case _ => []
  }

  /** ... and where the head ends. */
  function HeadEnd(s: string, i: nat): (end: nat)
    requires i <= |s|
    ensures i <= end <= |s|
    decreases |s| - i
  {
    match Spec.ScanLine(s, i)
    case Line(e) => if e == i then e + 2 else HeadEnd(s, e + 2)
    case _ => i
  }

  predicate SaysClose(line: string) { StartsWith(line, "Connection:") && SameWord(SkipBlanks(line[11..]), "close") }

  predicate SaysType(line: string, contentType: string) { line == "Content-Type: " + contentType }

  /** A status line with the version, the code and the reason of the verdict. */
  predicate IsStatusLine(line: string, v: Verdict) {
    match v
    case FileRequest => line == "HTTP/1.1 " + "200" + " " + "OK"
    case InternalError => line == "HTTP/1.1 " + "500" + " " + "Internal Error"
    case BadRequest => line == "HTTP/1.1 " + "400" + " " + "Bad Request"
    case NoResource => line == "HTTP/1.1 " + "404" + " " + "Not Found"
    case Forbidden => line == "HTTP/1.1 " + "403" + " " + "Forbidden"
    case Other => false
  }

  /** One line that declares a length, namely that size; one with the type; and a keep-alive line exactly
      if the connection is kept, and a close line otherwise. */
  ghost predicate AreFields(fields: seq<string>, size: nat, contentType: string, linger: bool) {
    && (exists line :: line in fields && SaysType(line, contentType))
    && LengthOf(fields) == size
    && (exists i :: 0 <= i < |fields| && DeclaresLength(fields[i]) &&
          forall j :: 0 <= j < |fields| && j != i ==> !DeclaresLength(fields[j]))
    && ((exists line :: line in fields && Spec.SaysKeepAlive(line)) <==> linger)
    && ((exists line :: line in fields && SaysClose(line)) <==> !linger)
  }

  /** The text of a failure, as long as it is said to be, and nothing in a file response, whose file is
      sent from elsewhere. */
  predicate IsBody(body: string, v: Verdict, size: nat) {
    && body == (match v
                case InternalError => "There was an unusual problem serving the requested file.\n"
                case BadRequest => "Your request has bad syntax or is inherently impossible to satisfy.\n"
                case NoResource => "The requested file was not found on this server.\n"
                case Forbidden => "You do not have permission to get file from this server.\n"
                case _ => "")
    && (!v.FileRequest? ==> |body| == size)
  }

  /** What a client makes of a response with a body of `size` bytes: a head that is ended by its first
      empty line, with a status line and fields, and what is behind it. */
  ghost predicate IsResponse(text: string, v: Verdict, size: nat, contentType: string, linger: bool) {
    var lines := LinesFrom(text, 0);
    && |lines| >= 2 && lines[|lines| - 1] == "" && (forall i :: 0 <= i < |lines| - 1 ==> lines[i] != "")
    && IsStatusLine(lines[0], v) && AreFields(lines[1..], size, contentType, linger)
    && IsBody(text[HeadEnd(text, 0)..], v, size)
  }

  /** Free of line breaks. */
  ghost predicate Unbroken(s: string) { forall c :: c in s ==> c != '\r' && c != '\n' }

  lemma CutOne(s: string, i: nat, line: string, rest: string)
    requires Unbroken(line) && At(s, i, line + CRLF + rest)
    ensures i + |line| + 2 <= |s| && s[i..i + |line|] == line && At(s, i + |line| + 2, rest)
    ensures Spec.ScanLine(s, i) == Spec.Line(i + |line|)
  {
    var e := i + |line|;
    assert forall k :: i <= k < e ==> s[k] == s[i..][k - i] == line[k - i] && line[k - i] in line;
    assert s[e] == s[i..][|line|] == CR && s[e + 1] == s[i..][|line| + 1] == LF;
    FindIs(s, AtEol, i, e);
  }

  /** From `i` on there is just that. */
  ghost predicate At(s: string, i: nat, text: string) { i <= |s| && s[i..] == text }

  lemma CutStep(s: string, i: nat, line: string, rest: string)
    requires Unbroken(line) && At(s, i, line + CRLF + rest)
    ensures var next := i + |line| + 2;
            && i <= next <= |s| && At(s, next, rest)
            && (line == "" ==> LinesFrom(s, i) == [""] && HeadEnd(s, i) == next)
            && (line != "" ==> LinesFrom(s, i) == [line] + LinesFrom(s, next) && HeadEnd(s, i) == HeadEnd(s, next))
  {
    hide Spec.ScanLine, At, Unbroken;
    CutOne(s, i, line, rest);
  }

  /** Unbroken lines, the last of them and only that empty. */
  ghost predicate IsCut(lines: seq<string>) {
    && lines != [] && Unbroken(lines[0])
    && if |lines| == 1 then lines[0] == "" else lines[0] != "" && IsCut(lines[1..])
  }

  /** Such lines are cut apart again. */
  lemma {:induction false} CutPrinted(s: string, i: nat, lines: seq<string>, post: string)
    requires IsCut(lines) && i <= |s| && At(s, i, Spec.Print(lines) + post)
    ensures LinesFrom(s, i) == lines && HeadEnd(s, i) == i + |Spec.Print(lines)|
    decreases |lines|
  {
    hide *;
    IsCutIs(lines);
    PrintFirst(lines, post);
    CutStep(s, i, lines[0], Spec.Print(lines[1..]) + post);
    if |lines| == 1 {
      OneLine(lines);
    } else {
      CutPrinted(s, i + |lines[0]| + 2, lines[1..], post);
      Rejoined(lines, lines[1..]);
    }
  }

  lemma IsCutIs(lines: seq<string>)
    requires IsCut(lines)
    ensures lines != [] && Unbroken(lines[0])
    ensures |lines| == 1 ==> lines[0] == ""
    ensures |lines| > 1 ==> lines[0] != "" && IsCut(lines[1..])
  {
  }

  lemma OneLine(lines: seq<string>)
    requires |lines| == 1
    ensures lines == [lines[0]] && Spec.Print(lines[1..]) == ""
  {
  }

  lemma Rejoined(lines: seq<string>, later: seq<string>)
    requires lines != [] && later == lines[1..]
    ensures [lines[0]] + later == lines
  {
  }

  lemma PrintFirst(lines: seq<string>, post: string)
    requires lines != []
    ensures Spec.Print(lines) + post == lines[0] + CRLF + (Spec.Print(lines[1..]) + post)
    ensures |Spec.Print(lines)| == |lines[0]| + 2 + |Spec.Print(lines[1..])|
  {
    Regroup(lines[0], Spec.Print(lines[1..]), post);
  }

  lemma Regroup(line: string, later: string, post: string)
    ensures line + CRLF + later + post == line + CRLF + (later + post)
    ensures |line + CRLF + later| == |line| + 2 + |later|
  {
  }

  // ---- line by line --------------------------------------------------------------------------

  /** A line that starts with a key has its letters. */
  lemma KeyLetter(line: string, key: string, j: nat)
    requires StartsWith(line, key) && j < |key|
    ensures j < |line| && SameLetter(line[j], key[j])
  {
    assert line[..|key|][j] == line[j];
  }

  lemma CStringIsPrefix(line: string)
    ensures CString(line) <= line
    ensures (forall c :: c in line ==> c != '\0') ==> CString(line) == line
  {
    FindSpec(line, AtNul, 0);
    if forall c :: c in line ==> c != '\0' {
      assert Find(line, AtNul, 0) < |line| ==> line[Find(line, AtNul, 0)] in line;
    }
  }

  lemma OtherField(line: string, key: string, j: nat)
    requires j < |key| && j < |line| && !SameLetter(line[j], key[j])
    ensures !StartsWith(CString(line), key) && !StartsWith(line, key)
  {
    CStringIsPrefix(line);
    if StartsWith(CString(line), key) {
      KeyLetter(CString(line), key, j);
    }
    if StartsWith(line, key) {
      KeyLetter(line, key, j);
    }
  }

  /** The keys, as far as they have to be told apart. */
  predicate Keys(length: string, connection: string, kind: string) {
    && |length| == 15 && length[3] == 't' && length[8] == 'L'
    && |connection| == 11 && connection[3] == 'n'
    && |kind| == 14 && kind[3] == 't' && kind[8] == 'T'
    && (forall c :: c in length || c in connection || c in kind ==> c != '\0' && c != '\r' && c != '\n')
  }

  lemma KeysAre()
    ensures Keys("Content-Length:", "Connection:", "Content-Type: ")
  {
  }

  /** A field is read by its key. */
  lemma FieldLine(key: string, value: string)
    requires forall c :: c in key || c in value ==> c != '\0'
    ensures var line := key + value;
            CString(line) == line && StartsWith(line, key) && line[|key|..] == value
  {
    var line := key + value;
    assert forall c :: c in line ==> c in key || c in value;
    CStringIsPrefix(line);
    assert line[..|key|] == key;
  }

  lemma OneBlank(value: string)
    requires value != "" && !Blank(value[0])
    ensures SkipBlanks(" " + value) == value
  {
    FindIs(" " + value, AtNonBlank, 0, 1);
    assert (" " + value)[1..] == value;
  }

  lemma NoBlank(value: string)
    requires value != "" && !Blank(value[0])
    ensures SkipBlanks(value) == value
  {
    FindIs(value, AtNonBlank, 0, 0);
  }

  lemma DigitsArePlain(n: nat)
    ensures var digits := Decimal.Text(n);
            && (forall c :: c in digits ==> c != '\0' && c != '\r' && c != '\n')
            && digits != "" && '0' <= digits[0] <= '9' && Atol(digits) == n
  {
    var digits := Decimal.Text(n);
    Decimal.TextReads(n);
    Decimal.AtolReads(n, "");
    assert digits + "" == digits && digits[0] in digits;
  }

  /** The length field, with its keys by name. */
  lemma LengthField(length: string, connection: string, kind: string, n: nat)
    requires Keys(length, connection, kind)
    ensures var line := length + (" " + Decimal.Text(n));
            && StartsWith(CString(line), length) && Atol(SkipBlanks(CString(line)[15..])) == n && Unbroken(line)
            && !StartsWith(CString(line), connection) && !StartsWith(line, connection)
  {
    var digits := Decimal.Text(n);
    DigitsArePlain(n);
    var line := length + (" " + digits);
    assert forall c :: c in " " + digits ==> c == ' ' || c in digits;
    assert forall c :: c in line ==> c in length || c in " " + digits;
    FieldLine(length, " " + digits);
    OneBlank(digits);
    assert line[3] == length[3];
    OtherField(line, connection, 3);
  }

  lemma TypeField(length: string, connection: string, kind: string, value: string)
    requires Keys(length, connection, kind) && Unbroken(value)
    ensures var line := kind + value;
            && !StartsWith(CString(line), length) && Unbroken(line)
            && !StartsWith(CString(line), connection) && !StartsWith(line, connection)
  {
    var line := kind + value;
    assert forall c :: c in line ==> c in kind || c in value;
    assert line[3] == kind[3] && line[8] == kind[8];
    OtherField(line, connection, 3);
    OtherField(line, length, 8);
  }

  lemma ConnectionField(length: string, connection: string, kind: string, value: string)
    requires Keys(length, connection, kind) && value != "" && !Blank(value[0])
    requires forall c :: c in value ==> c != '\0' && c != '\r' && c != '\n'
    ensures var line := connection + value;
            && !StartsWith(CString(line), length) && Unbroken(line)
            && CString(line) == line && StartsWith(line, connection) && SkipBlanks(line[11..]) == value
  {
    var line := connection + value;
    assert forall c :: c in line ==> c in connection || c in value;
    FieldLine(connection, value);
    assert line[3] == connection[3];
    OtherField(line, length, 3);
    NoBlank(value);
  }

  lemma LengthIsRead(n: nat)
    ensures var line := LengthText(n);
            && DeclaresLength(line) && Atol(SkipBlanks(CString(line)[15..])) == n
            && !Spec.SaysKeepAlive(line) && !SaysClose(line) && Unbroken(line)
  {
    KeysAre();
    LengthField("Content-Length:", "Connection:", "Content-Type: ", n);
    var line := LengthText(n);
    assert line == "Content-Length:" + (" " + Decimal.Text(n));
    StartsWithIs(CString(line), "Connection:");
    hide LengthText, CString, SkipBlanks, Atol, StartsWith, StartsText, Keys, Unbroken;
  }

  /** A line that is neither a length nor about the connection. */
  predicate Neutral(line: string) {
    !DeclaresLength(line) && !Spec.SaysKeepAlive(line) && !SaysClose(line)
  }

  lemma TypeIsRead(contentType: string)
    requires Unbroken(contentType)
    ensures Neutral(TypeText(contentType)) && Unbroken(TypeText(contentType))
    ensures SaysType(TypeText(contentType), contentType)
  {
    KeysAre();
    TypeField("Content-Length:", "Connection:", "Content-Type: ", contentType);
    var line := TypeText(contentType);
    StartsWithIs(CString(line), "Connection:");
    hide CString, SkipBlanks, StartsWith, StartsText, Keys, Unbroken;
  }

  lemma EmptyIsNeutral()
    ensures Neutral("")
  {
    CStringIsPrefix("");
  }

  lemma ConnectionIsRead(linger: bool)
    ensures var line := LingerText(linger);
            && !DeclaresLength(line) && Unbroken(line)
            && (Spec.SaysKeepAlive(line) <==> linger) && (SaysClose(line) <==> !linger)
  {
    var value := if linger then "keep-alive" else "close";
    KeysAre();
    ValuesDiffer(value);
    ConnectionField("Content-Length:", "Connection:", "Content-Type: ", value);
    var line := LingerText(linger);
    StartsWithIs(line, "Connection:");
    SameWordIs(value, "keep-alive");
    hide LingerText, CString, SkipBlanks, StartsWith, StartsText, SameWord, SameText, Keys, Unbroken;
  }

  lemma ValuesDiffer(value: string)
    requires value == "keep-alive" || value == "close"
    ensures SameWord(value, "keep-alive") <==> value == "keep-alive"
    ensures SameWord(value, "close") <==> value == "close"
    ensures value != "" && !Blank(value[0]) && forall c :: c in value ==> c != '\0' && c != '\r' && c != '\n'
  {
  }

  lemma StatusIsRead(v: Verdict)
    requires !v.Other?
    ensures Unbroken(StatusText(Status(v), Title(v))) && IsStatusLine(StatusText(Status(v), Title(v)), v)
  {
    CodeIs(v);
    StatusIsUnbroken(Status(v), v);
    hide Decimal.Text, Unbroken;
  }

  lemma StatusIsUnbroken(code: nat, v: Verdict)
    ensures Unbroken(StatusText(code, Title(v)))
  {
    TitleIsPlain(v);
    DigitsArePlain(code);
    hide Title, Decimal.Text;
    var prefix, title := "HTTP/1.1 ", Title(v);
    assert forall c :: c in StatusText(code, title) ==>
             c in prefix || c in Decimal.Text(code) || c == ' ' || c in title;
  }

  lemma TitleIsPlain(v: Verdict)
    ensures Unbroken(Title(v)) && Unbroken("HTTP/1.1 ")
  {
  }

  lemma CodeIs(v: Verdict)
    requires !v.Other?
    ensures Decimal.Text(Status(v)) == match v
                                       case FileRequest => "200"
                                       case InternalError => "500"
                                       case BadRequest => "400"
                                       case NoResource => "404"
                                       case Forbidden => "403"
                                       case Other => ""
  {
    ThreeDigits(Status(v));
  }

  lemma ThreeDigits(n: nat)
    requires 100 <= n <= 999
    ensures Decimal.Text(n) == [Decimal.Digit(n / 100), Decimal.Digit(n / 10 % 10), Decimal.Digit(n % 10)]
  {
    assert Decimal.Text(n / 100) == [Decimal.Digit(n / 100)];
    assert n / 10 / 10 == n / 100;
    assert Decimal.Text(n / 10) == Decimal.Text(n / 100) + [Decimal.Digit(n / 10 % 10)];
  }

  // ---- the whole response --------------------------------------------------------------------

  /** The lines of the head, without their ends. */
  function HeadLines(v: Verdict, size: nat, contentType: string, linger: bool): seq<string> {
    [StatusText(Status(v), Title(v)), LengthText(size), TypeText(contentType), LingerText(linger), ""]
  }

  lemma HeadIsPrinted(v: Verdict, contents: string, contentType: string, linger: bool)
    ensures var size := if v.FileRequest? then |contents| else |Form(v)|;
            Flatten(ResponseHead(v, contents, contentType, linger)) ==
            Spec.Print(HeadLines(v, size, contentType, linger))
  {
    hide StatusText, LengthText, TypeText, LingerText, Form, Title, Status;
    var size := if v.FileRequest? then |contents| else |Form(v)|;
    var lines := HeadLines(v, size, contentType, linger);
    var ps := ResponseHead(v, contents, contentType, linger);
    assert "" + CRLF == CRLF;
    SamePrint(ps, lines);
  }

  lemma {:induction false} SamePrint(ps: seq<string>, lines: seq<string>)
    requires |ps| == |lines| && forall i :: 0 <= i < |ps| ==> ps[i] == lines[i] + CRLF
    ensures Flatten(ps) == Spec.Print(lines)
    decreases |ps|
  {
    if ps != [] {
      SamePrint(ps[1..], lines[1..]);
    }
  }

  lemma HeadIsRead(v: Verdict, size: nat, contentType: string, linger: bool, body: string)
    requires !v.Other? && Unbroken(contentType) && IsBody(body, v, size)
    ensures IsResponse(Spec.Print(HeadLines(v, size, contentType, linger)) + body, v, size, contentType, linger)
  {
    hide *;
    var lines := HeadLines(v, size, contentType, linger);
    var text := Spec.Print(lines) + body;
    LinesAreRead(v, size, contentType, linger);
    IsCutEnds(lines);
    assert At(text, 0, text) by { WholeIsAt(text); }
    CutPrinted(text, 0, lines, body);
    assert text[|Spec.Print(lines)|..] == body;
    ResponseIs(text, v, size, contentType, linger);
  }

  lemma WholeIsAt(text: string)
    ensures At(text, 0, text)
  {
  }

  lemma {:induction false} IsCutEnds(lines: seq<string>)
    requires IsCut(lines)
    ensures lines[|lines| - 1] == "" && forall i :: 0 <= i < |lines| - 1 ==> lines[i] != ""
    decreases |lines|
  {
    if |lines| > 1 {
      IsCutEnds(lines[1..]);
    }
  }

  lemma ResponseIs(text: string, v: Verdict, size: nat, contentType: string, linger: bool)
    requires var lines := LinesFrom(text, 0);
             && |lines| >= 2 && lines[|lines| - 1] == "" && (forall i :: 0 <= i < |lines| - 1 ==> lines[i] != "")
             && IsStatusLine(lines[0], v) && AreFields(lines[1..], size, contentType, linger)
             && IsBody(text[HeadEnd(text, 0)..], v, size)
    ensures IsResponse(text, v, size, contentType, linger)
  {
  }

  lemma LinesAreRead(v: Verdict, size: nat, contentType: string, linger: bool)
    requires !v.Other? && Unbroken(contentType)
    ensures var lines := HeadLines(v, size, contentType, linger);
            && |lines| >= 2 && IsCut(lines)
            && IsStatusLine(lines[0], v) && AreFields(lines[1..], size, contentType, linger)
  {
    StatusIsRead(v);
    LengthIsRead(size);
    TypeIsRead(contentType);
    ConnectionIsRead(linger);
    EmptyIsNeutral();
    LinesAreCut(v, size, contentType, linger);
    FieldsAreRead(LengthText(size), TypeText(contentType), LingerText(linger), size, contentType, linger);
    hide StatusText, LengthText, TypeText, LingerText, AreFields, IsStatusLine, IsCut, Unbroken, Neutral;
    hide DeclaresLength, Spec.SaysKeepAlive, SaysClose, SaysType, Status, Title, CString, SkipBlanks, Atol;
    var lines := HeadLines(v, size, contentType, linger);
    assert lines[1..] == [LengthText(size), TypeText(contentType), LingerText(linger), ""];
  }

  lemma LinesAreCut(v: Verdict, size: nat, contentType: string, linger: bool)
    requires Unbroken(StatusText(Status(v), Title(v))) && Unbroken(LengthText(size)) && Unbroken(TypeText(contentType))
    requires Unbroken(LingerText(linger))
    ensures IsCut(HeadLines(v, size, contentType, linger))
  {
    StatusIsThere(v, size, contentType, linger);
    hide StatusText, LengthText, TypeText, LingerText, Status, Title;
    var lines := HeadLines(v, size, contentType, linger);
    assert IsCut(lines[4..]) && lines[3..][1..] == lines[4..] && lines[2..][1..] == lines[3..];
    assert lines[1..][1..] == lines[2..];
    assert IsCut(lines[3..]);
    assert IsCut(lines[2..]);
  }

  /** No field line is empty. */
  lemma StatusIsThere(v: Verdict, n: nat, t: string, l: bool)
    ensures StatusText(Status(v), Title(v)) != "" && LengthText(n) != "" && TypeText(t) != "" && LingerText(l) != ""
  {
  }

  lemma FieldsAreRead(
    length: string, kind: string, connection: string, size: nat, contentType: string, linger: bool)
    requires DeclaresLength(length) && Atol(SkipBlanks(CString(length)[15..])) == size
    requires !Spec.SaysKeepAlive(length) && !SaysClose(length)
    requires Neutral(kind) && Neutral("") && !DeclaresLength(connection) && SaysType(kind, contentType)
    requires (Spec.SaysKeepAlive(connection) <==> linger) && (SaysClose(connection) <==> !linger)
    ensures AreFields([length, kind, connection, ""], size, contentType, linger)
  {
    hide DeclaresLength, Spec.SaysKeepAlive, SaysClose, SaysType;
    var fields := [length, kind, connection, ""];
    assert fields[..3][..2] == fields[..2] && fields[..2][..1] == fields[..1];
    assert LengthOf(fields) == LengthOf(fields[..3]) == LengthOf(fields[..2]) == LengthOf(fields[..1]);
    assert fields[0] == length && fields[1] in fields && fields[2] in fields;
  }

  /** Every response, for every verdict that has one, reads back as it should. */
  lemma ResponseReads(v: Verdict, contents: string, contentType: string, linger: bool)
    requires !v.Other? && Unbroken(contentType)
    ensures IsResponse(Flatten(ResponseHead(v, contents, contentType, linger)) + Form(v), v,
                       if v.FileRequest? then |contents| else |Form(v)|, contentType, linger)
  {
    HeadIsPrinted(v, contents, contentType, linger);
    FormIsBody(v, contents);
    hide *;
    HeadIsRead(v, if v.FileRequest? then |contents| else |Form(v)|, contentType, linger, Form(v));
  }

  lemma FormIsBody(v: Verdict, contents: string)
    requires !v.Other?
    ensures IsBody(Form(v), v, if v.FileRequest? then |contents| else |Form(v)|)
  {
  }
}
