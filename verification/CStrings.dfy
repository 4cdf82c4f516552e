/** Bytes are modelled as `char`; every result holds for all characters, in particular for the
    256 that a C `char` can hold. The functions below are the C string routines the HTTP parser
    calls, as pure functions of the bytes they look at. */
module CStrings {

  const NUL: char := '\0'
  const CR: char := '\r'
  const LF: char := '\n'
  const CRLF: string := "\r\n"

  predicate IsEol(c: char) { c == CR || c == LF }
  predicate IsBlank(c: char) { c == ' ' || c == '\t' }
  predicate IsSpace(c: char) { c == ' ' || '\t' <= c <= '\r' }
  predicate IsDigit(c: char) { '0' <= c <= '9' }

  /** The sets of bytes that scans stop at. */
  datatype Stop = AtNul | AtEol | AtSlash | AtBlank | AtNonBlank | AtNonSpace {
    predicate Has(c: char) {
      match this
      case AtNul => c == NUL
      case AtEol => IsEol(c)
      case AtSlash => c == '/'
      case AtBlank => IsBlank(c)
      case AtNonBlank => !IsBlank(c)
      case AtNonSpace => !IsSpace(c)
    }
  }

  /** Index of the first byte at or after `i` that is in `p`, or `|s|`. */
  function Find(s: string, p: Stop, i: nat): (r: nat)
    requires i <= |s|
    ensures i <= r <= |s|
    decreases |s| - i
  {
    if i == |s| || p.Has(s[i]) then i else Find(s, p, i + 1)
  }

  /** The stretch of `s` that a scan for `p` passes over. */
  ghost predicate Clear(s: string, p: Stop, i: nat, r: nat) {
    i <= r <= |s| && forall k :: i <= k < r ==> !p.Has(s[k])
  }

  lemma {:induction false} FindSpec(s: string, p: Stop, i: nat)
    requires i <= |s|
    ensures Clear(s, p, i, Find(s, p, i))
    ensures Find(s, p, i) < |s| ==> p.Has(s[Find(s, p, i)])
    decreases |s| - i
  {
    if i < |s| && !p.Has(s[i]) {
      FindSpec(s, p, i + 1);
    }
  }

  /** The C string that starts at index `i` of `s`: everything before the next NUL. */
  function CStringAt(s: string, i: nat): string
    requires i <= |s|
  {
    s[i..Find(s, AtNul, i)]
  }

  function CString(s: string): string
  {
    CStringAt(s, 0)
  }

  /** `Find` only depends on the bytes up to its answer. */
  lemma {:induction false} FindIs(s: string, p: Stop, i: nat, r: nat)
    requires Clear(s, p, i, r)
    requires r < |s| ==> p.Has(s[r])
    ensures Find(s, p, i) == r
    decreases r - i
  {
    if i < r {
      FindIs(s, p, i + 1, r);
    }
  }

  lemma SamePrefix(s: string, t: string, k: nat)
    requires k <= |s| && k <= |t| && s[..k] == t[..k]
    ensures forall j :: 0 <= j < k ==> s[j] == t[j]
  {
  }

  lemma SliceKept(s: string, k: nat, c: char, a: nat, b: nat)
    requires a <= b <= |s| && k < |s| && (k < a || b <= k)
    ensures s[k := c][a..b] == s[a..b]
  {
  }

  lemma SliceOfSlice(s: string, a: nat, b: nat, c: nat)
    requires a <= c <= b <= |s|
    ensures s[a..b][..c - a] == s[a..c]
  {
  }

  lemma SliceOfPrefix(s: string, n: nat, a: nat, b: nat)
    requires a <= b <= n <= |s|
    ensures s[..n][a..b] == s[a..b]
  {
  }

  /** A C string that ends before `k` is unaffected by what happens from `k` on. */
  lemma CStringStable(s: string, t: string, i: nat, k: nat)
    requires k <= |s| && k <= |t| && s[..k] == t[..k]
    requires i < k && Find(s, AtNul, i) < k
    ensures Find(t, AtNul, i) == Find(s, AtNul, i)
    ensures CStringAt(t, i) == CStringAt(s, i)
  {
    var n := Find(s, AtNul, i);
    FindSpec(s, AtNul, i);
    SamePrefix(s, t, k);
    FindIs(t, AtNul, i, n);
    assert s[i..n] == t[i..n];
  }

  /** Writing a NUL at `m` inside the string at `a` cuts it in two strings, at `a` and at `m + 1`. */
  lemma CutAt(s: string, a: nat, m: nat)
    requires a <= m < |s|
    requires m < Find(s, AtNul, a) < |s|
    ensures CStringAt(s[m := NUL], a) == s[a..m]
    ensures Find(s[m := NUL], AtNul, m + 1) == Find(s, AtNul, a)
    ensures CStringAt(s[m := NUL], m + 1) == s[m + 1..Find(s, AtNul, a)]
    ensures Find(s[m := NUL], AtNul, a) == m
  {
    FindSpec(s, AtNul, a);
    FindIs(s[m := NUL], AtNul, a, m);
    FindIs(s[m := NUL], AtNul, m + 1, Find(s, AtNul, a));
  }

  /** Moving a pointer forward inside its string drops a prefix. */
  lemma SuffixAt(s: string, a: nat, k: nat)
    requires a <= |s| && k <= |CStringAt(s, a)|
    ensures Find(s, AtNul, a + k) == Find(s, AtNul, a)
    ensures CStringAt(s, a + k) == CStringAt(s, a)[k..]
  {
    FindSpec(s, AtNul, a);
    FindIs(s, AtNul, a + k, Find(s, AtNul, a));
  }

  lemma FirstByte(s: string, a: nat, c: char)
    requires a < |s| && c != NUL
    ensures s[a] == c <==> CStringAt(s, a) != [] && CStringAt(s, a)[0] == c
  {
  }

  function Lower(c: char): char {
    if 'A' <= c <= 'Z' then c - 'A' + 'a' else c
  }

  /** strcasecmp(a, b) == 0 */
  predicate SameText(a: string, b: string) {
    |a| == |b| && forall i :: 0 <= i < |a| ==> Lower(a[i]) == Lower(b[i])
  }

  /** strncasecmp(s, prefix, strlen(prefix)) == 0 */
  predicate StartsText(s: string, prefix: string) {
    |prefix| <= |s| && SameText(s[..|prefix|], prefix)
  }

  /** s + strspn(s, " \t") */
  function SkipBlanks(s: string): string
  {
    s[Find(s, AtNonBlank, 0)..]
  }

  function DigitsValue(s: string, acc: nat): nat {
    if s == [] || !IsDigit(s[0]) then acc
    else DigitsValue(s[1..], 10 * acc + (s[0] as int - '0' as int))
  }

  /** atol, over unbounded integers */
  function Atol(s: string): int {
    var t := s[Find(s, AtNonSpace, 0)..];
    if t != [] && t[0] == '-' then -(DigitsValue(t[1..], 0) as int)
    else if t != [] && t[0] == '+' then DigitsValue(t[1..], 0)
    else DigitsValue(t, 0)
  }

  // ---- what atol reads -----------------------------------------------------------------------

  predicate Digits(s: string) { forall c :: c in s ==> '0' <= c <= '9' }

  /** The decimal value of a string of digits, by the place of each. */
  function Value(digits: string): int {
    if digits == "" then 0
    else 10 * Value(digits[..|digits| - 1]) + (digits[|digits| - 1] as int - 48)
  }

  /** White space, by its codes. */
  predicate White(c: char) { c as int == 32 || 9 <= c as int <= 13 }

  lemma {:induction false} DigitsSnoc(s: string, d: char, acc: nat)
    requires Digits(s) && '0' <= d <= '9'
    ensures DigitsValue(s + [d], acc) == 10 * DigitsValue(s, acc) + (d as int - 48)
    decreases |s|
  {
    if s == "" {
      assert "" + [d] == [d] && [d][1..] == "";
      assert DigitsValue([d], acc) == DigitsValue("", 10 * acc + (d as int - 48));
    } else {
      assert s[0] in s && forall c :: c in s[1..] ==> c in s;
      assert (s + [d])[1..] == s[1..] + [d];
      DigitsSnoc(s[1..], d, 10 * acc + (s[0] as int - 48));
    }
  }

  lemma {:induction false} DigitsValueIs(s: string)
    requires Digits(s)
    ensures DigitsValue(s, 0) == Value(s)
    decreases |s|
  {
    if s != "" {
      var init, d := s[..|s| - 1], s[|s| - 1];
      assert d in s && forall c :: c in init ==> c in s;
      DigitsValueIs(init);
      DigitsSnoc(init, d, 0);
      assert s == init + [d];
    }
  }

  lemma {:induction false} DigitsEnd(s: string, rest: string, acc: nat)
    requires Digits(s) && (rest != "" ==> !('0' <= rest[0] <= '9'))
    ensures DigitsValue(s + rest, acc) == DigitsValue(s, acc)
    decreases |s|
  {
    if s == "" {
      assert "" + rest == rest;
    } else {
      assert s[0] in s && forall c :: c in s[1..] ==> c in s;
      assert (s + rest)[1..] == s[1..] + rest;
      DigitsEnd(s[1..], rest, 10 * acc + (s[0] as int - 48));
    }
  }

  /** atol, exactly: white space, a sign or none, digits, and whatever cannot go on with these. */
  lemma AtolIs(spaces: string, sign: string, digits: string, rest: string)
    requires (forall c :: c in spaces ==> White(c)) && sign in ["", "-", "+"] && Digits(digits)
    requires rest != "" ==> !('0' <= rest[0] <= '9')
    requires digits == "" && sign == "" && rest != "" ==> !White(rest[0]) && rest[0] != '-' && rest[0] != '+'
    ensures Atol(spaces + (sign + (digits + rest))) == if sign == "-" then -Value(digits) else Value(digits)
  {
    var number := digits + rest;
    var text := spaces + (sign + number);
    assert forall k :: 0 <= k < |spaces| ==> text[k] == spaces[k] && spaces[k] in spaces;
    assert text[|spaces|..] == sign + number;
    assert digits != "" ==> digits[0] in digits && number[0] == digits[0];
    FindIs(text, AtNonSpace, 0, |spaces|);
    DigitsEnd(digits, rest, 0);
    DigitsValueIs(digits);
    assert sign == "" ==> sign + number == number;
    assert sign != "" ==> (sign + number)[0] == sign[0] && (sign + number)[1..] == number;
    hide DigitsValue, Value, Find;
  }

  /** The concatenation of a list of pieces. */
  function Flatten(chunks: seq<string>): string {
    if chunks == [] then "" else chunks[0] + Flatten(chunks[1..])
  }

  lemma FlattenOne(chunk: string)
    ensures Flatten([chunk]) == chunk
  {
  }

  lemma FlattenTwo(first: string, second: string)
    ensures Flatten([first, second]) == first + second
  {
    assert [first, second][1..] == [second];
    FlattenOne(second);
  }

  lemma {:induction false} FlattenSnoc(chunks: seq<string>, last: string)
    ensures Flatten(chunks + [last]) == Flatten(chunks) + last
  {
    if chunks == [] {
      FlattenOne(last);
      assert chunks + [last] == [last];
    } else {
      FlattenSnoc(chunks[1..], last);
      assert (chunks + [last])[1..] == chunks[1..] + [last];
    }
  }
}
