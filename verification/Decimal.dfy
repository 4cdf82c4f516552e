/** The "%d" rendering of a non-negative integer. */
module Decimal {
  import opened CStrings

  function Digit(d: nat): char
    requires d < 10
  {
    '0' + d as char
  }

  function Text(n: nat): (s: string)
    ensures s != ""
  {
    if n < 10 then [Digit(n)] else Text(n / 10) + [Digit(n % 10)]
  }

  lemma {:induction false} Injective(m: nat, n: nat)
    requires Text(m) == Text(n)
    ensures m == n
  {
    var s := Text(m);
    assert Digit(m % 10) == s[|s| - 1] == Digit(n % 10);
    if m >= 10 && n >= 10 {
      assert s[..|s| - 1] == Text(m / 10) == Text(n / 10);
      Injective(m / 10, n / 10);
    }
  }

  /** The rendering consists of digits, and atol reads the number back, whatever else follows. */
  lemma {:induction false} TextReads(n: nat)
    ensures Digits(Text(n)) && Value(Text(n)) == n
  {
    var s := Text(n);
    if n < 10 {
      assert s[..0] == "";
    } else {
      TextReads(n / 10);
      assert s[..|s| - 1] == Text(n / 10);
    }
  }

  lemma AtolReads(n: nat, rest: string)
    requires rest != "" ==> !('0' <= rest[0] <= '9')
    ensures Atol(Text(n) + rest) == n
  {
    TextReads(n);
    AtolIs("", "", Text(n), rest);
    assert "" + ("" + (Text(n) + rest)) == Text(n) + rest;
  }

  lemma LastDigit(n: nat, d: nat)
    requires n > 0 && d < 10
    ensures Text(10 * n + d) == Text(n) + [Digit(d)]
  {
    assert (10 * n + d) / 10 == n && (10 * n + d) % 10 == d;
  }

  /** A number with at least nine digits. */
  lemma NineDigits(n: nat)
    requires n >= 100_000_000
    ensures |Text(n)| >= 9
  {
    AtLeast(n, 9, 1_000_000_000);
  }

  lemma {:induction false} AtLeast(n: nat, k: nat, bound: nat)
    requires k >= 1 && 10 * n >= bound && bound == Power10(k)
    ensures |Text(n)| >= k
    decreases k
  {
    if k > 1 {
      AtLeast(n / 10, k - 1, Power10(k - 1));
    }
  }

  /** A non-negative 32-bit int takes at most ten digits. */
  lemma IntWidth(n: nat)
    requires n <= 0x7fff_ffff
    ensures |Text(n)| <= 10
  {
    Width(n, 10, 10_000_000_000);
  }

  lemma {:induction false} Width(n: nat, k: nat, bound: nat)
    requires k >= 1 && n < bound && bound == Power10(k)
    ensures |Text(n)| <= k
    decreases k
  {
    if k > 1 && n >= 10 {
      Width(n / 10, k - 1, Power10(k - 1));
    }
  }

  function Power10(k: nat): nat {
    if k == 0 then 1 else 10 * Power10(k - 1)
  }
}
