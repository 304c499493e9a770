/**
  Python string operations used by utils/read.py, on Dafny strings
  (sequences of Unicode scalar values; a Python str may also hold lone
  surrogates, which a Dafny char cannot).
*/
module Text {

  /** `s.endswith(suffix)` */
  predicate EndsWith(s: string, suffix: string) {
    |suffix| <= |s| && s[|s| - |suffix|..] == suffix
  }

  /** `s.startswith(prefix)` */
  predicate StartsWith(s: string, prefix: string) {
    |prefix| <= |s| && s[..|prefix|] == prefix
  }

  /** `c.isspace()`: the code points Python treats as whitespace. */
  predicate IsSpace(c: char) {
    ('\t' <= c <= '\r')                      // \t \n \v \f \r
    || ('\U{1C}' <= c <= ' ')                // file/group/record/unit separators, space
    || c == '\U{85}' || c == '\U{A0}' || c == '\U{1680}'
    || ('\U{2000}' <= c <= '\U{200A}')
    || c == '\U{2028}' || c == '\U{2029}' || c == '\U{202F}' || c == '\U{205F}'
    || c == '\U{3000}'
  }

  /** Drops the leading whitespace. */
  function TrimStart(s: string): string {
    if s != [] && IsSpace(s[0]) then TrimStart(s[1..]) else s
  }

  /** Drops the trailing whitespace. */
  function TrimEnd(s: string): string {
    if s != [] && IsSpace(s[|s| - 1]) then TrimEnd(s[..|s| - 1]) else s
  }

  /** What TrimStart leaves is the suffix of `s` after its leading whitespace, starting with a non-space. */
  lemma {:induction false} TrimStartSpec(s: string)
    ensures var r := TrimStart(s);
      |r| <= |s| && r == s[|s| - |r|..]
      && (forall k :: 0 <= k < |s| - |r| ==> IsSpace(s[k]))
      && (r != [] ==> !IsSpace(r[0]))
  {
    if s != [] && IsSpace(s[0]) {
      TrimStartSpec(s[1..]);
      var r := TrimStart(s);
      forall k | 0 < k < |s| - |r| ensures IsSpace(s[k]) {
        assert s[k] == s[1..][k - 1];
      }
    }
  }

  /** What TrimEnd leaves is the prefix of `s` before its trailing whitespace, ending with a non-space. */
  lemma {:induction false} TrimEndSpec(s: string)
    ensures var r := TrimEnd(s);
      |r| <= |s| && r == s[..|r|]
      && (forall k :: |r| <= k < |s| ==> IsSpace(s[k]))
      && (r != [] ==> !IsSpace(r[|r| - 1]))
  {
    if s != [] && IsSpace(s[|s| - 1]) {
      TrimEndSpec(s[..|s| - 1]);
      var r := TrimEnd(s);
      forall k | |r| <= k < |s| - 1 ensures IsSpace(s[k]) {
        assert s[k] == s[..|s| - 1][k];
      }
    }
  }

  /** `s.strip()` with no argument. */
  function Strip(s: string): string {
    TrimEnd(TrimStart(s))
  }

  /**
    Strip(s) is the slice s[i..j] that remains once every leading and every
    trailing whitespace character is cut away, and nothing more is cut.
  */
  lemma StripIsTrimmedSlice(s: string)
    ensures var r, i := Strip(s), |s| - |TrimStart(s)|;
      0 <= i <= |s| - |r| && r == s[i..i + |r|]
        && (forall k :: 0 <= k < i ==> IsSpace(s[k]))
        && (forall k :: i + |r| <= k < |s| ==> IsSpace(s[k]))
    ensures var r := Strip(s);
      r != [] ==> !IsSpace(r[0]) && !IsSpace(r[|r| - 1])
  {
    var t := TrimStart(s);
    var r := TrimEnd(t);
    var i := |s| - |t|;
    TrimStartSpec(s);
    TrimEndSpec(t);
    assert t == s[i..];
    assert r == t[..|r|];
    assert r == s[i..i + |r|];
    forall k | i + |r| <= k < |s| ensures IsSpace(s[k]) {
      assert s[k] == t[k - i];
    }
  }

  /** Stripping twice changes nothing. */
  lemma StripIdempotent(s: string)
    ensures Strip(Strip(s)) == Strip(s)
  {
    StripIsTrimmedSlice(s);
    var r := Strip(s);
    TrimEndSpec(r);
    if r != [] {
      assert !IsSpace(r[0]);
      assert TrimStart(r) == r;
      assert TrimEnd(r) == r;
    }
  }

  /** The ASCII digit for 0 <= d < 10. */
  function Digit(d: nat): (c: char)
    requires d < 10
    ensures '0' <= c <= '9'
  {
    ('0' as int + d) as char
  }

  /** `str(n)` / `f"{n}"` for a non-negative integer. */
  function Decimal(n: nat): string {
    if n < 10 then [Digit(n)] else Decimal(n / 10) + [Digit(n % 10)]
  }

  /** Decimal rendering gives a non-empty run of digits without a leading zero. */
  lemma {:induction false} DecimalDigits(n: nat)
    ensures var r := Decimal(n);
      1 <= |r| && (forall k :: 0 <= k < |r| ==> '0' <= r[k] <= '9') && (|r| > 1 ==> r[0] != '0')
  {
    if n >= 10 {
      DecimalDigits(n / 10);
      var r := Decimal(n);
      assert r[..|r| - 1] == Decimal(n / 10);
      assert forall k :: 0 <= k < |r| - 1 ==> r[k] == Decimal(n / 10)[k];
    }
  }

  /** Reads a run of decimal digits back as a number (callers check that they are digits). */
  function ParseDecimal(s: string): int {
    if s == [] then 0 else 10 * ParseDecimal(s[..|s| - 1]) + (s[|s| - 1] as int - '0' as int)
  }

  /** Decimal rendering loses nothing: parsing it gives the number back. */
  lemma {:induction false} DecimalRoundTrip(n: nat)
    ensures ParseDecimal(Decimal(n)) == n
  {
    if n >= 10 {
      var d := Decimal(n);
      assert d[..|d| - 1] == Decimal(n / 10);
      DecimalRoundTrip(n / 10);
    }
  }

  /**
    Python's ordering of str values: code point by code point, a proper
    prefix before the longer string.
  */
  predicate Le(a: string, b: string) {
    if a == [] then true
    else if b == [] then false
    else if a[0] != b[0] then a[0] < b[0]
    else Le(a[1..], b[1..])
  }

  lemma {:induction false} LeReflexive(a: string)
    ensures Le(a, a)
  {
    if a != [] {
      LeReflexive(a[1..]);
    }
  }

  lemma {:induction false} LeTotal(a: string, b: string)
    ensures Le(a, b) || Le(b, a)
  {
    if a != [] && b != [] && a[0] == b[0] {
      LeTotal(a[1..], b[1..]);
    }
  }

  lemma {:induction false} LeTransitive(a: string, b: string, c: string)
    requires Le(a, b) && Le(b, c)
    ensures Le(a, c)
  {
    if a != [] && b != [] && c != [] && a[0] == b[0] && b[0] == c[0] {
      LeTransitive(a[1..], b[1..], c[1..]);
    }
  }

  lemma {:induction false} LeAntisymmetric(a: string, b: string)
    requires Le(a, b) && Le(b, a)
    ensures a == b
  {
    if a != [] && b != [] {
      LeAntisymmetric(a[1..], b[1..]);
      assert a == [a[0]] + a[1..];
      assert b == [b[0]] + b[1..];
    }
  }
}
