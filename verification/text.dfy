/**
 * The slice of Python's `str` semantics the service relies on: `strip()`,
 * `lower()`, `split(c)[-1]`, lexicographic comparison and truthiness of
 * optional strings.
 */
module Text {
  import opened Options

  /** Python's `str.isspace()` for a single character. */
  predicate IsSpace(c: char) {
    || c == ' '
    || ('\t' <= c <= '\r')
    || ('\U{1c}' <= c <= '\U{1f}')
    || c == '\U{85}' || c == '\U{a0}' || c == '\U{1680}'
    || ('\U{2000}' <= c <= '\U{200a}')
    || c == '\U{2028}' || c == '\U{2029}' || c == '\U{202f}'
    || c == '\U{205f}' || c == '\U{3000}'
  }

  predicate AllSpace(s: string) {
    forall i :: 0 <= i < |s| ==> IsSpace(s[i])
  }

  /** Neither end of `s` is whitespace: `s.strip() == s`. */
  predicate IsTrimmed(s: string) {
    |s| == 0 || (!IsSpace(s[0]) && !IsSpace(s[|s| - 1]))
  }

  /** How many whitespace characters open `s` (what `lstrip()` removes). */
  function Leading(s: string): (n: nat)
    ensures n <= |s|
    ensures forall j :: 0 <= j < n ==> IsSpace(s[j])
    ensures n < |s| ==> !IsSpace(s[n])
  {
    if |s| > 0 && IsSpace(s[0]) then 1 + Leading(s[1..]) else 0
  }

  /** How many whitespace characters close `s[lo..hi]` (what `rstrip()` removes from it). */
  function Trailing(s: string, lo: nat, hi: nat): (n: nat)
    requires lo <= hi <= |s|
    decreases hi - lo
    ensures n <= hi - lo
    ensures forall j :: hi - n <= j < hi ==> IsSpace(s[j])
    ensures hi - n > lo ==> !IsSpace(s[hi - n - 1])
  {
    if hi > lo && IsSpace(s[hi - 1]) then 1 + Trailing(s, lo, hi - 1) else 0
  }

  /**
   * Python's `str.strip()`: the result is the middle of `s` left after
   * removing whitespace from both ends, and has no whitespace at either end.
   */
  function Strip(s: string): (r: string)
    ensures IsTrimmed(r)
    ensures Leading(s) + |r| <= |s| && r == s[Leading(s)..Leading(s) + |r|]
    ensures AllSpace(s[..Leading(s)]) && AllSpace(s[Leading(s) + |r|..])
  {
    var i := Leading(s);
    var e := |s| - Trailing(s, i, |s|);
    s[i..e]
  }

  lemma StripOfTrimmed(s: string)
    requires IsTrimmed(s)
    ensures Strip(s) == s
  {
  }

  /** Whitespace in front of a trimmed text is all that `strip()` removes. */
  lemma StripLeadingSpace(s: string)
    requires IsTrimmed(s) && s != ""
    ensures Strip([' '] + s) == s
    ensures !AllSpace([' '] + s)
  {
    assert ([' '] + s)[1..] == s;
    assert ([' '] + s)[1] == s[0];
  }

  /** `s.strip()` is empty exactly when `s` is blank. */
  lemma StripEmptyIffBlank(s: string)
    ensures Strip(s) == [] <==> AllSpace(s)
  {
    var r := Strip(s);
    var i := Leading(s);
    if r == [] {
      assert s[..i] == s;
    }
  }

  /** Stripping removes whitespace only, so a visible character survives it. */
  lemma StripKeepsVisible(s: string, c: char)
    requires !IsSpace(c)
    ensures c in Strip(s) <==> c in s
  {
    VisibleSurvivesStrip(s, c);
  }

  lemma VisibleSurvivesStrip(s: string, c: char)
    requires !IsSpace(c)
    ensures c in s ==> c in Strip(s)
  {
    if c in s {
      var k :| 0 <= k < |s| && s[k] == c;
      var i := Leading(s);
      var r := Strip(s);
      if i <= k < i + |r| {
        assert r[k - i] == c;
      }
    }
  }

  /** Python's `str.lower()` restricted to ASCII letters. */
  function LowerChar(c: char): char {
    if 'A' <= c <= 'Z' then (c as int + 32) as char else c
  }

  function Lower(s: string): string {
    seq(|s|, i requires 0 <= i < |s| => LowerChar(s[i]))
  }

  predicate IsLowercase(s: string) {
    forall i :: 0 <= i < |s| ==> !('A' <= s[i] <= 'Z')
  }

  lemma LowerIsLowercase(s: string)
    ensures IsLowercase(Lower(s))
  {
  }

  lemma LowerOfLowercase(s: string)
    requires IsLowercase(s)
    ensures Lower(s) == s
  {
  }

  /** Case folding changes letters only, so it keeps a string trimmed. */
  lemma LowerKeepsTrimmed(s: string)
    requires IsTrimmed(s)
    ensures IsTrimmed(Lower(s))
  {
  }

  /** A character that is not a letter is in `Lower(s)` exactly when it is in `s`. */
  lemma LowerKeepsSymbol(s: string, c: char)
    requires !('A' <= c <= 'Z') && !('a' <= c <= 'z')
    ensures c in Lower(s) <==> c in s
  {
    if c in s {
      var k :| 0 <= k < |s| && s[k] == c;
      assert Lower(s)[k] == c;
    }
    if c in Lower(s) {
      var k :| 0 <= k < |s| && Lower(s)[k] == c;
      assert s[k] == c;
    }
  }

  /** The text after the last `c` in `s`: Python's `s.split(c)[-1]`. */
  function AfterLast(s: string, c: char): (r: string)
    ensures |r| <= |s| && r == s[|s| - |r|..]
    ensures c !in r
    ensures |r| < |s| ==> s[|s| - |r| - 1] == c
  {
    if |s| == 0 then []
    else if s[|s| - 1] == c then []
    else
      var r := AfterLast(s[..|s| - 1], c);
      assert s[..|s| - 1][|s| - 1 - |r|..] + [s[|s| - 1]] == s[|s| - 1 - |r|..];
      r + [s[|s| - 1]]
  }

  /** Python's `x or ""` for an optional string. */
  function OrEmpty(o: Option<string>): string {
    o.GetOr("")
  }

  /** Python truthiness of an optional string: present and non-empty. */
  predicate Truthy(o: Option<string>) {
    o.Some? && o.value != ""
  }

  /** Python's `x or None` for an optional string: an empty string becomes `None`. */
  function NoneIfEmpty(o: Option<string>): (r: Option<string>)
    ensures Truthy(o) ==> r == o
    ensures !Truthy(o) ==> r.None?
  {
    if Truthy(o) then o else None
  }

  /**
   * Python's `s < t`/`s <= t` on strings: lexicographic by code point, which is
   * also the order DynamoDB uses on UTF-8 sort keys.
   */
  predicate LexLe(a: string, b: string) {
    |a| == 0 || (|b| > 0 && (a[0] < b[0] || (a[0] == b[0] && LexLe(a[1..], b[1..]))))
  }

  lemma {:induction false} LexLeReflexive(a: string)
    ensures LexLe(a, a)
  {
    if |a| > 0 {
      LexLeReflexive(a[1..]);
    }
  }

  lemma {:induction false} LexLeTotal(a: string, b: string)
    ensures LexLe(a, b) || LexLe(b, a)
  {
    if |a| > 0 && |b| > 0 && a[0] == b[0] {
      LexLeTotal(a[1..], b[1..]);
    }
  }

  lemma {:induction false} LexLeTransitive(a: string, b: string, c: string)
    requires LexLe(a, b) && LexLe(b, c)
    ensures LexLe(a, c)
  {
    if |a| > 0 && a[0] == b[0] && b[0] == c[0] {
      LexLeTransitive(a[1..], b[1..], c[1..]);
    }
  }

  /** Decimal rendering of a natural number, as an f-string prints it. */
  function NatToDecimal(n: nat): string
    decreases n
  {
    if n < 10 then [DigitChar(n)] else NatToDecimal(n / 10) + [DigitChar(n % 10)]
  }

  function DigitChar(d: nat): char
    requires d < 10
  {
    ('0' as int + d) as char
  }
}
