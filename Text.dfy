/**
 * String helpers shared by both scripts: Python's `str.strip()`, `str.isdigit()`,
 * `int()` on a digit string, `str()` of an integer, `"\n".join(...)`, and the
 * `truncate` helper that both scripts define with the same body.
 */
module Text {
  import opened Wrappers

  /** Python's truthiness of an optional string: `None` and `""` are false. */
  predicate Truthy(s: Option<string>) {
    s.Some? && s.value != ""
  }

  predicate StartsWith(s: string, prefix: string) {
    |prefix| <= |s| && s[..|prefix|] == prefix
  }

  predicate EndsWith(s: string, suffix: string) {
    |suffix| <= |s| && s[|s| - |suffix|..] == suffix
  }

  /** `sub in s` for Python strings. */
  predicate Contains(s: string, sub: string) {
    exists i :: 0 <= i <= |s| && StartsWith(s[i..], sub)
  }

  lemma ContainsAt(s: string, sub: string, i: nat)
    requires i + |sub| <= |s| && s[i..i + |sub|] == sub
    ensures Contains(s, sub)
  {
    assert StartsWith(s[i..], sub);
  }

  lemma ContainsInfix(a: string, b: string, c: string)
    ensures Contains(a + b + c, b)
  {
    var s := a + b + c;
    assert s[|a|..|a| + |b|] == b;
    ContainsAt(s, b, |a|);
  }

  lemma ContainsWithin(s: string, t: string, sub: string)
    requires Contains(t, sub) && Contains(s, t)
    ensures Contains(s, sub)
  {
    var i :| 0 <= i <= |s| && StartsWith(s[i..], t);
    var j :| 0 <= j <= |t| && StartsWith(t[j..], sub);
    assert s[i..i + |t|] == t by {
      assert s[i..][..|t|] == s[i..i + |t|];
    }
    assert t[j..j + |sub|] == sub by {
      assert t[j..][..|sub|] == t[j..j + |sub|];
    }
    assert s[i + j..i + j + |sub|] == sub by {
      assert s[i + j..i + j + |sub|] == s[i..i + |t|][j..j + |sub|];
    }
    ContainsAt(s, sub, i + j);
  }

  // ---------------------------------------------------------------------------
  // Whitespace and str.strip()
  // ---------------------------------------------------------------------------

  /** The characters for which Python's `str.isspace()` holds. */
  predicate IsSpace(c: char) {
    c == ' ' || ('\t' <= c <= '\r') || ('\U{1C}' <= c <= '\U{1F}') ||
    c == '\U{85}' || c == '\U{A0}' || c == '\U{1680}' ||
    ('\U{2000}' <= c <= '\U{200A}') || c == '\U{2028}' || c == '\U{2029}' ||
    c == '\U{202F}' || c == '\U{205F}' || c == '\U{3000}'
  }

  /** Number of whitespace characters at the start of `s`. */
  function LeadingSpaces(s: string): (n: nat)
    ensures n <= |s|
    ensures forall i :: 0 <= i < n ==> IsSpace(s[i])
    ensures n < |s| ==> !IsSpace(s[n])
  {
    if s == [] || !IsSpace(s[0]) then 0 else 1 + LeadingSpaces(s[1..])
  }

  /** Number of whitespace characters at the end of `s`. */
  function TrailingSpaces(s: string): (n: nat)
    ensures n <= |s|
    ensures forall i :: |s| - n <= i < |s| ==> IsSpace(s[i])
    ensures n < |s| ==> !IsSpace(s[|s| - 1 - n])
  {
    if s == [] || !IsSpace(s[|s| - 1]) then 0 else 1 + TrailingSpaces(s[..|s| - 1])
  }

  /** Python's `s.strip()`: the longest infix that neither starts nor ends with whitespace. */
  function Strip(s: string): (r: string)
    ensures |r| <= |s|
    ensures r == [] || (!IsSpace(r[0]) && !IsSpace(r[|r| - 1]))
    ensures LeadingSpaces(s) + |r| <= |s|
    ensures r == s[LeadingSpaces(s)..LeadingSpaces(s) + |r|]
    ensures forall i :: 0 <= i < LeadingSpaces(s) ==> IsSpace(s[i])
    ensures forall i :: LeadingSpaces(s) + |r| <= i < |s| ==> IsSpace(s[i])
    ensures forall c :: c in r ==> c in s
  {
    var a := LeadingSpaces(s);
    var rest := s[a..];
    var b := TrailingSpaces(rest);
    assert forall i :: a + |rest| - b <= i < |s| ==> s[i] == rest[i - a];
    rest[..|rest| - b]
  }

  lemma {:induction false} StripUnchanged(s: string)
    requires s == [] || (!IsSpace(s[0]) && !IsSpace(s[|s| - 1]))
    ensures Strip(s) == s
  {
    if s != [] {
      assert LeadingSpaces(s) == 0;
      assert TrailingSpaces(s) == 0;
    }
  }

  /** `text.replace("\n", " ")` */
  function ReplaceNewlines(text: string): (r: string)
    ensures |r| == |text| && '\n' !in r
    ensures forall i :: 0 <= i < |text| && text[i] != '\n' ==> r[i] == text[i]
    ensures forall i :: 0 <= i < |text| && text[i] == '\n' ==> r[i] == ' '
  {
    seq(|text|, i requires 0 <= i < |text| => if text[i] == '\n' then ' ' else text[i])
  }

  /** The text `truncate` works on: newlines turned into spaces, then stripped. */
  function Clean(text: string): (r: string)
    ensures '\n' !in r
    ensures r == [] || (!IsSpace(r[0]) && !IsSpace(r[|r| - 1]))
  {
    Strip(ReplaceNewlines(text))
  }

  /** Python's slice `s[:k]`, where a negative `k` counts from the end. */
  function PyPrefix(s: string, k: int): (r: string)
    ensures 0 <= k <= |s| ==> r == s[..k]
  {
    if k >= |s| then s
    else if k >= 0 then s[..k]
    else if |s| + k >= 0 then s[..|s| + k]
    else []
  }

  /**
   * `truncate(text, max_len)`: collapse newlines, strip, and cut to `max_len`
   * characters with a trailing "..." when the cleaned text is longer.
   */
  function Truncate(text: string, maxLen: int): (r: string)
    ensures '\n' !in r
    ensures |Clean(text)| <= maxLen ==> r == Clean(text)
    ensures maxLen >= 3 ==> |r| <= maxLen
    ensures maxLen >= 3 && |Clean(text)| > maxLen ==>
              |r| == maxLen && EndsWith(r, "...") && r[..maxLen - 3] == Clean(text)[..maxLen - 3]
  {
    var t := Clean(text);
    if |t| <= maxLen then t else PyPrefix(t, maxLen - 3) + "..."
  }

  /** Truncating a second time changes nothing. */
  lemma TruncateIdempotent(text: string, maxLen: int)
    requires maxLen >= 3
    ensures Truncate(Truncate(text, maxLen), maxLen) == Truncate(text, maxLen)
  {
    var r := Truncate(text, maxLen);
    var c := Clean(text);
    assert ReplaceNewlines(r) == r;
    if |c| > maxLen {
      assert r == c[..maxLen - 3] + "...";
      assert r[|r| - 1] == '.';
      if maxLen > 3 {
        assert r[0] == c[0];
      } else {
        assert r[0] == '.';
      }
    }
    StripUnchanged(r);
  }

  // ---------------------------------------------------------------------------
  // Digits: str.isdigit(), int(), str()
  // ---------------------------------------------------------------------------

  predicate IsDigit(c: char) {
    '0' <= c <= '9'
  }

  predicate AllDigits(s: string) {
    forall i :: 0 <= i < |s| ==> IsDigit(s[i])
  }

  /** Python's `s.isdigit()` on ASCII text: non-empty and all digits. */
  predicate IsDigitString(s: string) {
    s != [] && AllDigits(s)
  }

  function DigitChar(d: nat): (c: char)
    requires d < 10
    ensures IsDigit(c)
  {
    (('0' as int) + d) as char
  }

  /** `int(s)` for a digit string (leading zeros allowed). */
  function DigitsValue(s: string): nat
    requires AllDigits(s)
  {
    if s == [] then 0
    else 10 * DigitsValue(s[..|s| - 1]) + ((s[|s| - 1] as int) - ('0' as int))
  }

  /** `str(n)` for a non-negative integer. */
  function NatToString(n: nat): (r: string)
    ensures IsDigitString(r)
    ensures r[0] == '0' <==> n == 0
    ensures |r| == 1 || r[0] != '0'
  {
    if n < 10 then [DigitChar(n)] else NatToString(n / 10) + [DigitChar(n % 10)]
  }

  /** `str(i)` for any integer. */
  function IntToString(i: int): string {
    if i < 0 then "-" + NatToString(-i) else NatToString(i)
  }

  /** Reading back the decimal text of `n` gives `n`. */
  lemma {:induction false} DigitsRoundTrip(n: nat)
    ensures DigitsValue(NatToString(n)) == n
  {
    if n >= 10 {
      var s := NatToString(n);
      assert s[..|s| - 1] == NatToString(n / 10);
      DigitsRoundTrip(n / 10);
    }
  }

  lemma NatToStringInjective(m: nat, n: nat)
    requires NatToString(m) == NatToString(n)
    ensures m == n
  {
    DigitsRoundTrip(m);
    DigitsRoundTrip(n);
  }

  /** End of the maximal run of digits that starts at `i` (a greedy `\d*`). */
  function DigitRunEnd(s: string, i: nat): (j: nat)
    requires i <= |s|
    ensures i <= j <= |s|
    ensures forall k :: i <= k < j ==> IsDigit(s[k])
    ensures j < |s| ==> !IsDigit(s[j])
    decreases |s| - i
  {
    if i == |s| || !IsDigit(s[i]) then i else DigitRunEnd(s, i + 1)
  }

  /** A run of digits followed by a non-digit (or the end) is exactly what `\d*` takes. */
  lemma DigitRunOf(s: string, i: nat, d: string)
    requires i + |d| <= |s| && s[i..i + |d|] == d && AllDigits(d)
    requires i + |d| == |s| || !IsDigit(s[i + |d|])
    ensures DigitRunEnd(s, i) == i + |d|
  {
  }

  // ---------------------------------------------------------------------------
  // "\n".join(lines)
  // ---------------------------------------------------------------------------

  function Join(lines: seq<string>, sep: string): string {
    if |lines| == 0 then ""
    else if |lines| == 1 then lines[0]
    else lines[0] + sep + Join(lines[1..], sep)
  }

  /** Every joined line occurs in the joined text. */
  lemma {:induction false} JoinContains(lines: seq<string>, sep: string, k: nat)
    requires k < |lines|
    ensures Contains(Join(lines, sep), lines[k])
  {
    var joined := Join(lines, sep);
    if |lines| == 1 {
      assert joined == lines[0];
      ContainsInfix("", lines[0], "");
      assert "" + lines[0] + "" == joined;
    } else {
      var rest := Join(lines[1..], sep);
      assert joined == lines[0] + sep + rest;
      if k == 0 {
        ContainsInfix("", lines[0], sep + rest);
        assert "" + lines[0] + (sep + rest) == joined;
      } else {
        JoinContains(lines[1..], sep, k - 1);
        assert lines[1..][k - 1] == lines[k];
        ContainsInfix(lines[0] + sep, rest, "");
        assert lines[0] + sep + rest + "" == joined;
        ContainsWithin(joined, rest, lines[k]);
      }
    }
  }
}
