/** The JavaScript string and number primitives that the site's helpers rely on:
    the white-space class shared by `String.prototype.trim` and the regular-expression
    class `\s`, `substring`, `indexOf`/`includes`, a first-occurrence `replace`,
    `endsWith`, and the decimal rendering of integers by `String(n)`.
    Strings are sequences of Unicode code points. */
module JsString {
  import opened Wrappers

  /** WhiteSpace and LineTerminator code points of ECMA-262 (sections 12.2 and 12.3):
      the characters `trim` removes and the regular-expression class `\s` matches. */
  predicate IsJsWhitespace(c: char) {
    || c == '\t' || c == '\n' || c == '\U{B}' || c == '\U{C}' || c == '\r' || c == ' '
    || c == '\U{A0}' || c == '\U{1680}' || ('\U{2000}' <= c <= '\U{200A}')
    || c == '\U{2028}' || c == '\U{2029}' || c == '\U{202F}' || c == '\U{205F}'
    || c == '\U{3000}' || c == '\U{FEFF}'
  }

  predicate IsDigit(c: char) { '0' <= c <= '9' }

  predicate IsAsciiLower(c: char) { 'a' <= c <= 'z' }

  predicate IsAsciiUpper(c: char) { 'A' <= c <= 'Z' }

  predicate HasNoWhitespace(s: string) {
    forall k :: 0 <= k < |s| ==> !IsJsWhitespace(s[k])
  }

  /** Leading white space removed: what is left is a suffix of `s` that starts with
      a non-space character, and everything removed was white space. */
  function TrimStart(s: string): (r: string)
    ensures |r| <= |s| && r == s[|s| - |r|..]
    ensures r != [] ==> !IsJsWhitespace(r[0])
    ensures forall k :: 0 <= k < |s| - |r| ==> IsJsWhitespace(s[k])
  {
    if s != [] && IsJsWhitespace(s[0]) then TrimStart(s[1..]) else s
  }

  /** Trailing white space removed: a prefix of `s` ending in a non-space character,
      everything removed being white space. */
  function TrimEnd(s: string): (r: string)
    ensures |r| <= |s| && r == s[..|r|]
    ensures r != [] ==> !IsJsWhitespace(r[|r| - 1])
    ensures forall k :: |r| <= k < |s| ==> IsJsWhitespace(s[k])
  {
    if s != [] && IsJsWhitespace(s[|s| - 1]) then TrimEnd(s[..|s| - 1]) else s
  }

  /** `r` stands at position `i` of `s`, and everything around it is white space. */
  predicate TrimmedAt(s: string, r: string, i: int) {
    OccursAt(s, r, i)
    && (forall k :: 0 <= k < i ==> IsJsWhitespace(s[k]))
    && (forall k :: i + |r| <= k < |s| ==> IsJsWhitespace(s[k]))
  }

  /** `s.trim()`: the contiguous middle of `s` between its leading and trailing
      white space; only white space is removed. */
  function Trim(s: string): (r: string)
    ensures |r| <= |s|
    ensures exists i :: TrimmedAt(s, r, i)
    ensures r != [] ==> !IsJsWhitespace(r[0]) && !IsJsWhitespace(r[|r| - 1])
  {
    var t := TrimStart(s);
    var r := TrimEnd(t);
    var i := |s| - |t|;
    assert r == s[i..][..|r|];
    assert OccursAt(s, r, i);
    assert forall k :: i + |r| <= k < |s| ==> s[k] == t[k - i];
    assert TrimmedAt(s, r, i);
    r
  }

  /** `Trim`'s contract leaves one answer: any slice with only white space around
      it, and no white space at its ends, is the trim. */
  lemma TrimIsDetermined(s: string, r: string, i: int)
    requires TrimmedAt(s, r, i)
    requires r != [] ==> !IsJsWhitespace(r[0]) && !IsJsWhitespace(r[|r| - 1])
    ensures r == Trim(s)
  {
    var t := Trim(s);
    var j :| TrimmedAt(s, t, j);
    if r != [] && t != [] {
      assert s[i] == r[0] && s[j] == t[0];
      assert i == j;
      assert s[i + |r| - 1] == r[|r| - 1] && s[j + |t| - 1] == t[|t| - 1];
      assert |r| == |t|;
      assert r == s[i..i + |r|] == t;
    } else if r != [] {
      // t is empty, so all of s is white space, r[0] included
      assert false;
    } else if t != [] {
      assert false;
    }
  }

  /** A string without white space is its own trim. */
  lemma TrimOfNoWhitespace(s: string)
    requires HasNoWhitespace(s)
    ensures Trim(s) == s
  {
  }

  function Clamp(x: int, lo: int, hi: int): int
    requires lo <= hi
  {
    if x < lo then lo else if x > hi then hi else x
  }

  function Min(a: int, b: int): int { if a <= b then a else b }

  function Max(a: int, b: int): int { if a <= b then b else a }

  /** `s.substring(start, end)` (ECMA-262 section 22.1.3.25): both bounds are
      clamped to `[0, |s|]` and then swapped if they are out of order. */
  function Substring(s: string, start: int, end: int): (r: string)
    ensures |r| <= |s|
    ensures var a, b := Clamp(start, 0, |s|), Clamp(end, 0, |s|);
            r == s[Min(a, b)..Max(a, b)]
  {
    var a, b := Clamp(start, 0, |s|), Clamp(end, 0, |s|);
    s[Min(a, b)..Max(a, b)]
  }

  /** `s.substring(start)`: the end defaults to the length. */
  function SubstringFrom(s: string, start: int): (r: string)
    ensures r == s[Clamp(start, 0, |s|)..]
  {
    Substring(s, start, |s|)
  }

  predicate OccursAt(s: string, pat: string, k: int) {
    0 <= k && k + |pat| <= |s| && s[k..k + |pat|] == pat
  }

  function IndexFrom(s: string, pat: string, from: nat): (r: Option<nat>)
    ensures r.Some? ==> from <= r.value && OccursAt(s, pat, r.value)
    ensures r.Some? ==> forall k :: from <= k < r.value ==> !OccursAt(s, pat, k)
    ensures r.None? ==> forall k :: from <= k ==> !OccursAt(s, pat, k)
    decreases |s| - from
  {
    if from + |pat| > |s| then None
    else if s[from..from + |pat|] == pat then Some(from)
    else IndexFrom(s, pat, from + 1)
  }

  /** `s.indexOf(pat)`: the first position at which `pat` occurs, if any. */
  function IndexOf(s: string, pat: string): (r: Option<nat>)
    ensures r.Some? ==> OccursAt(s, pat, r.value)
    ensures r.Some? ==> forall k :: 0 <= k < r.value ==> !OccursAt(s, pat, k)
    ensures r.None? <==> forall k :: !OccursAt(s, pat, k)
  {
    IndexFrom(s, pat, 0)
  }

  /** `s.includes(pat)`. */
  predicate Contains(s: string, pat: string) {
    IndexOf(s, pat).Some?
  }

  /** A string containing `pat` still contains it with text added on either side. */
  lemma ContainsInContext(pre: string, s: string, post: string, pat: string)
    requires Contains(s, pat)
    ensures Contains(pre + s + post, pat)
  {
    var i := IndexOf(s, pat).value;
    var t := pre + s + post;
    assert t[|pre| + i..|pre| + i + |pat|] == s[i..i + |pat|];
    assert OccursAt(t, pat, |pre| + i);
  }

  /** `s.replace(pat, rep)` with a string pattern: only the first occurrence is
      replaced. (The replacement texts used by the site contain no `$`, so the
      `$`-substitution patterns of the replacement play no part.) */
  function ReplaceFirst(s: string, pat: string, rep: string): (r: string)
    ensures IndexOf(s, pat).None? ==> r == s
    ensures IndexOf(s, pat).Some? ==>
              var i := IndexOf(s, pat).value;
              r == s[..i] + rep + s[i + |pat|..]
  {
    match IndexOf(s, pat)
    case None => s
    case Some(i) => s[..i] + rep + s[i + |pat|..]
  }

  /** `s.endsWith(suffix)`. */
  predicate EndsWith(s: string, suffix: string) {
    |suffix| <= |s| && s[|s| - |suffix|..] == suffix
  }

  function DigitChar(d: nat): char
    requires d < 10
  {
    ['0', '1', '2', '3', '4', '5', '6', '7', '8', '9'][d]
  }

  function DigitValue(c: char): nat
    requires IsDigit(c)
  {
    (c as int - '0' as int) as nat
  }

  /** The decimal digits of `n` as `String(n)` writes them: at least one digit and
      no leading zero. */
  function NatToString(n: nat): (r: string)
    ensures |r| >= 1
    ensures forall k :: 0 <= k < |r| ==> IsDigit(r[k])
    ensures |r| > 1 ==> r[0] != '0'
  {
    if n < 10 then [DigitChar(n)] else NatToString(n / 10) + [DigitChar(n % 10)]
  }

  /** `String(i)` for an integer below 10^21 in magnitude. */
  function IntToString(i: int): (r: string)
    ensures |r| >= 1
  {
    if i < 0 then "-" + NatToString(-i) else NatToString(i)
  }

  predicate AllDigits(s: string) {
    forall k :: 0 <= k < |s| ==> IsDigit(s[k])
  }

  /** The value a string of decimal digits denotes. */
  function DigitsValue(s: string): nat
    requires AllDigits(s)
  {
    if s == [] then 0 else DigitsValue(s[..|s| - 1]) * 10 + DigitValue(s[|s| - 1])
  }

  /** Reading back the digits `NatToString` writes gives the number again. */
  lemma {:induction false} DigitsValueOfNatToString(n: nat)
    ensures DigitsValue(NatToString(n)) == n
  {
    if n >= 10 {
      DigitsValueOfNatToString(n / 10);
      var front, last := NatToString(n / 10), DigitChar(n % 10);
      assert (front + [last])[..|front|] == front;
      DigitValueOfDigitChar(n % 10);
    } else {
      DigitValueOfDigitChar(n);
      assert [DigitChar(n)][..0] == [];
    }
  }

  lemma DigitValueOfDigitChar(d: nat)
    requires d < 10
    ensures IsDigit(DigitChar(d)) && DigitValue(DigitChar(d)) == d
  {
  }
}
