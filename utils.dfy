/** The site's string and number helpers: image-URL query building, truncation,
    slug generation, the artisan rating, hash abbreviation, duration text, e-mail
    shape validation, the emptiness test and the select-value lookups. */
module Utils {
  import opened Wrappers
  import opened JsString
  import opened Seqs
  import opened Js
  import Types

  // ---------------------------------------------------------------------------
  // optimizeImage: an image-service URL with a `URLSearchParams` query

  type Byte = b: nat | b < 256

  /** The last `count` six-bit groups of `n`, each as a UTF-8 continuation byte. */
  function ContinuationBytes(n: nat, count: nat): seq<Byte> {
    if count == 0 then [] else ContinuationBytes(n / 64, count - 1) + [0x80 + n % 64]
  }

  /** Bytes of `c` in UTF-8: one byte below U+0080, otherwise a lead byte and one to
      three continuation bytes. */
  function Utf8(c: char): seq<Byte> {
    var n := c as int;
    if n < 0x80 then [n]
    else if n < 0x800 then [0xC0 + n / 64] + ContinuationBytes(n, 1)
    else if n < 0x10000 then [0xE0 + n / 4096] + ContinuationBytes(n, 2)
    else [0xF0 + n / 262144] + ContinuationBytes(n, 3)
  }

  /** The bytes the urlencoded serializer leaves as they are
      (section 5.2 of the WHATWG URL Standard): `*`, `-`, `.`, `_`, digits and
      ASCII letters. */
  predicate IsUrlencodedSafe(b: nat) {
    b == 0x2A || b == 0x2D || b == 0x2E || b == 0x5F
    || (0x30 <= b <= 0x39) || (0x41 <= b <= 0x5A) || (0x61 <= b <= 0x7A)
  }

  function HexDigit(d: nat): char
    requires d < 16
  {
    "0123456789ABCDEF"[d]
  }

  /** One byte as the serializer writes it: a space becomes `+`, a safe byte stays,
      any other byte is percent-encoded with upper-case hex digits. */
  function EncodeByte(b: Byte): (r: string)
    ensures |r| == 1 || (|r| == 3 && r[0] == '%')
  {
    if b == 0x20 then "+"
    else if IsUrlencodedSafe(b) then [b as char]
    else ['%', HexDigit(b / 16), HexDigit(b % 16)]
  }

  function EncodeBytes(bytes: seq<Byte>): string
  {
    if bytes == [] then "" else EncodeByte(bytes[0]) + EncodeBytes(bytes[1..])
  }

  /** One character as the serializer writes it: its UTF-8 bytes, each encoded. */
  function EncodeChar(c: char): string {
    if c as int < 0x80 then EncodeByte(c as int) else EncodeBytes(Utf8(c))
  }

  /** The texts `f` gives the characters of `s`, concatenated in order. */
  function ConcatMap(s: string, f: char -> string): string {
    if s == "" then "" else f(s[0]) + ConcatMap(s[1..], f)
  }

  lemma {:induction false} ConcatMapAppend(a: string, b: string, f: char -> string)
    ensures ConcatMap(a + b, f) == ConcatMap(a, f) + ConcatMap(b, f)
  {
    if a == "" {
      assert a + b == b;
    } else {
      ConcatMapAppend(a[1..], b, f);
      assert (a + b)[0] == a[0] && (a + b)[1..] == a[1..] + b;
      ConcatAssoc(f(a[0]), ConcatMap(a[1..], f), ConcatMap(b, f));
    }
  }

  /** The application/x-www-form-urlencoded byte serializer applied to `s`: every
      character encoded on its own. */
  function FormEncode(s: string): string {
    ConcatMap(s, EncodeChar)
  }

  predicate IsSafeChar(c: char) {
    c as int < 0x80 && IsUrlencodedSafe(c as int)
  }

  predicate IsSafeText(s: string) {
    forall k :: 0 <= k < |s| ==> IsSafeChar(s[k])
  }

  lemma EncodeSafeChar(c: char)
    requires IsSafeChar(c)
    ensures EncodeChar(c) == [c]
  {
  }

  /** Text made of safe characters only is serialized unchanged. */
  lemma {:induction false} FormEncodeOfSafeText(s: string)
    requires IsSafeText(s)
    ensures FormEncode(s) == s
  {
    if s != "" {
      FormEncodeOfSafeText(s[1..]);
      EncodeSafeChar(s[0]);
      assert s == [s[0]] + s[1..];
    }
  }

  /** The decimal text of an integer is serialized unchanged. */
  lemma IntToStringIsSafe(i: int)
    ensures IsSafeText(IntToString(i))
  {
    var t := IntToString(i);
    if i < 0 {
      assert t == "-" + NatToString(-i);
      forall k | 0 <= k < |t| ensures IsSafeChar(t[k]) {
        if k > 0 { assert t[k] == NatToString(-i)[k - 1]; }
      }
    }
  }

  /** One pair as `name=value`, both sides serialized. */
  function SerializePair(p: (string, string)): string {
    FormEncode(p.0) + "=" + FormEncode(p.1)
  }

  /** `name=value` pairs joined by `&`. */
  function Serialize(pairs: seq<(string, string)>): string {
    if pairs == [] then ""
    else if |pairs| == 1 then SerializePair(pairs[0])
    else SerializePair(pairs[0]) + "&" + Serialize(pairs[1..])
  }

  /** The query builder: an ordered list of name/value pairs. */
  class SearchParams {
    var pairs: seq<(string, string)>

    constructor ()
      ensures pairs == []
    {
      pairs := [];
    }

    /** `params.append(name, value)`. */
    method Append(name: string, value: string)
      modifies this
      ensures pairs == old(pairs) + [(name, value)]
    {
      pairs := pairs + [(name, value)];
    }

    /** `params.toString()`. */
    function ToString(): string
      reads this
    {
      Serialize(pairs)
    }
  }

  /** A dimension passes `if (width)` when it is given and not 0. */
  predicate IsTruthyNumber(n: Option<int>) {
    n.Some? && n.value != 0
  }

  /** The pair appended for a dimension: one when it is truthy, none otherwise. */
  function DimensionPairs(name: string, n: Option<int>): seq<(string, string)> {
    if IsTruthyNumber(n) then [(name, IntToString(n.value))] else []
  }

  /** What a dimension contributes to the query: `name=<decimal>&`, or nothing. */
  function DimensionText(name: string, n: Option<int>): string {
    if IsTruthyNumber(n) then name + "=" + IntToString(n.value) + "&" else ""
  }

  /** The fixed tail of every optimized query: `fit=crop`, and `auto=format,compress`
      with its comma escaped. */
  function FixedQuery(): string {
    "fit=crop&auto=format%2Ccompress"
  }

  /** The query of an optimized URL: `w=` and `h=` when those dimensions are
      truthy, then the fixed tail. */
  function ImageQuery(width: Option<int>, height: Option<int>): string {
    DimensionText("w", width) + DimensionText("h", height) + FixedQuery()
  }

  /** The URL `optimizeImage(url, width, height)` returns: the empty string for the
      empty URL; otherwise the URL, `?` and the query. */
  function OptimizedImageUrl(url: string, width: Option<int>, height: Option<int>): string {
    if url == "" then "" else url + "?" + ImageQuery(width, height)
  }

  /** `optimizeImage(url, width, height)`: builds the query with a `SearchParams`
      and serializes it. */
  method OptimizeImage(url: string, width: Option<int>, height: Option<int>) returns (r: string)
    ensures r == OptimizedImageUrl(url, width, height)
  {
    if url == "" {
      return "";
    }
    var params := new SearchParams();
    if IsTruthyNumber(width) {
      params.Append("w", IntToString(width.value));
    }
    ghost var withWidth := params.pairs;
    assert withWidth == DimensionPairs("w", width);
    if IsTruthyNumber(height) {
      params.Append("h", IntToString(height.value));
    }
    ghost var withHeight := params.pairs;
    assert withHeight == withWidth + DimensionPairs("h", height);
    params.Append("fit", "crop");
    params.Append("auto", "format" + "," + "compress");
    AppendTwo(withHeight, ("fit", "crop"), ("auto", "format" + "," + "compress"));
    SerializeImageParams(params.pairs, width, height);
    var query := params.ToString();
    r := url + "?" + query;
  }

  /** The serialized query of `OptimizeImage`'s pairs. */
  lemma SerializeImageParams(pairs: seq<(string, string)>, width: Option<int>, height: Option<int>)
    requires pairs == DimensionPairs("w", width) + DimensionPairs("h", height)
                      + [("fit", "crop"), ("auto", "format" + "," + "compress")]
    ensures Serialize(pairs) == ImageQuery(width, height)
  {
    SerializeFixedParams();
    SafeNames();
    SerializeWithDimensions(pairs, "w", "h", width, height,
                            [("fit", "crop"), ("auto", "format" + "," + "compress")], FixedQuery());
  }

  /** Optional `w` and `h` pairs in front of a serialized non-empty tail. */
  lemma SerializeWithDimensions(pairs: seq<(string, string)>, wName: string, hName: string,
                                width: Option<int>, height: Option<int>,
                                tail: seq<(string, string)>, text: string)
    requires IsSafeText(wName) && IsSafeText(hName)
    requires tail != [] && Serialize(tail) == text
    requires pairs == DimensionPairs(wName, width) + DimensionPairs(hName, height) + tail
    ensures Serialize(pairs) == DimensionText(wName, width) + DimensionText(hName, height) + text
  {
    var hTail := DimensionPairs(hName, height) + tail;
    var hText := DimensionText(hName, height) + text;
    SerializeDimension(hName, height, tail, text);
    SerializeDimension(wName, width, hTail, hText);
    ConcatAssoc(DimensionPairs(wName, width), DimensionPairs(hName, height), tail);
    ConcatAssoc(DimensionText(wName, width), DimensionText(hName, height), text);
  }

  lemma SafeNames()
    ensures IsSafeText("w") && IsSafeText("h")
  {
  }

  /** An optional dimension pair in front of a serialized non-empty tail. */
  lemma SerializeDimension(name: string, n: Option<int>, tail: seq<(string, string)>, text: string)
    requires IsSafeText(name) && tail != [] && Serialize(tail) == text
    ensures DimensionPairs(name, n) + tail != []
    ensures Serialize(DimensionPairs(name, n) + tail) == DimensionText(name, n) + text
  {
    if IsTruthyNumber(n) {
      var v := IntToString(n.value);
      FormEncodeOfSafeText(name);
      IntToStringIsSafe(n.value);
      FormEncodeOfSafeText(v);
      SerializeCons((name, v), tail);
    } else {
      assert DimensionPairs(name, n) + tail == tail;
    }
  }

  /** A pair in front of a non-empty list is joined to it by `&`. */
  lemma SerializeCons(p: (string, string), rest: seq<(string, string)>)
    requires rest != []
    ensures Serialize([p] + rest) == SerializePair(p) + "&" + Serialize(rest)
  {
    assert ([p] + rest)[1..] == rest;
  }

  /** The two fixed pairs: `fit=crop` and `auto=` with the comma of `format,compress`
      percent-encoded. */
  lemma SerializeFixedParams()
    ensures Serialize([("fit", "crop"), ("auto", "format" + "," + "compress")]) == FixedQuery()
  {
    SerializeTwo(("fit", "crop"), ("auto", "format" + "," + "compress"));
    SerializeFitPair();
    SerializeAutoPair();
  }

  lemma SerializeTwo(p: (string, string), q: (string, string))
    ensures Serialize([p, q]) == SerializePair(p) + "&" + SerializePair(q)
  {
    assert [p, q][1..] == [q];
  }

  lemma SerializeFitPair()
    ensures SerializePair(("fit", "crop")) == "fit=crop"
  {
    FormEncodeOfSafeText("fit");
    FormEncodeOfSafeText("crop");
  }

  lemma SerializeAutoPair()
    ensures SerializePair(("auto", "format" + "," + "compress")) == "auto=" + ("format" + "%2C" + "compress")
  {
    EncodeFormatCompress();
    FormEncodeOfSafeText("auto");
  }

  /** The comma is the one character of `format,compress` that is escaped. */
  lemma EncodeFormatCompress()
    ensures FormEncode("format" + "," + "compress") == "format" + "%2C" + "compress"
  {
    FormEncodeConcat("format" + ",", "compress");
    FormEncodeConcat("format", ",");
    SafeWords();
    FormEncodeOfSafeText("format");
    FormEncodeOfSafeText("compress");
    EncodeComma();
  }

  lemma SafeWords()
    ensures IsSafeText("format") && IsSafeText("compress")
  {
    LowerLettersAreSafe("format");
    LowerLettersAreSafe("compress");
  }

  /** Lower-case ASCII letters are never escaped. */
  lemma LowerLettersAreSafe(s: string)
    requires forall k :: 0 <= k < |s| ==> 'a' <= s[k] <= 'z'
    ensures IsSafeText(s)
  {
  }

  lemma EncodeComma()
    ensures FormEncode(",") == "%2C"
  {
    assert EncodeChar(',') == "%2C";
  }

  /** Encoding works character by character, so it distributes over
      concatenation. */
  lemma FormEncodeConcat(a: string, b: string)
    ensures FormEncode(a + b) == FormEncode(a) + FormEncode(b)
  {
    ConcatMapAppend(a, b, EncodeChar);
  }

  // ---------------------------------------------------------------------------
  // truncateText

  /** `truncateText(text, maxLength)`: text that fits is returned as it is; longer
      text keeps at most its first `maxLength` characters (none when `maxLength` is
      negative, as `substring` clamps), trimmed, followed by `...`. What is kept is
      a slice of those characters with only white space around it, and it neither
      starts nor ends with white space. */
  function TruncateText(text: string, maxLength: int): (r: string)
    ensures |text| <= maxLength ==> r == text
    ensures |text| > maxLength ==> |r| >= 3 && r[|r| - 3..] == "..."
    ensures |text| > maxLength ==>
              var kept := r[..|r| - 3];
              (exists i :: TrimmedAt(text[..Max(maxLength, 0)], kept, i))
              && (kept != [] ==> !IsJsWhitespace(kept[0]) && !IsJsWhitespace(kept[|kept| - 1]))
    ensures |r| <= Max(maxLength, 0) + 3 || r == text
  {
    if |text| <= maxLength then text
    else
      var cut := Substring(text, 0, maxLength);
      assert cut == text[..Max(maxLength, 0)];
      MarkTrimmed(cut);
      Trim(cut) + "..."
  }

  /** The trimmed text with `...` after it: the mark is the last three characters
      and what comes before them is the trimmed text. */
  lemma MarkTrimmed(cut: string)
    ensures var r := Trim(cut) + "...";
            && |r| >= 3 && r[|r| - 3..] == "..."
            && r[..|r| - 3] == Trim(cut)
            && |r| <= |cut| + 3
  {
    AppendSlices(Trim(cut), "...");
  }

  /** Text without white space is cut at exactly `maxLength` characters. */
  lemma TruncateWithoutWhitespace(text: string, maxLength: int)
    requires HasNoWhitespace(text) && 0 <= maxLength < |text|
    ensures TruncateText(text, maxLength) == text[..maxLength] + "..."
    ensures |TruncateText(text, maxLength)| == maxLength + 3
  {
    var cut := text[..maxLength];
    assert TruncateText(text, maxLength) == Trim(cut) + "..." by {
      assert Substring(text, 0, maxLength) == cut;
    }
    assert Trim(cut) == cut by {
      TrimOfNoWhitespace(cut);
    }
  }

  // ---------------------------------------------------------------------------
  // generateSlug

  /** `toLowerCase` on one character, for the ASCII letters. */
  function LowerChar(c: char): char {
    if IsAsciiUpper(c) then (c as int + 32) as char else c
  }

  function LowerAscii(s: string): string {
    seq(|s|, k requires 0 <= k < |s| => LowerChar(s[k]))
  }

  /** The class `[a-z0-9 -]` the first replacement keeps. */
  predicate IsSlugInputChar(c: char) {
    IsAsciiLower(c) || IsDigit(c) || c == ' ' || c == '-'
  }

  predicate IsHyphen(c: char) { c == '-' }

  /** `.replace(/[^a-z0-9 -]/g, '')`: every character outside the class removed,
      the others kept in order. */
  function KeepSlugInput(s: string): (r: string)
    ensures |r| <= |s|
    ensures forall k :: 0 <= k < |r| ==> IsSlugInputChar(r[k])
    ensures (forall k :: 0 <= k < |s| ==> IsSlugInputChar(s[k])) ==> r == s
  {
    if s == [] then []
    else (if IsSlugInputChar(s[0]) then [s[0]] else []) + KeepSlugInput(s[1..])
  }

  /** `s` without its leading run of characters satisfying `p`. */
  function DropRun(s: string, p: char -> bool): (r: string)
    ensures |r| <= |s| && r == s[|s| - |r|..]
    ensures forall k :: 0 <= k < |s| - |r| ==> p(s[k])
    ensures r != [] ==> !p(r[0])
    ensures s != [] && p(s[0]) ==> |r| < |s|
  {
    if s != [] && p(s[0]) then DropRun(s[1..], p) else s
  }

  /** No two neighbouring characters both satisfy `p`. */
  predicate NoAdjacent(s: string, p: char -> bool) {
    forall k :: 0 <= k < |s| - 1 ==> !(p(s[k]) && p(s[k + 1]))
  }

  lemma SuffixMembers(s: string, t: string)
    requires |t| <= |s| && t == s[|s| - |t|..]
    ensures forall x :: x in t ==> x in s
  {
    forall x | x in t ensures x in s {
      var k :| 0 <= k < |t| && t[k] == x;
      assert s[|s| - |t| + k] == x;
    }
  }

  /** A global regular-expression replacement `/x+/g` by the single character `c`,
      where `x` is the character class `p`: every maximal run of characters of the
      class becomes one `c`; the other characters stay in order. */
  function CollapseRuns(s: string, p: char -> bool, c: char): (r: string)
    ensures s != [] ==> r != [] && r[0] == (if p(s[0]) then c else s[0])
    ensures forall k :: 0 <= k < |r| ==> r[k] == c || (!p(r[k]) && r[k] in s)
    ensures p(c) ==> NoAdjacent(r, p)
    decreases |s|
  {
    if s == [] then []
    else if p(s[0]) then
      var rest := DropRun(s, p);
      SuffixMembers(s, rest);
      [c] + CollapseRuns(rest, p, c)
    else
      SuffixMembers(s, s[1..]);
      [s[0]] + CollapseRuns(s[1..], p, c)
  }

  /** Text without two neighbouring class characters, whose class characters are
      all `c` already, is left as it is. */
  lemma {:induction false} CollapseRunsOfCollapsed(s: string, p: char -> bool, c: char)
    requires NoAdjacent(s, p)
    requires forall k :: 0 <= k < |s| ==> p(s[k]) ==> s[k] == c
    ensures CollapseRuns(s, p, c) == s
  {
    if s != [] {
      assert NoAdjacent(s[1..], p);
      CollapseRunsOfCollapsed(s[1..], p, c);
      if p(s[0]) {
        assert s[1..] == [] || !p(s[1]);
        assert DropRun(s, p) == DropRun(s[1..], p) == s[1..];
      }
      assert s == [s[0]] + s[1..];
    }
  }

  /** The filter works character by character: filtering a concatenation filters
      each part, keeping their order. */
  lemma {:induction false} KeepSlugInputConcat(a: string, b: string)
    ensures KeepSlugInput(a + b) == KeepSlugInput(a) + KeepSlugInput(b)
  {
    if a == [] {
      assert a + b == b;
    } else {
      KeepSlugInputConcat(a[1..], b);
      var ab := a + b;
      assert ab[0] == a[0] && ab[1..] == a[1..] + b;
      var head := if IsSlugInputChar(a[0]) then [a[0]] else [];
      ConcatAssoc(head, KeepSlugInput(a[1..]), KeepSlugInput(b));
    }
  }

  /** One character is kept exactly when it is in the class `[a-z0-9 -]`. */
  lemma KeepSlugInputOfChar(x: char)
    ensures KeepSlugInput([x]) == if IsSlugInputChar(x) then [x] else []
  {
    assert [x][1..] == [];
  }

  /** Dropping the leading run stops at a character outside the class. */
  lemma {:induction false} DropRunBefore(a: string, t: string, p: char -> bool)
    requires t != [] && !p(t[0])
    ensures DropRun(a + t, p) == DropRun(a, p) + t
  {
    if a == [] {
      assert a + t == t;
    } else {
      var at := a + t;
      assert at[0] == a[0] && at[1..] == a[1..] + t;
      if p(a[0]) {
        DropRunBefore(a[1..], t, p);
      }
    }
  }

  /** A character outside the class is kept in its place: the text on either side
      of it is collapsed on its own. */
  lemma {:induction false} CollapseRunsAround(a: string, x: char, b: string, p: char -> bool, c: char)
    requires !p(x)
    ensures CollapseRuns(a + [x] + b, p, c) == CollapseRuns(a, p, c) + [x] + CollapseRuns(b, p, c)
    decreases |a|
  {
    var s := a + [x] + b;
    if a == [] {
      assert s == [x] + b && s[1..] == b;
    } else if p(a[0]) {
      ConcatAssoc(a, [x], b);
      DropRunBefore(a, [x] + b, p);
      var rest := DropRun(a, p);
      ConcatAssoc(rest, [x], b);
      assert s[0] == a[0];
      CollapseRunsAround(rest, x, b, p, c);
      ConcatAssoc([c], CollapseRuns(rest, p, c) + [x], CollapseRuns(b, p, c));
      ConcatAssoc([c], CollapseRuns(rest, p, c), [x]);
    } else {
      assert s[0] == a[0] && s[1..] == a[1..] + [x] + b;
      CollapseRunsAround(a[1..], x, b, p, c);
      ConcatAssoc([a[0]], CollapseRuns(a[1..], p, c) + [x], CollapseRuns(b, p, c));
      ConcatAssoc([a[0]], CollapseRuns(a[1..], p, c), [x]);
    }
  }

  /** A maximal run of class characters becomes a single `c`. */
  lemma CollapseRunThenRest(run: string, b: string, p: char -> bool, c: char)
    requires run != [] && forall k :: 0 <= k < |run| ==> p(run[k])
    requires b == [] || !p(b[0])
    ensures CollapseRuns(run + b, p, c) == [c] + CollapseRuns(b, p, c)
  {
    var s := run + b;
    assert s[0] == run[0];
    assert DropRun(run, p) == [];
    if b == [] {
      assert s == run;
    } else {
      DropRunBefore(run, b, p);
    }
  }

  /** What a slug is made of: `a`-`z`, `0`-`9` and `-`, with no `--`. */
  predicate IsSlug(s: string) {
    (forall k :: 0 <= k < |s| ==> IsAsciiLower(s[k]) || IsDigit(s[k]) || s[k] == '-')
    && NoAdjacent(s, IsHyphen)
  }

  /** `generateSlug(title)`: lower-case, drop characters outside `[a-z0-9 -]`,
      turn every white-space run into `-`, collapse `-` runs, trim. */
  function GenerateSlug(title: string): (r: string)
    ensures IsSlug(r)
  {
    var kept := KeepSlugInput(LowerAscii(title));
    var hyphenated := CollapseRuns(kept, IsJsWhitespace, '-');
    var collapsed := CollapseRuns(hyphenated, IsHyphen, '-');
    assert forall k :: 0 <= k < |hyphenated| ==> hyphenated[k] == '-' || hyphenated[k] in kept;
    assert forall k :: 0 <= k < |collapsed| ==> IsAsciiLower(collapsed[k]) || IsDigit(collapsed[k]) || collapsed[k] == '-';
    TrimOfNoWhitespace(collapsed);
    Trim(collapsed)
  }

  /** A slug goes through `GenerateSlug` unchanged. */
  lemma SlugIsFixedPoint(s: string)
    requires IsSlug(s)
    ensures GenerateSlug(s) == s
  {
    SlugInputIsKept(s);
    SlugHasNoWhitespace(s);
    CollapseRunsOfCollapsed(s, IsJsWhitespace, '-');
    CollapseRunsOfCollapsed(s, IsHyphen, '-');
    TrimOfNoWhitespace(s);
  }

  lemma SlugInputIsKept(s: string)
    requires IsSlug(s)
    ensures KeepSlugInput(LowerAscii(s)) == s
  {
    assert LowerAscii(s) == s;
    assert forall k :: 0 <= k < |s| ==> IsSlugInputChar(s[k]);
  }

  lemma SlugHasNoWhitespace(s: string)
    requires IsSlug(s)
    ensures HasNoWhitespace(s)
    ensures NoAdjacent(s, IsJsWhitespace)
    ensures forall k :: 0 <= k < |s| ==> IsJsWhitespace(s[k]) ==> s[k] == '-'
  {
  }

  /** Generating a slug from a slug changes nothing. */
  lemma GenerateSlugIsIdempotent(title: string)
    ensures GenerateSlug(GenerateSlug(title)) == GenerateSlug(title)
  {
    SlugIsFixedPoint(GenerateSlug(title));
  }

  // ---------------------------------------------------------------------------
  // calculateArtisanRating

  function MinReal(a: real, b: real): real {
    if a <= b then a else b
  }

  /** The verification bonus: 0.5 for a master artisan, 0.3 for a verified one. */
  function StatusBonus(verificationStatus: string): real {
    if verificationStatus == "master_artisan" then 0.5
    else if verificationStatus == "verified" then 0.3
    else 0.0
  }

  /** The rating in closed form: 3 plus the capped experience, verification and
      portfolio bonuses, capped at 5. Never above 5; at least 3 for non-negative
      experience and product counts. */
  function Rating(experienceYears: real, verificationStatus: string, productCount: real): (r: real)
    ensures r <= 5.0
    ensures experienceYears >= 0.0 && productCount >= 0.0 ==> 3.0 <= r
  {
    MinReal(3.0 + MinReal(experienceYears / 10.0, 1.5) + StatusBonus(verificationStatus)
                + MinReal(productCount / 20.0, 0.5),
            5.0)
  }

  /** `calculateArtisanRating`: the bonuses added to the base one after another. */
  method CalculateArtisanRating(experienceYears: real, verificationStatus: string, productCount: real)
    returns (rating: real)
    ensures rating == Rating(experienceYears, verificationStatus, productCount)
  {
    rating := 3.0;
    rating := rating + MinReal(experienceYears / 10.0, 1.5);
    if verificationStatus == "master_artisan" {
      rating := rating + 0.5;
    } else if verificationStatus == "verified" {
      rating := rating + 0.3;
    }
    rating := rating + MinReal(productCount / 20.0, 0.5);
    rating := MinReal(rating, 5.0);
  }

  /** More experience and more products never lower the rating. */
  lemma RatingIsMonotone(e1: real, e2: real, status: string, p1: real, p2: real)
    requires e1 <= e2 && p1 <= p2
    ensures Rating(e1, status, p1) <= Rating(e2, status, p2)
  {
  }

  /** A master artisan rates at least as high as anyone; a verified artisan at
      least as high as anyone who is not a master artisan. */
  lemma RatingOrdersStatuses(e: real, status: string, p: real)
    ensures Rating(e, "master_artisan", p) >= Rating(e, status, p)
    ensures status != "master_artisan" ==> Rating(e, "verified", p) >= Rating(e, status, p)
  {
  }

  /** Experience beyond fifteen years and more than ten products add nothing. */
  lemma RatingSaturates(e: real, status: string, p: real)
    requires e >= 15.0 && p >= 10.0
    ensures Rating(e, status, p) == MinReal(5.0 + StatusBonus(status), 5.0) == 5.0
  {
  }

  // ---------------------------------------------------------------------------
  // formatBlockchainHash

  /** `formatBlockchainHash(hash, length = 8)`: "Not verified" for the empty hash,
      otherwise the first `length` characters, `...`, and the last four, each
      bound clamped to the hash as `substring` does. */
  function FormatBlockchainHash(hash: string, length: Option<int>): (r: string)
    ensures hash == "" ==> r == "Not verified"
    ensures hash != "" ==>
              r == hash[..Clamp(length.GetOr(8), 0, |hash|)] + "..." + hash[Max(|hash| - 4, 0)..]
  {
    if hash == "" then "Not verified"
    else Substring(hash, 0, length.GetOr(8)) + "..." + SubstringFrom(hash, |hash| - 4)
  }

  /** For a hash of at least four characters and a length that fits, the result is
      the prefix, `...` and the last four characters, `length + 7` in all. */
  lemma HashAbbreviation(hash: string, length: int)
    requires 4 <= |hash| && 0 <= length <= |hash|
    ensures var r := FormatBlockchainHash(hash, Some(length));
            |r| == length + 7 && r[..length] == hash[..length]
            && r[length..length + 3] == "..." && r[length + 3..] == hash[|hash| - 4..]
  {
    var r := FormatBlockchainHash(hash, Some(length));
    assert r == hash[..length] + "..." + hash[|hash| - 4..];
  }

  // ---------------------------------------------------------------------------
  // formatDuration

  lemma {:induction false} MulAtLeast(b: int, d: int)
    requires b > 0 && d >= 1
    ensures b * d >= b
    decreases d
  {
    if d > 1 {
      MulAtLeast(b, d - 1);
      assert b * d == b * (d - 1) + b;
    }
  }

  /** Euclidean division has one remainder: whatever lies in `[0, b)` and differs
      from `x` by a multiple of `b` is `x % b`. */
  lemma DivUnique(x: int, b: int, q: int, m: int)
    requires b > 0 && 0 <= m < b && x == b * q + m
    ensures x % b == m
  {
    var q', m' := x / b, x % b;
    assert b * q + m == b * q' + m';
    if q > q' {
      assert b * q - b * q' == b * (q - q');
      MulAtLeast(b, q - q');
    } else if q < q' {
      assert b * q' - b * q == b * (q' - q);
      MulAtLeast(b, q' - q);
    }
  }

  /** JavaScript's `%`: the remainder has the sign of the dividend and differs from
      it by a multiple of the divisor. */
  function JsRemainder(a: int, b: int): (r: int)
    requires b > 0
    ensures -b < r < b
    ensures a >= 0 ==> r >= 0
    ensures a <= 0 ==> r <= 0
    ensures (a - r) % b == 0
  {
    if a >= 0 then
      DivUnique(a - a % b, b, a / b, 0);
      a % b
    else
      assert a + (-a) % b == b * -((-a) / b);
      DivUnique(a + (-a) % b, b, -((-a) / b), 0);
      -((-a) % b)
  }

  /** `formatDuration(minutes)` for integer minutes: whole hours by floor division,
      the remaining minutes by `%`; the hour part is left out when it is 0 and the
      minute part when the hours are not 0 and the remainder is. */
  function FormatDuration(minutes: int): (r: string)
    ensures |r| >= 2
    ensures r[|r| - 1] == (if minutes / 60 != 0 && JsRemainder(minutes, 60) == 0 then 'h' else 'm')
  {
    var hours := minutes / 60;
    var rest := JsRemainder(minutes, 60);
    if hours == 0 then IntToString(rest) + "m"
    else if rest == 0 then IntToString(hours) + "h"
    else IntToString(hours) + "h " + IntToString(rest) + "m"
  }

  predicate IsNumeral(s: string) {
    s != [] && AllDigits(s)
  }

  /** A numeral as `String(n)` writes a non-negative integer: digits only, and no
      leading zero. */
  predicate IsCanonicalNumeral(s: string) {
    IsNumeral(s) && NatToString(DigitsValue(s)) == s
  }

  lemma CanonicalNatToString(n: nat)
    ensures IsCanonicalNumeral(NatToString(n)) && DigitsValue(NatToString(n)) == n
  {
    DigitsValueOfNatToString(n);
  }

  /** Reads a duration label back, in the three forms `formatDuration` writes:
      `<m>m` with fewer than 60 minutes, `<h>h` with at least one hour, and
      `<h>h <m>m` with at least one hour and 1 to 59 minutes. Numbers are written
      as `String` writes them. */
  function ParseDuration(s: string): Option<nat> {
    if |s| < 2 then None
    else
      var body, unit := s[..|s| - 1], s[|s| - 1];
      if unit == 'h' then
        (if IsCanonicalNumeral(body) && DigitsValue(body) >= 1 then Some(60 * DigitsValue(body)) else None)
      else if unit == 'm' then ParseMinutesPart(body)
      else None
  }

  /** The part of a label before its final `m`: `<m>` or `<h>h <m>`. */
  function ParseMinutesPart(body: string): Option<nat> {
    match IndexOf(body, "h ")
    case None =>
      if IsCanonicalNumeral(body) && DigitsValue(body) < 60 then Some(DigitsValue(body)) else None
    case Some(i) =>
      var hs, ms := body[..i], body[i + 2..];
      if HoursMinutesParts(hs, ms) then Some(60 * DigitsValue(hs) + DigitsValue(ms)) else None
  }

  /** The numbers of an `<h>h <m>m` label: at least one hour and 1 to 59 minutes. */
  predicate HoursMinutesParts(hs: string, ms: string) {
    IsCanonicalNumeral(hs) && IsCanonicalNumeral(ms)
    && DigitsValue(hs) >= 1 && 1 <= DigitsValue(ms) < 60
  }

  /** A run of digits holds no `h `. */
  lemma NoHourMarkInDigits(t: string)
    requires AllDigits(t)
    ensures IndexOf(t, "h ").None?
  {
    forall k ensures !OccursAt(t, "h ", k) {
      if 0 <= k && k + 2 <= |t| {
        assert t[k..k + 2][0] == t[k];
      }
    }
  }

  /** The first `h ` of `<digits>h <rest>` is right after the digits. */
  lemma HourMarkAfterDigits(hs: string, rest: string)
    requires IsNumeral(hs)
    ensures IndexOf(hs + "h " + rest, "h ") == Some(|hs|)
  {
    var body := hs + "h " + rest;
    assert body[|hs|..|hs| + 2] == "h ";
    assert OccursAt(body, "h ", |hs|);
    forall k | 0 <= k < |hs| ensures !OccursAt(body, "h ", k) {
      assert body[k..k + 2][0] == body[k] == hs[k];
    }
  }

  /** Every duration label of a non-negative number of minutes reads back as that
      number. */
  lemma ParseFormatDuration(minutes: nat)
    ensures ParseDuration(FormatDuration(minutes)) == Some(minutes)
  {
    var hours, rest := minutes / 60, minutes % 60;
    assert minutes == 60 * hours + rest;
    assert JsRemainder(minutes, 60) == rest;
    assert IntToString(hours) == NatToString(hours) && IntToString(rest) == NatToString(rest);
    var text := FormatDuration(minutes);
    if hours == 0 {
      assert text == NatToString(rest) + "m";
      ParseMinutesLabel(rest);
    } else if rest == 0 {
      assert text == NatToString(hours) + "h";
      ParseHoursLabel(hours);
    } else {
      assert text == NatToString(hours) + "h " + NatToString(rest) + "m";
      ParseHoursMinutesLabel(hours, rest);
    }
    assert ParseDuration(text) == Some(minutes);
  }

  /** The reader accepts nothing but the labels `formatDuration` writes: the label
      it reads as `n` minutes is the label of `n`. With `ParseFormatDuration`, the
      text of every non-negative count is exactly one of the three forms. */
  lemma ParseDurationReadsOnlyLabels(s: string, n: nat)
    requires ParseDuration(s) == Some(n)
    ensures s == FormatDuration(n)
  {
    var body, unit := s[..|s| - 1], s[|s| - 1];
    assert s == body + [unit];
    if unit == 'h' {
      assert n == 60 * DigitsValue(body);
      HoursLabelIsFormatted(body);
    } else {
      assert unit == 'm' && ParseMinutesPart(body) == Some(n);
      MinutesPartIsFormatted(body, n);
    }
  }

  lemma MinutesPartIsFormatted(body: string, n: nat)
    requires ParseMinutesPart(body) == Some(n)
    ensures body + "m" == FormatDuration(n)
  {
    match IndexOf(body, "h ")
    case None =>
      MinutesLabelIsFormatted(body, n);
    case Some(i) =>
      var hs, ms := body[..i], body[i + 2..];
      assert body[i..i + 2] == "h ";
      assert body == hs + "h " + ms;
      HoursMinutesLabelIsFormatted(hs, ms, n);
  }

  lemma HoursLabelIsFormatted(hs: string)
    requires IsCanonicalNumeral(hs) && DigitsValue(hs) >= 1
    ensures FormatDuration(60 * DigitsValue(hs)) == hs + "h"
  {
    var h := DigitsValue(hs);
    assert (60 * h) / 60 == h && JsRemainder(60 * h, 60) == 0;
  }

  lemma MinutesLabelIsFormatted(ms: string, n: nat)
    requires IsCanonicalNumeral(ms) && n == DigitsValue(ms) < 60
    ensures FormatDuration(n) == ms + "m"
  {
    assert n / 60 == 0 && JsRemainder(n, 60) == n;
  }

  lemma HoursMinutesLabelIsFormatted(hs: string, ms: string, n: nat)
    requires HoursMinutesParts(hs, ms) && n == 60 * DigitsValue(hs) + DigitsValue(ms)
    ensures FormatDuration(n) == hs + "h " + ms + "m"
  {
    var h, m := DigitsValue(hs), DigitsValue(ms);
    assert n / 60 == h && JsRemainder(n, 60) == m;
    assert FormatDuration(n) == IntToString(h) + "h " + IntToString(m) + "m";
    assert IntToString(h) == hs && IntToString(m) == ms;
  }

  lemma ParseMinutesLabel(m: nat)
    requires m < 60
    ensures ParseDuration(NatToString(m) + "m") == Some(m)
  {
    var ms := NatToString(m);
    StripMinuteMark(ms);
    NoHourMarkInDigits(ms);
    CanonicalNatToString(m);
  }

  lemma ParseHoursLabel(h: nat)
    requires h >= 1
    ensures ParseDuration(NatToString(h) + "h") == Some(60 * h)
  {
    var hs := NatToString(h);
    var s := hs + "h";
    assert s[..|s| - 1] == hs;
    CanonicalNatToString(h);
  }

  /** An `<h>h <m>m` label with at least one hour and 1 to 59 minutes reads as
      `60 * h + m`. */
  lemma ParseHoursMinutesLabel(h: nat, m: nat)
    requires h >= 1 && 1 <= m < 60
    ensures ParseDuration(NatToString(h) + "h " + NatToString(m) + "m") == Some(60 * h + m)
  {
    var hs, ms := NatToString(h), NatToString(m);
    var body := hs + "h " + ms;
    StripMinuteMark(body);
    CanonicalNatToString(h);
    CanonicalNatToString(m);
    ParseHoursAndMinutes(hs, ms, h, m);
  }

  /** A label ending in `m` is read by its part before the `m`. */
  lemma StripMinuteMark(body: string)
    requires body != []
    ensures ParseDuration(body + "m") == ParseMinutesPart(body)
  {
    var s := body + "m";
    assert s[..|s| - 1] == body && s[|s| - 1] == 'm';
  }

  /** `<h>h <m>` is read as `60 * h + m`. */
  lemma ParseHoursAndMinutes(hs: string, ms: string, h: nat, m: nat)
    requires HoursMinutesParts(hs, ms) && DigitsValue(hs) == h && DigitsValue(ms) == m
    ensures ParseMinutesPart(hs + "h " + ms) == Some(60 * h + m)
  {
    var body := hs + "h " + ms;
    var i := |hs|;
    HourMarkAfterDigits(hs, ms);
    SplitAround(hs, "h ", ms);
    assert body[..i] == hs && body[i + 2..] == ms;
  }

  // ---------------------------------------------------------------------------
  // isValidEmail

  /** A character of the class `[^\s@]`. */
  predicate IsAddressChar(c: char) {
    !IsJsWhitespace(c) && c != '@'
  }

  /** One or more characters of the class `[^\s@]`. */
  predicate IsAddressPart(s: string) {
    s != [] && forall k :: 0 <= k < |s| ==> IsAddressChar(s[k])
  }

  /** `isValidEmail(email)`: whether `/^[^\s@]+@[^\s@]+\.[^\s@]+$/` matches, decided
      by finding the `@` and then a dot strictly inside the part after it. */
  predicate IsValidEmail(s: string) {
    match IndexOf(s, "@")
    case None => false
    case Some(i) =>
      var local, domain := s[..i], s[i + 1..];
      IsAddressPart(local) && IsAddressPart(domain)
      && exists j :: 0 < j < |domain| - 1 && domain[j] == '.'
  }

  /** `s` is `a@b.c` with three parts of the class `[^\s@]+`. */
  ghost predicate EmailSplit(s: string, a: string, b: string, c: string) {
    IsAddressPart(a) && IsAddressPart(b) && IsAddressPart(c) && s == a + "@" + b + "." + c
  }

  /** The regular expression, read as a pattern over strings. */
  ghost predicate MatchesEmailPattern(s: string) {
    exists a, b, c :: EmailSplit(s, a, b, c)
  }

  /** The first `@` of `a@rest` follows `a` when `a` holds none. */
  lemma AtAfterLocalPart(a: string, rest: string)
    requires IsAddressPart(a)
    ensures IndexOf(a + "@" + rest, "@") == Some(|a|)
  {
    var s := a + "@" + rest;
    assert s[|a|..|a| + 1] == "@";
    assert OccursAt(s, "@", |a|);
    forall k | 0 <= k < |a| ensures !OccursAt(s, "@", k) {
      assert s[k..k + 1][0] == s[k] == a[k];
    }
  }

  /** The decision procedure agrees with the pattern, in both directions. */
  lemma IsValidEmailMatchesPattern(s: string)
    ensures IsValidEmail(s) <==> MatchesEmailPattern(s)
  {
    if IsValidEmail(s) {
      ValidEmailMatches(s);
    }
    if MatchesEmailPattern(s) {
      var a, b, c :| EmailSplit(s, a, b, c);
      PatternIsValidEmail(s, a, b, c);
    }
  }

  lemma ValidEmailMatches(s: string)
    requires IsValidEmail(s)
    ensures MatchesEmailPattern(s)
  {
    var i := IndexOf(s, "@").value;
    var domain := s[i + 1..];
    var j :| 0 < j < |domain| - 1 && domain[j] == '.';
    var a, b, c := s[..i], domain[..j], domain[j + 1..];
    assert s[i] == s[i..i + 1][0] == '@';
    assert domain == b + "." + c;
    assert s == a + "@" + b + "." + c;
    assert EmailSplit(s, a, b, c);
  }

  lemma PatternIsValidEmail(s: string, a: string, b: string, c: string)
    requires EmailSplit(s, a, b, c)
    ensures IsValidEmail(s)
  {
    AtAfterLocalPart(a, b + "." + c);
    assert s == a + "@" + (b + "." + c);
    var domain := s[|a| + 1..];
    assert s[..|a|] == a && domain == b + "." + c;
    assert domain[|b|] == '.';
    assert IsAddressPart(domain) by {
      forall k | 0 <= k < |domain| ensures IsAddressChar(domain[k]) {
        if k < |b| { assert domain[k] == b[k]; }
        else if k > |b| { assert domain[k] == c[k - |b| - 1]; }
      }
    }
  }

  /** A valid address holds exactly one `@`. */
  lemma ValidEmailHasOneAt(s: string)
    requires IsValidEmail(s)
    ensures multiset(s)['@'] == 1
  {
    var i := IndexOf(s, "@").value;
    var local, domain := s[..i], s[i + 1..];
    assert s[i] == s[i..i + 1][0] == '@';
    assert s == local + "@" + domain;
    assert '@' !in local && '@' !in domain;
    assert multiset(s) == multiset(local) + multiset{'@'} + multiset(domain);
  }

  // ---------------------------------------------------------------------------
  // isEmpty

  /** `isEmpty(obj)`: `null` and `undefined` are empty, an array when it has no
      elements, an object when it has no own keys; anything else is not. */
  function IsEmpty(v: JsValue): (r: bool)
    ensures r <==> v == Undefined || v == Null || v == Arr([]) || v == Obj(map[])
  {
    if IsNullish(v) then true
    else if v.Arr? then |v.items| == 0
    else if TypeOf(v) == "object" then
      assert v.Obj?;
      assert |v.props| == 0 <==> v.props == map[] by {
        if |v.props| == 0 { assert v.props.Keys == {}; }
      }
      |v.props| == 0
    else false
  }

  // ---------------------------------------------------------------------------
  // getSkillLevelColor and getDemandLevelIndicator

  const DefaultSkillColor := "text-gray-600 bg-gray-100"

  /** `getSkillLevelColor(level)`: a colour per skill level, grey for anything
      that is not a skill level. */
  function SkillLevelColor(level: string): (r: string)
    ensures r == DefaultSkillColor <==> Types.ParseSkillLevel(level).None?
  {
    match Types.ParseSkillLevel(level)
    case Some(Beginner) => "text-green-600 bg-green-100"
    case Some(Intermediate) => "text-blue-600 bg-blue-100"
    case Some(Advanced) => "text-orange-600 bg-orange-100"
    case Some(MasterClass) => "text-purple-600 bg-purple-100"
    case None => DefaultSkillColor
  }

  /** Different skill levels get different colours. */
  lemma SkillLevelColorsDiffer(x: Types.SkillLevel, y: Types.SkillLevel)
    requires x != y
    ensures SkillLevelColor(x.Literal()) != SkillLevelColor(y.Literal())
  {
    Types.SkillLevelIsClosed();
  }

  datatype Indicator = Indicator(color: string, icon: string)

  const DefaultDemandIndicator := Indicator("text-gray-400", "\U{2753}")

  /** `getDemandLevelIndicator(level)`: a colour and an icon per demand level, a
      grey question mark for anything that is not a demand level. */
  function DemandLevelIndicator(level: string): (r: Indicator)
    ensures r == DefaultDemandIndicator <==> Types.ParseDemandLevel(level).None?
  {
    match Types.ParseDemandLevel(level)
    case Some(VeryHigh) => Indicator("text-red-500", "\U{1F525}")
    case Some(High) => Indicator("text-orange-500", "\U{1F4C8}")
    case Some(Moderate) => Indicator("text-yellow-500", "\U{1F4CA}")
    case Some(Low) => Indicator("text-blue-500", "\U{1F4C9}")
    case Some(VeryLow) => Indicator("text-gray-500", "\U{1F4A4}")
    case None => DefaultDemandIndicator
  }

  /** Different demand levels get different icons and different colours. */
  lemma DemandIndicatorsDiffer(x: Types.DemandLevel, y: Types.DemandLevel)
    requires x != y
    ensures DemandLevelIndicator(x.Literal()).icon != DemandLevelIndicator(y.Literal()).icon
    ensures DemandLevelIndicator(x.Literal()).color != DemandLevelIndicator(y.Literal()).color
  {
    Types.DemandLevelIsClosed();
  }
}
