/** The few JavaScript string operations the backup script relies on, over
    strings as sequences of characters: `includes`, the first-occurrence
    search behind `split` and `replace`, `split` on a string separator,
    `endsWith`, the decimal text of a non-negative number (template literal
    `${n}`) and `parseInt(s, 10)`. */
module JsText {

  datatype Option<T> = None | Some(value: T)

  /** `sub` occurs in `s` starting at index `i`. */
  predicate OccursAt(s: string, sub: string, i: nat) {
    i + |sub| <= |s| && s[i..i + |sub|] == sub
  }

  /** `s.includes(sub)` */
  predicate Contains(s: string, sub: string) {
    exists i | 0 <= i <= |s| :: OccursAt(s, sub, i)
  }

  /** `s.endsWith(suffix)` */
  predicate EndsWith(s: string, suffix: string) {
    |suffix| <= |s| && s[|s| - |suffix|..] == suffix
  }

  /** First occurrence of `pat` in `s` at or after `from`. */
  function FindFrom(s: string, pat: string, from: nat): (r: Option<nat>)
    ensures r.Some? ==> from <= r.value && OccursAt(s, pat, r.value)
    ensures r.Some? ==> forall j :: from <= j < r.value ==> !OccursAt(s, pat, j)
    ensures r.None? ==> forall j: nat :: from <= j ==> !OccursAt(s, pat, j)
    decreases |s| - from
  {
    if OccursAt(s, pat, from) then Some(from)
    else if from + |pat| >= |s| then None
    else FindFrom(s, pat, from + 1)
  }

  /** Index of the first occurrence of `pat` in `s`, where `split` and
      `replace` cut, or None when there is none. */
  function FindFirst(s: string, pat: string): (r: Option<nat>)
    ensures r.Some? ==> OccursAt(s, pat, r.value)
    ensures r.Some? ==> forall j :: 0 <= j < r.value ==> !OccursAt(s, pat, j)
    ensures r.None? <==> !Contains(s, pat)
  {
    FindFrom(s, pat, 0)
  }

  /** The pieces of a split glued back together with the separator. */
  function Join(parts: seq<string>, sep: string): string
    requires |parts| >= 1
  {
    if |parts| == 1 then parts[0] else parts[0] + sep + Join(parts[1..], sep)
  }

  function Last<T>(xs: seq<T>): T
    requires |xs| >= 1
  {
    xs[|xs| - 1]
  }

  /** `s.split(sep)` for a non-empty separator: cut at every occurrence,
      scanning left to right. Joining the pieces with the separator gives
      `s` back (and SplitPiecesAreFree shows no piece contains it). For a
      separator that overlaps itself, such as "--", these facts admit more
      than one cutting; the body, which always cuts at the leftmost
      occurrence, fixes the one JavaScript makes. */
  function Split(s: string, sep: string): (parts: seq<string>)
    requires |sep| > 0
    ensures |parts| >= 1
    ensures Join(parts, sep) == s
    decreases |s|
  {
    match FindFirst(s, sep)
    case None => [s]
    case Some(i) =>
      assert s == s[..i] + sep + s[i + |sep|..] by {
        assert s[i..i + |sep|] == sep;
      }
      [s[..i]] + Split(s[i + |sep|..], sep)
  }

  /** No piece of a split contains the separator. */
  lemma {:induction false} SplitPiecesAreFree(s: string, sep: string)
    requires |sep| > 0
    ensures forall k :: 0 <= k < |Split(s, sep)| ==> !Contains(Split(s, sep)[k], sep)
    decreases |s|
  {
    match FindFirst(s, sep)
    case None =>
    case Some(i) =>
      var head := s[..i];
      assert !Contains(head, sep) by {
        forall j | 0 <= j <= |head|
          ensures !OccursAt(head, sep, j)
        {
          if j + |sep| <= |head| {
            assert head[j..j + |sep|] == s[j..j + |sep|];
            assert j < i;
            assert !OccursAt(s, sep, j);
          }
        }
      }
      SplitPiecesAreFree(s[i + |sep|..], sep);
      var parts := Split(s, sep);
      assert parts == [head] + Split(s[i + |sep|..], sep);
      forall k | 0 <= k < |parts|
        ensures !Contains(parts[k], sep)
      {
        if k > 0 {
          assert parts[k] == Split(s[i + |sep|..], sep)[k - 1];
        }
      }
  }

  /** `s.replace(pat, rep)` with a string pattern: only the first occurrence
      is replaced. */
  function ReplaceFirst(s: string, pat: string, rep: string): (r: string)
    ensures !Contains(s, pat) ==> r == s
  {
    match FindFirst(s, pat)
    case None => s
    case Some(i) => s[..i] + rep + s[i + |pat|..]
  }

  /** When the separator `sep` occurs in `s` once only, at `i`, splitting
      gives the text before it and the text after it. */
  lemma SplitAtOnlyOccurrence(s: string, sep: string, i: nat)
    requires |sep| > 0
    requires FindFirst(s, sep) == Some(i)
    requires !Contains(s[i + |sep|..], sep)
    ensures Split(s, sep) == [s[..i], s[i + |sep|..]]
  {
    var rest := s[i + |sep|..];
    assert FindFirst(rest, sep).None?;
  }

  /** The first two pieces of a split when the separator occurs at least
      twice: the text before the first occurrence, and the text between the
      first and the second. */
  lemma FirstTwoPieces(s: string, sep: string, i: nat, j: nat)
    requires |sep| > 0
    requires FindFirst(s, sep) == Some(i)
    requires FindFirst(s[i + |sep|..], sep) == Some(j)
    ensures |Split(s, sep)| >= 2
    ensures Split(s, sep)[0] == s[..i] && Split(s, sep)[1] == s[i + |sep|..][..j]
  {
    var rest := s[i + |sep|..];
    var inner := Split(rest, sep);
    assert inner == [rest[..j]] + Split(rest[j + |sep|..], sep);
    assert Split(s, sep) == [s[..i]] + inner;
  }

  /** A text that does not contain the one-character string `[c]` has no
      character `c`. */
  lemma CharNotContained(s: string, c: char)
    requires !Contains(s, [c])
    ensures c !in s
  {
    if c in s {
      var k :| 0 <= k < |s| && s[k] == c;
      assert s[k..k + 1] == [c];
      assert OccursAt(s, [c], k);
    }
  }

  /** Cutting at the first separator leaves the last piece to the rest. */
  lemma LastPieceAfterFirstCut(s: string, sep: string, i: nat)
    requires |sep| > 0
    requires FindFirst(s, sep) == Some(i)
    ensures Last(Split(s, sep)) == Last(Split(s[i + |sep|..], sep))
  {
    SplitAtFirst(s, sep, i);
    LastOfLonger(s[..i], Split(s[i + |sep|..], sep));
  }

  /** A text contains whatever its middle part starts with. */
  lemma ContainsStartOfMiddle(pre: string, mid: string, post: string, sub: string)
    requires |sub| <= |mid| && mid[..|sub|] == sub
    ensures Contains(pre + mid + post, sub)
  {
    var s := pre + mid + post;
    assert s[|pre|..|pre| + |sub|] == mid[..|sub|];
    assert OccursAt(s, sub, |pre|);
  }

  /** A split cuts at the first occurrence and splits the rest. */
  lemma SplitAtFirst(s: string, sep: string, i: nat)
    requires |sep| > 0
    requires FindFirst(s, sep) == Some(i)
    ensures Split(s, sep) == [s[..i]] + Split(s[i + |sep|..], sep)
  {
  }

  lemma LastOfLonger<T>(x: T, xs: seq<T>)
    requires |xs| >= 1
    ensures Last([x] + xs) == Last(xs)
  {
  }

  /** The last piece of a split on a one-character separator is whatever
      follows the final separator, however many separators come before it. */
  lemma LastSegmentAfterFinalSeparator(a: string, c: char, b: string)
    requires c !in b
    ensures Last(Split(a + [c] + b, [c])) == b
  {
    var s := a + [c] + b;
    assert s[|a|] == c && s[|a| + 1..] == b;
    LastSegmentAfter(s, c, |a|);
  }

  /** The same, with the final separator at position `k` of `s`. */
  lemma {:induction false} LastSegmentAfter(s: string, c: char, k: nat)
    requires k < |s| && s[k] == c && c !in s[k + 1..]
    ensures Last(Split(s, [c])) == s[k + 1..]
    decreases k
  {
    assert s[k..k + 1] == [c];
    assert OccursAt(s, [c], k);
    var i := FindFirst(s, [c]).value;
    LastPieceAfterFirstCut(s, [c], i);
    if i == k {
      SplitWithoutSeparator(s[k + 1..], c);
    } else {
      var tail := s[i + 1..];
      assert tail[k - i - 1] == c;
      assert tail[k - i..] == s[k + 1..];
      LastSegmentAfter(tail, c, k - i - 1);
    }
  }

  /** A text without the one-character separator splits into itself. */
  lemma SplitWithoutSeparator(b: string, c: char)
    requires c !in b
    ensures Split(b, [c]) == [b]
  {
    forall j | 0 <= j <= |b|
      ensures !OccursAt(b, [c], j)
    {
      if j < |b| {
        assert b[j..j + 1] == [b[j]];
      }
    }
  }

  /** Replacing the first occurrence of a pattern by nothing strips it off
      the end when the text in front of it cannot start the pattern. */
  lemma ReplaceTrailingPattern(d: string, pat: string)
    requires |pat| > 0 && pat[0] !in d
    ensures ReplaceFirst(d + pat, pat, "") == d
  {
    var s := d + pat;
    assert OccursAt(s, pat, |d|);
    var i := FindFirst(s, pat).value;
    assert s[..i] == d;
  }

  // ---- decimal digits --------------------------------------------------

  predicate IsDigit(c: char) {
    '0' <= c <= '9'
  }

  predicate AllDigits(s: string) {
    forall i :: 0 <= i < |s| ==> IsDigit(s[i])
  }

  function DigitValue(c: char): nat
    requires IsDigit(c)
  {
    c as int - '0' as int
  }

  function DigitChar(d: nat): (c: char)
    requires d < 10
    ensures IsDigit(c) && DigitValue(c) == d
  {
    ('0' as int + d) as char
  }

  /** The number written by a string of decimal digits, most significant
      digit first. */
  function ValueOf(ds: string): nat
    requires AllDigits(ds)
    decreases |ds|
  {
    if |ds| == 0 then 0 else ValueOf(ds[..|ds| - 1]) * 10 + DigitValue(ds[|ds| - 1])
  }

  /** `${n}` for a non-negative integer: its decimal text, which is all
      digits, has no superfluous leading zero and denotes `n`. */
  function Decimal(n: nat): (ds: string)
    ensures |ds| >= 1 && AllDigits(ds)
    ensures ValueOf(ds) == n
    ensures ds[0] == '0' ==> n == 0
    decreases n
  {
    if n < 10 then [DigitChar(n)]
    else
      var ds := Decimal(n / 10) + [DigitChar(n % 10)];
      assert ds[..|ds| - 1] == Decimal(n / 10);
      ds
  }

  // ---- parseInt(s, 10) ---------------------------------------------------

  /** The characters JavaScript's `parseInt` skips before the number: the
      white-space and line-terminator code points of ECMAScript. */
  predicate IsJsWhitespace(c: char) {
    || c == '\t' || c == '\n' || c == '\U{000B}' || c == '\U{000C}' || c == '\r'
    || c == ' ' || c == '\U{00A0}' || c == '\U{1680}' || ('\U{2000}' <= c <= '\U{200A}')
    || c == '\U{2028}' || c == '\U{2029}' || c == '\U{202F}' || c == '\U{205F}'
    || c == '\U{3000}' || c == '\U{FEFF}'
  }

  /** `s` with its leading white space removed. */
  function TrimStart(s: string): (r: string)
    ensures |r| <= |s| && r == s[|s| - |r|..]
    ensures forall i :: 0 <= i < |s| - |r| ==> IsJsWhitespace(s[i])
    ensures r == [] || !IsJsWhitespace(r[0])
  {
    if |s| > 0 && IsJsWhitespace(s[0]) then
      var r := TrimStart(s[1..]);
      assert s[1..][|s| - 1 - |r|..] == s[|s| - |r|..];
      r
    else s
  }

  /** The longest prefix of `s` made of decimal digits. */
  function LeadingDigits(s: string): (ds: string)
    ensures |ds| <= |s| && ds == s[..|ds|] && AllDigits(ds)
    ensures |ds| == |s| || !IsDigit(s[|ds|])
  {
    if |s| > 0 && IsDigit(s[0]) then [s[0]] + LeadingDigits(s[1..]) else []
  }

  /** `parseInt(s, 10)`: skip leading white space, take an optional sign,
      then read the longest run of decimal digits; None stands for NaN,
      the result when that run is empty. */
  function ParseInt(s: string): Option<int>
  {
    var t := TrimStart(s);
    var negative := |t| > 0 && t[0] == '-';
    var body := if |t| > 0 && (t[0] == '-' || t[0] == '+') then t[1..] else t;
    var ds := LeadingDigits(body);
    if |ds| == 0 then None
    else
      var v: int := ValueOf(ds);
      if negative then Some(-v) else Some(v)
  }

  /** `parseInt` reads back the decimal text of `n`, whatever non-digit text
      follows it. */
  lemma ParseIntDecimal(n: nat, rest: string)
    requires rest == [] || !IsDigit(rest[0])
    ensures ParseInt(Decimal(n) + rest) == Some(n)
  {
    var d := Decimal(n);
    var s := d + rest;
    assert s[0] == d[0] && IsDigit(s[0]);
    assert TrimStart(s) == s;
    LeadingDigitsOfNumber(d, rest);
  }

  /** The digit run `parseInt` reads from a number followed by a non-digit is
      exactly that number's digits. */
  lemma LeadingDigitsOfNumber(d: string, rest: string)
    requires AllDigits(d)
    requires rest == [] || !IsDigit(rest[0])
    ensures LeadingDigits(d + rest) == d
  {
    var s := d + rest;
    assert s[..|d|] == d;
  }
}
