/**
 * The few Python `str` operations the release tool relies on, over `string`
 * (a sequence of Unicode scalar values, as a Python `str` is a sequence of code
 * points): `isspace`/`strip`, ASCII `lower`, `in`/`find`, `split` on one
 * character, decimal `str(int)` and the leading digit run that `\d+` matches.
 */
module Text {
  import opened Wrappers

  // ---------------------------------------------------------------- whitespace

  /** The code points Python's `str.isspace` accepts. */
  const SpaceChars: set<char> := {
    '\U{9}', '\U{A}', '\U{B}', '\U{C}', '\U{D}', '\U{1C}', '\U{1D}', '\U{1E}',
    '\U{1F}', '\U{20}', '\U{85}', '\U{A0}', '\U{1680}', '\U{2000}', '\U{2001}', '\U{2002}',
    '\U{2003}', '\U{2004}', '\U{2005}', '\U{2006}', '\U{2007}', '\U{2008}', '\U{2009}', '\U{200A}',
    '\U{2028}', '\U{2029}', '\U{202F}', '\U{205F}', '\U{3000}'
  }

  /** Python's `str.isspace` for a single code point. */
  predicate IsSpace(c: char) {
    c in SpaceChars
  }

  /** `not s.strip()`: the text holds nothing but whitespace. */
  predicate IsBlank(s: string) {
    forall i :: 0 <= i < |s| ==> IsSpace(s[i])
  }

  /** `n` is the length of the run of whitespace at the start of `s`. */
  predicate SpacePrefix(s: string, n: nat) {
    n <= |s| && (forall i :: 0 <= i < n ==> IsSpace(s[i])) && (n == |s| || !IsSpace(s[n]))
  }

  /** `n` is the length of the run of whitespace at the end of `s`. */
  predicate SpaceSuffix(s: string, n: nat) {
    n <= |s| && (forall i :: |s| - n <= i < |s| ==> IsSpace(s[i])) && (n == |s| || !IsSpace(s[|s| - n - 1]))
  }

  lemma SpacePrefixUnique(s: string, n: nat, m: nat)
    requires SpacePrefix(s, n) && SpacePrefix(s, m)
    ensures n == m
  {
  }

  /** How many whitespace characters `s` starts with. */
  function LeadingSpaces(s: string): (n: nat)
    ensures SpacePrefix(s, n)
  {
    if s != [] && IsSpace(s[0]) then
      var n := 1 + LeadingSpaces(s[1..]);
      assert forall i :: 1 <= i < n ==> s[i] == s[1..][i - 1];
      n
    else 0
  }

  /** How many whitespace characters `s` ends with. */
  function TrailingSpaces(s: string): (n: nat)
    ensures SpaceSuffix(s, n)
  {
    if s != [] && IsSpace(s[|s| - 1]) then
      var n := 1 + TrailingSpaces(s[..|s| - 1]);
      assert forall i :: |s| - n <= i < |s| - 1 ==> s[i] == s[..|s| - 1][i];
      n
    else 0
  }

  /**
   * `t.rstrip()`: `t` without its trailing whitespace. It is a prefix of `t`,
   * empty exactly for blank text, otherwise ends with a non-space, and only
   * whitespace follows it.
   */
  function TrimEnd(t: string): (r: string)
    ensures r == [] <==> IsBlank(t)
    ensures r == [] || !IsSpace(r[|r| - 1])
    ensures |r| <= |t| && r == t[..|r|] && IsBlank(t[|r|..])
  {
    var b := |t| - TrailingSpaces(t);
    assert forall i :: 0 <= i < |t| - b ==> t[b..][i] == t[b + i];
    t[..b]
  }

  /**
   * `s.strip()`: `s` without its leading and trailing whitespace; it is empty
   * exactly for blank text, and otherwise starts and ends with a non-space.
   * It sits right after the leading whitespace, and only whitespace follows it.
   */
  function Strip(s: string): (r: string)
    ensures r == [] <==> IsBlank(s)
    ensures r == [] || (!IsSpace(r[0]) && !IsSpace(r[|r| - 1]))
    ensures OccursAt(s, r, LeadingSpaces(s))
    ensures IsBlank(s[LeadingSpaces(s) + |r|..])
  {
    var r := TrimEnd(s[LeadingSpaces(s)..]);
    BlankAfterLeading(s);
    LeadingCut(s, r);
    r
  }

  /** Text is blank exactly when what follows its leading whitespace is. */
  lemma BlankAfterLeading(s: string)
    ensures IsBlank(s[LeadingSpaces(s)..]) <==> IsBlank(s)
  {
    var a := LeadingSpaces(s);
    assert forall i :: a <= i < |s| ==> s[a..][i - a] == s[i];
  }

  /** A prefix of the text after the leading whitespace, seen in `s` itself. */
  lemma LeadingCut(s: string, r: string)
    requires |r| <= |s[LeadingSpaces(s)..]| && r == s[LeadingSpaces(s)..][..|r|]
    ensures OccursAt(s, r, LeadingSpaces(s))
    ensures s[LeadingSpaces(s) + |r|..] == s[LeadingSpaces(s)..][|r|..]
    ensures r == [] || !IsSpace(r[0])
  {
    var a := LeadingSpaces(s);
    assert forall i :: 0 <= i < |r| ==> r[i] == s[a + i];
  }

  /** Text around a part that is not blank is not blank. */
  lemma NotBlankAround(a: string, b: string, c: string)
    requires !IsBlank(b)
    ensures !IsBlank(a + b + c)
  {
    var i :| 0 <= i < |b| && !IsSpace(b[i]);
    assert (a + b + c)[|a| + i] == b[i];
  }

  /** Leading whitespace does not change what `strip` returns. */
  lemma StripAfterBlank(w: string, s: string)
    requires IsBlank(w)
    ensures Strip(w + s) == Strip(s)
  {
    var a := LeadingSpaces(s);
    LeadingAfterBlank(w, s);
    SuffixOfAppend(w, s, a);
  }

  /** A suffix of `w + s` that lies inside `s`. */
  lemma SuffixOfAppend(w: string, s: string, i: nat)
    requires i <= |s|
    ensures (w + s)[|w| + i..] == s[i..]
  {
    assert forall k :: 0 <= k < |s| - i ==> (w + s)[|w| + i..][k] == s[i..][k];
  }

  lemma LeadingAfterBlank(w: string, s: string)
    requires IsBlank(w)
    ensures LeadingSpaces(w + s) == |w| + LeadingSpaces(s)
  {
    var ws := w + s;
    var a := LeadingSpaces(s);
    assert forall i :: |w| <= i < |ws| ==> ws[i] == s[i - |w|];
    assert SpacePrefix(ws, |w| + a);
    SpacePrefixUnique(ws, LeadingSpaces(ws), |w| + a);
  }

  // ------------------------------------------------------------------- case

  /** `str.lower` on one character, restricted to ASCII letters. */
  function LowerChar(c: char): char {
    if 'A' <= c <= 'Z' then (c as int - 'A' as int + 'a' as int) as char else c
  }

  /** `s.lower()` with ASCII case folding: same length, each letter folded. */
  function Lower(s: string): (r: string)
    ensures |r| == |s| && forall i :: 0 <= i < |s| ==> r[i] == LowerChar(s[i])
  {
    seq(|s|, i requires 0 <= i < |s| => LowerChar(s[i]))
  }

  /** A string with no capital letter is its own lower case. */
  lemma LowerWithoutCapitals(s: string)
    requires forall i :: 0 <= i < |s| ==> !('A' <= s[i] <= 'Z')
    ensures Lower(s) == s
  {
  }

  /** Lower-casing a string whose only capital is its first letter folds just that letter. */
  lemma LowerInitialCapital(c: char, s: string)
    requires 'A' <= c <= 'Z'
    requires forall i :: 0 <= i < |s| ==> !('A' <= s[i] <= 'Z')
    ensures Lower([c] + s) == [LowerChar(c)] + s
  {
  }

  // -------------------------------------------------------------- searching

  /** `s.startswith(p)`. */
  predicate StartsWith(s: string, p: string) {
    |p| <= |s| && s[..|p|] == p
  }

  /** `pat` occurs in `s` starting at index `i`. */
  predicate OccursAt(s: string, pat: string, i: nat) {
    i + |pat| <= |s| && s[i..i + |pat|] == pat
  }

  /** `s.find(pat, from)`: the first occurrence of `pat` at or after `from`, if any. */
  function IndexFrom(s: string, pat: string, from: nat): (r: Option<nat>)
    requires from <= |s|
    ensures r.Some? ==> from <= r.value && OccursAt(s, pat, r.value)
    ensures r.Some? ==> forall j: nat :: from <= j < r.value ==> !OccursAt(s, pat, j)
    ensures r.None? ==> forall j: nat :: from <= j ==> !OccursAt(s, pat, j)
    decreases |s| - from
  {
    if from + |pat| > |s| then None
    else if s[from..from + |pat|] == pat then Some(from)
    else IndexFrom(s, pat, from + 1)
  }

  /** `s.find(pat)`, as an option. */
  function IndexOf(s: string, pat: string): (r: Option<nat>)
    ensures r.Some? ==> OccursAt(s, pat, r.value) && forall j: nat :: j < r.value ==> !OccursAt(s, pat, j)
    ensures r.None? ==> forall j: nat :: !OccursAt(s, pat, j)
  {
    IndexFrom(s, pat, 0)
  }

  /** The last occurrence of `pat` at an index below `k`, if any. */
  function LastIndexUpTo(s: string, pat: string, k: nat): (r: Option<nat>)
    ensures r.Some? ==> r.value < k && OccursAt(s, pat, r.value)
    ensures r.Some? ==> forall j: nat :: r.value < j < k ==> !OccursAt(s, pat, j)
    ensures r.None? ==> forall j: nat :: j < k ==> !OccursAt(s, pat, j)
  {
    if k == 0 then None
    else if OccursAt(s, pat, k - 1) then Some(k - 1)
    else LastIndexUpTo(s, pat, k - 1)
  }

  /** `s.rfind(pat)`, as an option: the last occurrence of `pat`, if any. */
  function LastIndexOf(s: string, pat: string): (r: Option<nat>)
    ensures r.Some? ==> OccursAt(s, pat, r.value) && forall j: nat :: r.value < j ==> !OccursAt(s, pat, j)
    ensures r.None? ==> forall j: nat :: !OccursAt(s, pat, j)
  {
    LastIndexUpTo(s, pat, |s| + 1)
  }

  /** `pat in s`. */
  predicate Contains(s: string, pat: string) {
    IndexOf(s, pat).Some?
  }

  /** `pat in s` holds exactly when `pat` occurs at some index of `s`. */
  lemma ContainsIff(s: string, pat: string)
    ensures Contains(s, pat) <==> exists i :: OccursAt(s, pat, i)
  {
  }

  /** A pattern whose first character is nowhere in `s` does not occur in it. */
  lemma AbsentWithoutFirst(s: string, pat: string)
    requires pat != [] && pat[0] !in s
    ensures !Contains(s, pat)
  {
  }

  // ------------------------------------------------------------- splitting

  /** `s.split(sep)` for a one-character separator: never empty, `""` gives `[""]`. */
  function Split(s: string, sep: char): (parts: seq<string>)
    ensures |parts| >= 1
    ensures forall k :: 0 <= k < |parts| ==> sep !in parts[k]
  {
    if s == [] then [[]]
    else
      var rest := Split(s[1..], sep);
      if s[0] == sep then [[]] + rest
      else [[s[0]] + rest[0]] + rest[1..]
  }

  /** `sep.join(parts)`. */
  function Join(parts: seq<string>, sep: char): string {
    if |parts| == 0 then []
    else if |parts| == 1 then parts[0]
    else parts[0] + [sep] + Join(parts[1..], sep)
  }

  /** Joining the pieces of a split restores the text. */
  lemma {:induction false} JoinSplit(s: string, sep: char)
    ensures Join(Split(s, sep), sep) == s
  {
    if s != [] {
      var rest := Split(s[1..], sep);
      JoinSplit(s[1..], sep);
      if s[0] == sep {
        assert Split(s, sep)[1..] == rest;
      } else {
        var parts := Split(s, sep);
        if |rest| == 1 {
          assert parts == [[s[0]] + rest[0]];
        } else {
          assert parts[1..] == rest[1..];
          assert Join(rest, sep) == rest[0] + [sep] + Join(rest[1..], sep);
        }
        assert s == [s[0]] + s[1..];
      }
    }
  }

  /** Text without the separator runs into the first piece of what follows it. */
  lemma {:induction false} SplitGlue(a: string, t: string, sep: char)
    requires sep !in a
    ensures Split(a + t, sep) == [a + Split(t, sep)[0]] + Split(t, sep)[1..]
  {
    if a != [] {
      assert (a + t)[0] == a[0];
      assert (a + t)[1..] == a[1..] + t;
      SplitGlue(a[1..], t, sep);
      assert [a[0]] + (a[1..] + Split(t, sep)[0]) == a + Split(t, sep)[0];
    } else {
      var parts := Split(t, sep);
      assert a + t == t && a + parts[0] == parts[0];
      assert parts == [parts[0]] + parts[1..];
    }
  }

  /** Splitting what `Join` built gives back the pieces, when no piece holds the separator. */
  lemma {:induction false} SplitJoin(parts: seq<string>, sep: char)
    requires |parts| >= 1
    requires forall k :: 0 <= k < |parts| ==> sep !in parts[k]
    ensures Split(Join(parts, sep), sep) == parts
  {
    if |parts| == 1 {
      SplitGlue(parts[0], [], sep);
      assert parts[0] + [] == parts[0];
    } else {
      var tail := Join(parts[1..], sep);
      SplitJoin(parts[1..], sep);
      assert Split([sep] + tail, sep) == [[]] + Split(tail, sep);
      SplitGlue(parts[0], [sep] + tail, sep);
      assert parts[0] + [sep] + tail == parts[0] + ([sep] + tail);
      assert parts[0] + [] == parts[0];
      assert parts == [parts[0]] + parts[1..];
    }
  }

  // ---------------------------------------------------------------- numbers

  /** An ASCII decimal digit (what `\d` matches here). */
  predicate IsDigit(c: char) {
    '0' <= c <= '9'
  }

  predicate AllDigits(s: string) {
    forall i :: 0 <= i < |s| ==> IsDigit(s[i])
  }

  function DigitChar(d: nat): (c: char)
    requires d < 10
    ensures IsDigit(c) && c as int - '0' as int == d
  {
    ('0' as int + d) as char
  }

  /** `int(s)` for a run of decimal digits (leading zeros allowed). */
  function DigitsValue(s: string): nat
    requires AllDigits(s)
  {
    if s == [] then 0 else DigitsValue(s[..|s| - 1]) * 10 + (s[|s| - 1] as int - '0' as int)
  }

  /** `str(n)`: a non-empty run of digits whose value is `n`, without a leading zero. */
  function NatToString(n: nat): (r: string)
    ensures r != [] && AllDigits(r) && DigitsValue(r) == n
    ensures r[0] != '0' || r == "0"
    decreases n
  {
    if n < 10 then [DigitChar(n)]
    else
      var r := NatToString(n / 10) + [DigitChar(n % 10)];
      assert r[..|r| - 1] == NatToString(n / 10);
      assert NatToString(n / 10) != "0" by {
        assert DigitsValue("0") == 0;
      }
      r
  }

  /** `n` is the length of the run of digits at the start of `s`. */
  predicate DigitPrefix(s: string, n: nat) {
    n <= |s| && (forall i :: 0 <= i < n ==> IsDigit(s[i])) && (n == |s| || !IsDigit(s[n]))
  }

  lemma DigitPrefixUnique(s: string, n: nat, m: nat)
    requires DigitPrefix(s, n) && DigitPrefix(s, m)
    ensures n == m
  {
  }

  /** Length of the run of digits at the start of `s` (greedy `\d+`, or 0). */
  function LeadingDigits(s: string): (n: nat)
    ensures DigitPrefix(s, n)
  {
    if s != [] && IsDigit(s[0]) then
      var n := 1 + LeadingDigits(s[1..]);
      assert forall i :: 1 <= i < n ==> s[i] == s[1..][i - 1];
      n
    else 0
  }

  /** The leading run is all digits, and what follows it does not start with one. */
  lemma DigitRun(t: string)
    ensures AllDigits(t[..LeadingDigits(t)])
    ensures t[LeadingDigits(t)..] == [] || !IsDigit(t[LeadingDigits(t)..][0])
  {
    var a := LeadingDigits(t);
    assert forall i :: 0 <= i < a ==> t[..a][i] == t[i];
  }

  /** A digit run followed by a non-digit: the leading run is exactly that run. */
  lemma LeadingDigitsOf(x: string, t: string)
    requires AllDigits(x)
    requires t == [] || !IsDigit(t[0])
    ensures LeadingDigits(x + t) == |x|
  {
    assert forall i :: 0 <= i < |x| ==> (x + t)[i] == x[i];
    assert DigitPrefix(x + t, |x|);
    DigitPrefixUnique(x + t, LeadingDigits(x + t), |x|);
  }
}
