/**
 * Version numbers of the release tool: `parse_version`, `bump_version` and the
 * `v{major}.{minor}.{patch}` tag form (Semantic Versioning 2.0.0, items 6-8).
 */
module Versions {
  import opened Text

  /** The kind of increment (`VersionBump`): major for breaking changes, minor for features, patch for fixes. */
  datatype VersionBump = Major | Minor | Patch

  /** A version triple, each part a non-negative integer. */
  datatype Version = Version(major: nat, minor: nat, patch: nat)

  /** What an unparseable version string reads as. */
  const Zero := Version(0, 0, 0)

  /** Lexicographic order on versions. */
  predicate Less(a: Version, b: Version) {
    a.major < b.major ||
    (a.major == b.major && a.minor < b.minor) ||
    (a.major == b.major && a.minor == b.minor && a.patch < b.patch)
  }

  /** `n` is the length of the run of `v`s at the start of `s`. */
  predicate VPrefix(s: string, n: nat) {
    n <= |s| && (forall i :: 0 <= i < n ==> s[i] == 'v') && (n == |s| || s[n] != 'v')
  }

  lemma VPrefixUnique(s: string, n: nat, m: nat)
    requires VPrefix(s, n) && VPrefix(s, m)
    ensures n == m
  {
  }

  /** How many lower-case `v`s `s` starts with. */
  function LeadingVs(s: string): (n: nat)
    ensures VPrefix(s, n)
  {
    if s != [] && s[0] == 'v' then
      var n := 1 + LeadingVs(s[1..]);
      assert forall i :: 1 <= i < n ==> s[i] == s[1..][i - 1];
      n
    else 0
  }

  /** `s.lstrip('v')`: every leading lower-case `v` removed (an upper-case `V` stays). */
  function StripLeadingV(s: string): string {
    s[LeadingVs(s)..]
  }

  /**
   * `parse_version`: after the leading `v`s, `re.match(r'(\d+)\.(\d+)\.(\d+)')`
   * anchored at the start, the three runs read as decimal numbers; anything the
   * pattern does not match gives 0.0.0. Trailing text is ignored.
   */
  function ParseVersion(s: string): Version {
    ParseMajor(StripLeadingV(s))
  }

  /** The first `(\d+)\.` of the pattern, then the rest. */
  function ParseMajor(t: string): Version {
    var a := LeadingDigits(t);
    if a == 0 || a == |t| || t[a] != '.' then Zero
    else ParseMinor(DigitsValue(t[..a]), t[a + 1..])
  }

  /** The second `(\d+)\.` of the pattern, then the rest. */
  function ParseMinor(major: nat, u: string): Version {
    var b := LeadingDigits(u);
    if b == 0 || b == |u| || u[b] != '.' then Zero
    else ParsePatch(major, DigitsValue(u[..b]), u[b + 1..])
  }

  /** The final `(\d+)`, greedy; whatever follows it is ignored. */
  function ParsePatch(major: nat, minor: nat, w: string): Version {
    var c := LeadingDigits(w);
    if c == 0 then Zero else Version(major, minor, DigitsValue(w[..c]))
  }

  /** The tag form `v{major}.{minor}.{patch}`: a `v`, then only digits and dots. */
  function FormatVersion(v: Version): (r: string)
    ensures r != [] && r[0] == 'v'
    ensures forall i :: 1 <= i < |r| ==> IsDigit(r[i]) || r[i] == '.'
  {
    var x, y, z := NatToString(v.major), NatToString(v.minor), NatToString(v.patch);
    assert forall i :: 0 <= i < |x| ==> IsDigit(x[i]);
    assert forall i :: 0 <= i < |y| ==> IsDigit(y[i]);
    assert forall i :: 0 <= i < |z| ==> IsDigit(z[i]);
    "v" + x + "." + y + "." + z
  }

  /** The version after an increment of kind `k`; lower parts restart at 0, so it is above `v`. */
  function Bump(v: Version, k: VersionBump): (r: Version)
    ensures Less(v, r)
  {
    match k
    case Major => Version(v.major + 1, 0, 0)
    case Minor => Version(v.major, v.minor + 1, 0)
    case Patch => Version(v.major, v.minor, v.patch + 1)
  }

  /**
   * `bump_version`: parse the current tag (an unparseable one counts as 0.0.0),
   * increment, and print in tag form. The result reads back as the incremented
   * version, which is above the current one.
   */
  function BumpVersion(current: string, k: VersionBump): (r: string)
    ensures r != [] && r[0] == 'v'
    ensures ParseVersion(r) == Bump(ParseVersion(current), k)
    ensures Less(ParseVersion(current), ParseVersion(r))
    ensures r == FormatVersion(ParseVersion(r))
  {
    var next := Bump(ParseVersion(current), k);
    ParseFormat(next);
    BumpIncreases(ParseVersion(current), k);
    FormatVersion(next)
  }

  // ----------------------------------------------------------------- parsing

  lemma StripLeadingVSkips(vs: string, t: string)
    requires forall i :: 0 <= i < |vs| ==> vs[i] == 'v'
    requires t == [] || t[0] != 'v'
    ensures StripLeadingV(vs + t) == t
  {
    assert forall i :: 0 <= i < |vs| ==> (vs + t)[i] == vs[i];
    assert VPrefix(vs + t, |vs|);
    VPrefixUnique(vs + t, LeadingVs(vs + t), |vs|);
    assert (vs + t)[|vs|..] == t;
  }

  /**
   * The grammar `parse_version` accepts: any number of leading `v`s, three
   * digit runs separated by dots (leading zeros allowed), then anything that
   * does not continue the last run.
   */
  lemma ParseVersionOfShape(vs: string, x: string, y: string, z: string, rest: string)
    requires forall i :: 0 <= i < |vs| ==> vs[i] == 'v'
    requires x != [] && y != [] && z != []
    requires AllDigits(x) && AllDigits(y) && AllDigits(z)
    requires rest == [] || !IsDigit(rest[0])
    ensures ParseVersion(vs + x + "." + y + "." + z + rest)
         == Version(DigitsValue(x), DigitsValue(y), DigitsValue(z))
  {
    var w := z + rest;
    var u := y + "." + w;
    var t := x + "." + u;
    assert vs + x + "." + y + "." + z + rest == vs + t;
    StripLeadingVSkips(vs, t);
    ParseFieldOf(x, u);
    ParseFieldOf(y, w);
    assert ParseMinor(DigitsValue(x), u) == ParsePatch(DigitsValue(x), DigitsValue(y), w);
    LeadingDigitsOf(z, rest);
    assert w[..|z|] == z;
  }

  /** A digit run, a dot and more text: the run is read and parsing goes on after the dot. */
  lemma ParseFieldOf(x: string, u: string)
    requires x != [] && AllDigits(x)
    ensures ParseMajor(x + "." + u) == ParseMinor(DigitsValue(x), u)
    ensures forall major :: ParseMinor(major, x + "." + u) == ParsePatch(major, DigitsValue(x), u)
  {
    var t := x + "." + u;
    assert t == x + ("." + u);
    LeadingDigitsOf(x, "." + u);
    assert t[|x|] == '.' && t[|x| + 1..] == u && t[..|x|] == x;
  }

  /** The leading `v`s of `s` are all `v`. */
  lemma VRun(s: string)
    ensures forall i :: 0 <= i < |s[..LeadingVs(s)]| ==> s[..LeadingVs(s)][i] == 'v'
  {
    var n := LeadingVs(s);
    assert forall i :: 0 <= i < n ==> s[..n][i] == s[i];
  }

  /** A leading digit run followed by a dot: the run, the dot, and the rest. */
  lemma SplitField(t: string) returns (x: string, u: string)
    requires 0 < LeadingDigits(t) < |t| && t[LeadingDigits(t)] == '.'
    ensures x == t[..LeadingDigits(t)] && u == t[LeadingDigits(t) + 1..]
    ensures x != [] && AllDigits(x) && t == x + "." + u
  {
    var a := LeadingDigits(t);
    x, u := t[..a], t[a + 1..];
    DigitRun(t);
    assert t == t[..a] + [t[a]] + t[a + 1..];
  }

  /** A leading digit run and whatever follows it. */
  lemma SplitPatch(w: string) returns (z: string, rest: string)
    requires 0 < LeadingDigits(w)
    ensures z != [] && AllDigits(z) && (rest == [] || !IsDigit(rest[0]))
    ensures w == z + rest
  {
    var c := LeadingDigits(w);
    DigitRun(w);
    z, rest := w[..c], w[c..];
    assert w == z + rest;
  }

  lemma Reassociate(vs: string, x: string, y: string, z: string, rest: string)
    ensures vs + (x + "." + (y + "." + (z + rest))) == vs + x + "." + y + "." + z + rest
  {
  }

  /**
   * The converse of `ParseVersionOfShape`: a string that does not read as
   * 0.0.0 has the accepted shape, and the pieces returned are that shape.
   */
  lemma ParsedHasShape(s: string) returns (vs: string, x: string, y: string, z: string, rest: string)
    requires ParseVersion(s) != Zero
    ensures forall i :: 0 <= i < |vs| ==> vs[i] == 'v'
    ensures x != [] && y != [] && z != []
    ensures AllDigits(x) && AllDigits(y) && AllDigits(z)
    ensures rest == [] || !IsDigit(rest[0])
    ensures s == vs + x + "." + y + "." + z + rest
  {
    var n := LeadingVs(s);
    vs := s[..n];
    VRun(s);
    var t := s[n..];
    assert s == vs + t;
    assert ParseMajor(t) != Zero;
    var u, w;
    x, u := SplitField(t);
    assert ParseMinor(DigitsValue(x), u) != Zero;
    y, w := SplitField(u);
    assert ParsePatch(DigitsValue(x), DigitsValue(y), w) != Zero;
    z, rest := SplitPatch(w);
    Reassociate(vs, x, y, z, rest);
  }

  /** A string that does not start with a digit once its `v`s are gone parses as 0.0.0. */
  lemma ParseVersionNeedsDigit(s: string)
    requires StripLeadingV(s) == [] || !IsDigit(StripLeadingV(s)[0])
    ensures ParseVersion(s) == Zero
  {
  }

  /** Reading back the tag form gives the version that was printed. */
  lemma ParseFormat(v: Version)
    ensures ParseVersion(FormatVersion(v)) == v
  {
    var x, y, z := NatToString(v.major), NatToString(v.minor), NatToString(v.patch);
    ParseVersionOfShape("v", x, y, z, "");
    assert FormatVersion(v) == "v" + x + "." + y + "." + z + "";
  }

  /** `bump(parse(format(v)), k) == bump(v, k)`: printing a version does not change its next version. */
  lemma BumpStable(v: Version, k: VersionBump)
    ensures BumpVersion(FormatVersion(v), k) == FormatVersion(Bump(v, k))
  {
    ParseFormat(v);
  }

  // ------------------------------------------------------------- increments

  /** The versions whose parts at the level of `k` and above exceed those of `v`. */
  predicate Above(v: Version, w: Version, k: VersionBump) {
    match k
    case Major => v.major < w.major
    case Minor => v.major < w.major || (v.major == w.major && v.minor < w.minor)
    case Patch => Less(v, w)
  }

  /**
   * An increment of kind `k` gives the least version above `v` at that level:
   * a patch bump is the immediate successor, a minor bump the first version of
   * the next minor line, a major bump the first version of the next major line.
   */
  lemma BumpIsLeast(v: Version, k: VersionBump, w: Version)
    requires Above(v, w, k)
    ensures Above(v, Bump(v, k), k)
    ensures Bump(v, k) == w || Less(Bump(v, k), w)
  {
  }

  /** Every increment moves strictly up. */
  lemma BumpIncreases(v: Version, k: VersionBump)
    ensures Less(v, Bump(v, k))
  {
  }

  /** Three one-digit fields. */
  lemma ParseOneDigitFields(vs: string, a: char, b: char, c: char, rest: string)
    requires forall i :: 0 <= i < |vs| ==> vs[i] == 'v'
    requires IsDigit(a) && IsDigit(b) && IsDigit(c)
    requires rest == [] || !IsDigit(rest[0])
    ensures ParseVersion(vs + [a] + "." + [b] + "." + [c] + rest)
         == Version(a as int - '0' as int, b as int - '0' as int, c as int - '0' as int)
  {
    assert DigitsValue([a]) == a as int - '0' as int by { assert [a][..0] == []; }
    assert DigitsValue([b]) == b as int - '0' as int by { assert [b][..0] == []; }
    assert DigitsValue([c]) == c as int - '0' as int by { assert [c][..0] == []; }
    ParseVersionOfShape(vs, [a], [b], [c], rest);
  }

  /** `v2.3.1` reads as 2.3.1. */
  lemma ParseVersionPlain()
    ensures ParseVersion("v2.3.1") == Version(2, 3, 1)
  {
    assert "v2.3.1" == "v" + ['2'] + "." + ['3'] + "." + ['1'] + "";
    ParseOneDigitFields("v", '2', '3', '1', "");
  }

  /** A pre-release suffix after the third number is ignored. */
  lemma ParseVersionSuffix()
    ensures ParseVersion("1.2.3-rc1") == Version(1, 2, 3)
  {
    assert "1.2.3-rc1" == "" + ['1'] + "." + ['2'] + "." + ['3'] + "-rc1";
    ParseOneDigitFields("", '1', '2', '3', "-rc1");
  }

  /** Strings outside the grammar read as 0.0.0. */
  lemma ParseVersionRejects()
    ensures ParseVersion("garbage") == Zero
    ensures ParseVersion("V1.2.3") == Zero
    ensures ParseVersion("1.2") == Zero
  {
    assert LeadingVs("garbage") == 0 && LeadingDigits("garbage") == 0;
    assert LeadingVs("V1.2.3") == 0 && LeadingDigits("V1.2.3") == 0;
    assert LeadingVs("1.2") == 0 && LeadingDigits("1.2") == 1 && "1.2"[2..] == "2";
    assert LeadingDigits("2") == 1;
  }

  lemma NumbersOf149()
    ensures ParseVersion("v1.4.9") == Version(1, 4, 9)
  {
    assert "v1.4.9" == "v" + ['1'] + "." + ['4'] + "." + ['9'] + "";
    ParseOneDigitFields("v", '1', '4', '9', "");
  }

  lemma FormatMajor149()
    ensures FormatVersion(Version(2, 0, 0)) == "v2.0.0"
  {
    assert NatToString(2) == "2" && NatToString(0) == "0";
  }

  lemma FormatMinor149()
    ensures FormatVersion(Version(1, 5, 0)) == "v1.5.0"
  {
    assert NatToString(1) == "1" && NatToString(5) == "5" && NatToString(0) == "0";
  }

  lemma FormatPatch149()
    ensures FormatVersion(Version(1, 4, 10)) == "v1.4.10"
  {
    assert NatToString(10) == NatToString(1) + "0";
    assert NatToString(1) == "1" && NatToString(4) == "4";
  }

  /** Any tag that reads as 1.4.9 increments to v2.0.0, v1.5.0 or v1.4.10. */
  lemma BumpFrom149(s: string, k: VersionBump)
    requires ParseVersion(s) == Version(1, 4, 9)
    ensures BumpVersion(s, k) == match k
      case Major => "v2.0.0"
      case Minor => "v1.5.0"
      case Patch => "v1.4.10"
  {
    match k
    case Major => FormatMajor149();
    case Minor => FormatMinor149();
    case Patch => FormatPatch149();
  }

  /** Increments of v1.4.9. */
  lemma BumpVersionExamples(k: VersionBump)
    ensures BumpVersion("v1.4.9", k) == match k
      case Major => "v2.0.0"
      case Minor => "v1.5.0"
      case Patch => "v1.4.10"
  {
    NumbersOf149();
    BumpFrom149("v1.4.9", k);
  }

  /** A tag that does not parse is bumped from 0.0.0. */
  lemma BumpFromUnparsed(s: string)
    requires ParseVersion(s) == Zero
    ensures BumpVersion(s, Major) == "v1.0.0"
    ensures BumpVersion(s, Minor) == "v0.1.0"
    ensures BumpVersion(s, Patch) == "v0.0.1"
  {
    assert FormatVersion(Version(1, 0, 0)) == "v1.0.0";
    assert FormatVersion(Version(0, 1, 0)) == "v0.1.0";
    assert FormatVersion(Version(0, 0, 1)) == "v0.0.1";
  }
}
