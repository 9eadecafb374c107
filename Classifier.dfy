/**
 * `CommitAnalyzer`: sorts conventional-commit subject lines into breaking
 * changes, features, fixes and the rest (first matching rule wins), and turns
 * the four lists into a version bump and an "uncertain" flag.
 */
module Classifier {
  import opened Text
  import opened Versions

  /** The four lists a commit can land in. */
  datatype Category = Breaking | Feature | Fix | Other

  /** What `get_summary` returns: the four lists, keyed `breaking`, `features`, `fixes`, `others`. */
  datatype Summary = Summary(breaking: seq<string>, features: seq<string>, fixes: seq<string>, others: seq<string>)

  /** The number of commits the four lists hold together. */
  function Total(s: Summary): nat {
    |s.breaking| + |s.features| + |s.fixes| + |s.others|
  }

  // ------------------------------------------------------------- the patterns

  /**
   * `BREAKING_PATTERNS`, searched anywhere in the raw message with `re.IGNORECASE`:
   * `BREAKING[- ]CHANGE` in any case, or `!:` (after a type or not).
   */
  predicate IsBreaking(commit: string) {
    Contains(Lower(commit), "breaking change") ||
    Contains(Lower(commit), "breaking-change") ||
    Contains(commit, "!:")
  }

  /**
   * The optional `(\(.+\))` group followed by `:`, read after the `(`: some `)`
   * at index 1 or later is directly followed by `:`, and the greedy `.+` before
   * it crosses no newline.
   */
  predicate ClosesScope(t: string) {
    exists k :: 1 <= k < |t| - 1 && t[k] == ')' && t[k + 1] == ':' && '\n' !in t[..k]
  }

  /** `re.search(r'^' + ty + r'(\(.+\))?:', lowered)`: the type, then `:` or a parenthesised scope and `:`. */
  predicate HasTypePrefix(lowered: string, ty: string) {
    StartsWith(lowered, ty + ":") ||
    (StartsWith(lowered, ty + "(") && ClosesScope(lowered[|ty| + 1..]))
  }

  /** `FEATURE_PATTERNS`, on the lower-cased message: `feat` or `feature`; either way it starts with `fe`. */
  predicate IsFeature(lowered: string): (b: bool)
    ensures b ==> |lowered| > 2 && lowered[0] == 'f' && lowered[1] == 'e'
  {
    TypeStarts(lowered, "feat");
    TypeStarts(lowered, "feature");
    HasTypePrefix(lowered, "feat") || HasTypePrefix(lowered, "feature")
  }

  /**
   * `FIX_PATTERNS`, on the lower-cased message: `fix` or `bugfix`. No message
   * matches both these and the feature patterns.
   */
  predicate IsFix(lowered: string): (b: bool)
    ensures b ==> !IsFeature(lowered)
  {
    TypeStarts(lowered, "fix");
    TypeStarts(lowered, "bugfix");
    HasTypePrefix(lowered, "fix") || HasTypePrefix(lowered, "bugfix")
  }

  /** A message with type `ty` starts with `ty` and holds more after it. */
  lemma TypeStarts(lowered: string, ty: string)
    ensures HasTypePrefix(lowered, ty) ==> |ty| < |lowered| && lowered[..|ty|] == ty
  {
    if HasTypePrefix(lowered, ty) {
      if StartsWith(lowered, ty + ":") {
        assert lowered[..|ty|] == lowered[..|ty| + 1][..|ty|];
      } else {
        assert lowered[..|ty|] == lowered[..|ty| + 1][..|ty|];
      }
    }
  }

  /**
   * The list `analyze` appends a commit to: the rules are tried breaking,
   * feature, fix, and the first match wins. A commit lands among the fixes
   * exactly when it matches a fix pattern and is not breaking, whatever the
   * feature rule says, and among the others exactly when no rule matches.
   */
  function Classify(commit: string): (c: Category)
    ensures c == Breaking <==> IsBreaking(commit)
    ensures c == Feature ==> IsFeature(Lower(commit))
    ensures c == Fix <==> IsFix(Lower(commit)) && !IsBreaking(commit)
    ensures c == Other <==> !IsBreaking(commit) && !IsFeature(Lower(commit)) && !IsFix(Lower(commit))
  {
    if IsBreaking(commit) then Breaking
    else if IsFeature(Lower(commit)) then Feature
    else if IsFix(Lower(commit)) then Fix
    else Other
  }

  // ----------------------------------------------------------- specification

  /** The commits `classify` puts in `cat`, in input order. */
  function Select(commits: seq<string>, cat: Category, classify: string -> Category): seq<string> {
    if commits == [] then []
    else
      var last := commits[|commits| - 1];
      Select(commits[..|commits| - 1], cat, classify) + (if classify(last) == cat then [last] else [])
  }

  /** The commits of one category, in input order. */
  function InCategory(commits: seq<string>, cat: Category): seq<string> {
    Select(commits, cat, Classify)
  }

  /** The four lists one pass of `analyze` produces from empty lists. */
  function Partition(commits: seq<string>): Summary {
    Summary(InCategory(commits, Breaking), InCategory(commits, Feature),
            InCategory(commits, Fix), InCategory(commits, Other))
  }

  /**
   * The decision at the end of `analyze`, read off the four lists: major
   * exactly when something is breaking, and uncertain exactly when only the
   * others list holds commits, which then gives a patch.
   */
  function Decide(s: Summary): (r: (VersionBump, bool))
    ensures r.0 == Major <==> s.breaking != []
    ensures r.1 <==> s.breaking == [] && s.features == [] && s.fixes == [] && s.others != []
    ensures r.1 ==> r.0 == Patch
  {
    if s.breaking != [] then (Major, false)
    else if s.features != [] then (Minor, false)
    else if s.fixes != [] then (Patch, false)
    else if s.others != [] then (Patch, true)
    else (Patch, false)
  }

  /** `s` repeated `n` times: what a list holds after `n` calls of `analyze`. */
  function Repeat(s: seq<string>, n: nat): seq<string> {
    if n == 0 then [] else Repeat(s, n - 1) + s
  }

  // ---------------------------------------------------------------- examples

  /** A message that is not breaking: no `b` after lower-casing and no `!`. */
  lemma NotBreaking(commit: string)
    requires 'b' !in Lower(commit) && '!' !in commit
    ensures !IsBreaking(commit)
  {
    AbsentWithoutFirst(Lower(commit), "breaking change");
    AbsentWithoutFirst(Lower(commit), "breaking-change");
    AbsentWithoutFirst(commit, "!:");
  }

  /** `Feat: x` is a feature: the type is matched after lower-casing. */
  lemma FeatureExample()
    ensures Classify("Feat: x") == Feature
  {
    FeatLowered();
    NotBreaking("Feat: x");
    assert "feat: x"[..5] == "feat:";
  }

  /** `Feat: x` lower-cases to `feat: x`. */
  lemma FeatLowered()
    ensures Lower("Feat: x") == "feat: x"
  {
    LowerInitialCapital('F', "eat: x");
    assert "Feat: x" == ['F'] + "eat: x";
  }

  /** A message that differs from `ty` at some index before `ty` ends does not have that type. */
  lemma NoTypePrefixAt(lowered: string, ty: string, j: nat)
    requires j < |ty| && j < |lowered| && lowered[j] != ty[j]
    ensures !HasTypePrefix(lowered, ty)
  {
    assert (ty + ":")[j] == ty[j] && (ty + "(")[j] == ty[j];
  }

  /** A message in which `ty` is followed by neither `:` nor `(` does not have that type. */
  lemma NoTypeAfter(lowered: string, ty: string)
    requires |ty| < |lowered| && lowered[|ty|] != ':' && lowered[|ty|] != '('
    ensures !HasTypePrefix(lowered, ty)
  {
    assert (ty + ":")[|ty|] == ':' && (ty + "(")[|ty|] == '(';
  }

  /** A type followed by a non-empty one-line scope in parentheses and a colon has that type. */
  lemma ScopeAccepted(ty: string, scope: string, rest: string)
    requires scope != [] && ')' !in ty && '\n' !in scope
    ensures HasTypePrefix(ty + "(" + scope + "):" + rest, ty)
  {
    var lowered := ty + "(" + scope + "):" + rest;
    assert lowered[..|ty| + 1] == ty + "(";
    var t := lowered[|ty| + 1..];
    assert t == scope + "):" + rest;
    assert t[|scope|] == ')' && t[|scope| + 1] == ':' && t[..|scope|] == scope;
  }

  /** Lower-casing `Fix(<scope>):<rest>` folds only the `F` when the rest has no capital. */
  lemma LowerScopedFix(scope: string, rest: string)
    requires forall i :: 0 <= i < |scope + "):" + rest| ==> !('A' <= (scope + "):" + rest)[i] <= 'Z')
    ensures Lower("Fix(" + scope + "):" + rest) == "fix" + "(" + scope + "):" + rest
  {
    var after := scope + "):" + rest;
    var tail := "ix(" + after;
    assert "Fix(" + scope + "):" + rest == ['F'] + tail;
    forall i | 0 <= i < |tail| ensures !('A' <= tail[i] <= 'Z') {
      if i >= 3 {
        assert tail[i] == after[i - 3];
      }
    }
    LowerInitialCapital('F', tail);
  }

  /**
   * Types are matched after lower-casing, and a scope may sit between type and
   * colon: `Fix(<scope>): <rest>` is a fix whenever the scope and the rest hold
   * no capital, no `b`, no `!` and the scope no newline.
   */
  lemma ScopedFixExample(scope: string, rest: string)
    requires scope != [] && '\n' !in scope
    requires forall i :: 0 <= i < |scope + "):" + rest| ==> !('A' <= (scope + "):" + rest)[i] <= 'Z')
    requires 'b' !in scope + rest && '!' !in scope + rest
    ensures Classify("Fix(" + scope + "):" + rest) == Fix
  {
    var commit := "Fix(" + scope + "):" + rest;
    var lowered := "fix" + "(" + scope + "):" + rest;
    LowerScopedFix(scope, rest);
    NotBreaking(commit);
    assert lowered[1] == 'i';
    NoTypePrefixAt(lowered, "feat", 1);
    NoTypePrefixAt(lowered, "feature", 1);
    ScopeAccepted("fix", scope, rest);
  }

  /** `!:` makes a message breaking even when it also has a feature type and a scope. */
  lemma BangBeatsFeature()
    ensures Classify("feat(api)!: x") == Breaking
  {
    assert OccursAt("feat(api)!: x", "!:", 9);
  }

  /** A type that is not at the start of the message is not recognised. */
  lemma UnrecognisedExample()
    ensures Classify("chore: feat: x") == Other
  {
    LowerWithoutCapitals("chore: feat: x");
    NotBreaking("chore: feat: x");
    ChoreUntyped();
  }

  /** No type is recognised in `chore: feat: x`: it starts with `c`. */
  lemma ChoreUntyped()
    ensures !IsFeature("chore: feat: x") && !IsFix("chore: feat: x")
  {
    NoTypePrefixAt("chore: feat: x", "feat", 0);
    NoTypePrefixAt("chore: feat: x", "feature", 0);
    NoTypePrefixAt("chore: feat: x", "fix", 0);
    NoTypePrefixAt("chore: feat: x", "bugfix", 0);
  }

  /** No type is recognised in `feat (x): y`: `feat` is followed by a space. */
  lemma SpacedScopeUntyped()
    ensures !IsFeature("feat (x): y") && !IsFix("feat (x): y")
  {
    NoTypeAfter("feat (x): y", "feat");
    NoTypePrefixAt("feat (x): y", "feature", 4);
    NoTypePrefixAt("feat (x): y", "fix", 1);
    NoTypePrefixAt("feat (x): y", "bugfix", 0);
  }

  /** A space between the type and its scope is not allowed. */
  lemma SpacedScopeExample()
    ensures Classify("feat (x): y") == Other
  {
    LowerWithoutCapitals("feat (x): y");
    NotBreaking("feat (x): y");
    SpacedScopeUntyped();
  }

  // ------------------------------------------------------------- the analyzer

  /**
   * The analyzer object. The lists are set to empty only when the object is
   * created, so each call of `Analyze` appends to what earlier calls left: after
   * `runs` calls, each list is `runs` copies of one pass's list.
   */
  class CommitAnalyzer {
    const commits: seq<string>
    var breakingChanges: seq<string>
    var features: seq<string>
    var fixes: seq<string>
    var others: seq<string>
    ghost var runs: nat

    ghost predicate Valid()
      reads this
    {
      breakingChanges == Repeat(InCategory(commits, Breaking), runs) &&
      features == Repeat(InCategory(commits, Feature), runs) &&
      fixes == Repeat(InCategory(commits, Fix), runs) &&
      others == Repeat(InCategory(commits, Other), runs)
    }

    constructor (commits: seq<string>)
      ensures Valid() && runs == 0
      ensures this.commits == commits
      ensures breakingChanges == [] && features == [] && fixes == [] && others == []
    {
      this.commits := commits;
      breakingChanges, features, fixes, others := [], [], [], [];
      runs := 0;
    }

    /** `get_summary`: the four lists as they stand; after `runs` calls they hold `runs` copies of every commit. */
    function GetSummary(): (s: Summary)
      reads this
      ensures s.breaking == breakingChanges && s.features == features
      ensures s.fixes == fixes && s.others == others
      ensures Valid() ==> Total(s) == runs * |commits|
    {
      TotalOfRepeats(commits, runs);
      Summary(breakingChanges, features, fixes, others)
    }

    /**
     * `analyze`: every commit, in order, is appended to the list of its
     * category; then the decision is read off the four lists (which include
     * whatever earlier calls appended).
     */
    method Analyze() returns (bump: VersionBump, isUncertain: bool)
      modifies this
      ensures runs == old(runs) + 1
      ensures breakingChanges == old(breakingChanges) + InCategory(commits, Breaking)
      ensures features == old(features) + InCategory(commits, Feature)
      ensures fixes == old(fixes) + InCategory(commits, Fix)
      ensures others == old(others) + InCategory(commits, Other)
      ensures old(Valid()) ==> Valid()
      ensures (bump, isUncertain) == Decide(GetSummary())
    {
      AppendAll();
      runs := runs + 1;

      if breakingChanges != [] {
        return Major, false;
      } else if features != [] {
        return Minor, false;
      } else if fixes != [] {
        return Patch, false;
      } else if others != [] {
        return Patch, true;
      }
      return Patch, false;
    }

    /** The loop of `analyze`: each commit, in order, goes to the end of the first list whose rule it matches. */
    method AppendAll()
      modifies this
      ensures runs == old(runs)
      ensures breakingChanges == old(breakingChanges) + InCategory(commits, Breaking)
      ensures features == old(features) + InCategory(commits, Feature)
      ensures fixes == old(fixes) + InCategory(commits, Fix)
      ensures others == old(others) + InCategory(commits, Other)
    {
      for i := 0 to |commits|
        invariant runs == old(runs)
        invariant breakingChanges == old(breakingChanges) + InCategory(commits[..i], Breaking)
        invariant features == old(features) + InCategory(commits[..i], Feature)
        invariant fixes == old(fixes) + InCategory(commits[..i], Fix)
        invariant others == old(others) + InCategory(commits[..i], Other)
      {
        var commit := commits[i];
        var commitLower := Lower(commit);
        ghost var cat := Classify(commit);
        InCategoryStep(commits, i, Breaking);
        InCategoryStep(commits, i, Feature);
        InCategoryStep(commits, i, Fix);
        InCategoryStep(commits, i, Other);
        if IsBreaking(commit) {
          assert cat == Breaking;
          breakingChanges := breakingChanges + [commit];
        } else if IsFeature(commitLower) {
          assert cat == Feature;
          features := features + [commit];
        } else if IsFix(commitLower) {
          assert cat == Fix;
          fixes := fixes + [commit];
        } else {
          assert cat == Other;
          others := others + [commit];
        }
      }
      assert commits[..|commits|] == commits;
    }
  }

  // ------------------------------------------------------------------ lemmas

  /** The list of a category grows by the next commit exactly when that commit classifies that way. */
  lemma InCategoryStep(commits: seq<string>, i: nat, cat: Category)
    requires i < |commits|
    ensures InCategory(commits[..i + 1], cat)
         == InCategory(commits[..i], cat) + (if Classify(commits[i]) == cat then [commits[i]] else [])
  {
    assert commits[..i + 1][..i] == commits[..i];
  }

  /** The four selections together are as long as the input. */
  lemma {:induction false} SelectSizes(commits: seq<string>, classify: string -> Category)
    ensures |Select(commits, Breaking, classify)| + |Select(commits, Feature, classify)|
          + |Select(commits, Fix, classify)| + |Select(commits, Other, classify)|
         == |commits|
  {
    if commits != [] {
      SelectSizes(commits[..|commits| - 1], classify);
    }
  }

  /** A commit is selected for a category exactly when it is in the input and classifies that way. */
  lemma {:induction false} SelectMembers(commits: seq<string>, cat: Category, classify: string -> Category, c: string)
    ensures c in Select(commits, cat, classify) <==> c in commits && classify(c) == cat
  {
    if commits != [] {
      var init := commits[..|commits| - 1];
      SelectMembers(init, cat, classify, c);
      assert commits == init + [commits[|commits| - 1]];
    }
  }

  /** Together the four lists hold as many commits as the input. */
  lemma PartitionSize(commits: seq<string>)
    ensures Total(Partition(commits)) == |commits|
  {
    SelectSizes(commits, Classify);
  }

  /** A commit is in the list of a category exactly when it is in the input and classifies that way. */
  lemma InCategoryMembers(commits: seq<string>, cat: Category, c: string)
    ensures c in InCategory(commits, cat) <==> c in commits && Classify(c) == cat
  {
    SelectMembers(commits, cat, Classify, c);
  }

  /** A category's list is empty exactly when no commit classifies that way. */
  lemma InCategoryEmpty(commits: seq<string>, cat: Category)
    ensures InCategory(commits, cat) == [] <==> forall i :: 0 <= i < |commits| ==> Classify(commits[i]) != cat
  {
    var r := InCategory(commits, cat);
    if r != [] {
      InCategoryMembers(commits, cat, r[0]);
    }
    forall i | 0 <= i < |commits| && Classify(commits[i]) == cat ensures r != [] {
      InCategoryMembers(commits, cat, commits[i]);
    }
  }

  /** Every commit is in the list of its own category and in no other. */
  lemma ExactlyOneList(commits: seq<string>, i: int, cat: Category)
    requires 0 <= i < |commits|
    ensures commits[i] in InCategory(commits, cat) <==> cat == Classify(commits[i])
  {
    InCategoryMembers(commits, cat, commits[i]);
  }

  /** Some commit of the input classifies as `cat`. */
  predicate Any(commits: seq<string>, cat: Category) {
    exists i :: 0 <= i < |commits| && Classify(commits[i]) == cat
  }

  /**
   * The decision rule stated on the commits themselves: any breaking commit
   * means major; else any feature, minor; else any fix, patch; otherwise patch,
   * flagged uncertain exactly when there were commits (all unrecognised).
   */
  lemma DecisionOnCommits(commits: seq<string>)
    ensures Decide(Partition(commits)) ==
      if Any(commits, Breaking) then (Major, false)
      else if Any(commits, Feature) then (Minor, false)
      else if Any(commits, Fix) then (Patch, false)
      else (Patch, commits != [])
  {
    InCategoryEmpty(commits, Breaking);
    InCategoryEmpty(commits, Feature);
    InCategoryEmpty(commits, Fix);
    InCategoryEmpty(commits, Other);
  }

  /** The uncertain flag is raised exactly when there are commits and none of them matched a rule. */
  lemma UncertainIff(commits: seq<string>)
    ensures Decide(Partition(commits)).1 <==>
      commits != [] && forall i :: 0 <= i < |commits| ==> Classify(commits[i]) == Other
  {
    DecisionOnCommits(commits);
  }

  /** A list repeated `n` times is `n` times as long. */
  lemma {:induction false} RepeatLength(s: seq<string>, n: nat)
    ensures |Repeat(s, n)| == n * |s|
  {
    if n > 0 {
      RepeatLength(s, n - 1);
      assert n * |s| == (n - 1) * |s| + |s|;
    }
  }

  /** `n` copies of one pass's lists hold `n` times the commits. */
  lemma TotalOfRepeats(commits: seq<string>, n: nat)
    ensures Total(Summary(Repeat(InCategory(commits, Breaking), n), Repeat(InCategory(commits, Feature), n),
                          Repeat(InCategory(commits, Fix), n), Repeat(InCategory(commits, Other), n)))
         == n * |commits|
  {
    var p := Partition(commits);
    RepeatLength(p.breaking, n);
    RepeatLength(p.features, n);
    RepeatLength(p.fixes, n);
    RepeatLength(p.others, n);
    PartitionSize(commits);
    assert n * |p.breaking| + n * |p.features| + n * |p.fixes| + n * |p.others|
        == n * (|p.breaking| + |p.features| + |p.fixes| + |p.others|);
  }

  /** After the first call on a new analyzer, the summary is exactly one pass over the commits. */
  lemma FirstRunSummary(a: CommitAnalyzer)
    requires a.Valid() && a.runs == 1
    ensures a.GetSummary() == Partition(a.commits)
  {
    var p := Partition(a.commits);
    assert Repeat(p.breaking, 1) == p.breaking;
    assert Repeat(p.features, 1) == p.features;
    assert Repeat(p.fixes, 1) == p.fixes;
    assert Repeat(p.others, 1) == p.others;
  }
}
