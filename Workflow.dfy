/**
 * `main`: update the trunk branch, find the latest tag, collect the commit
 * subjects since it, classify them, compute the next version, and then either
 * save a release-notes draft and stop, or read the edited notes and create the
 * tag (unless previewing).
 *
 * Git is a parameter `shell` that maps a command line to what running it gave;
 * reading the notes file is a parameter `readFile`. The run records every
 * command it issues and every file it reads or writes, in order, in a trace.
 */
module Workflow {
  import opened Wrappers
  import opened Text
  import opened Versions
  import opened Classifier
  import opened ReleaseNotes
  import opened Template
  import opened Layout

  /** What running a command gave: its exit status and standard output, or the exception raised. */
  datatype Response = Exited(status: int, stdout: string) | Raised(message: string)

  /** `run_command`'s pair: success, and the stripped output (or the exception's text). */
  datatype Reply = Reply(ok: bool, output: string)

  /** Something the run did outside itself. */
  datatype Event =
    | Ran(cmd: Command)                     // a git command
    | Saved(version: string, text: string)  // the draft written to `<version>.md`
    | Read(path: string)                    // the notes file read

  /** How the run ended. */
  datatype Outcome =
    | Failed                                                          // `sys.exit(1)`
    | NoChanges                                                       // no commits since the tag
    | DraftSaved(version: string)                                     // draft written, waiting for notes
    | Previewed(version: string, notes: string, uncertain: bool)      // `--dry-run`
    | Tagged(version: string, notes: string, pushed: bool, uncertain: bool)

  /** The command-line options. */
  datatype Options = Options(branch: string, dryRun: bool, push: bool, noUpdate: bool,
                             versionType: Option<VersionBump>, messageFile: Option<string>)

  /** The version the script assumes when there is no tag. */
  const InitialTag: string := "v0.0.0"

  // ------------------------------------------------------------ the commands

  /** The git commands the script runs; `Argv` gives each one's command line. */
  datatype Command =
    | CurrentBranch                           // get_current_branch
    | Checkout(branch: string)                // update_main_branch
    | PullBranch(branch: string)              // update_main_branch
    | Describe                                // get_latest_tag
    | Log(tag: Option<string>)                // get_commits_since_tag
    | DiffStat(tag: Option<string>)           // get_diff_stats
    | Diff(tag: Option<string>)               // get_diff_content
    | CreateAnnotatedTag(version: string, message: string)  // create_tag
    | PushTag(version: string)                // create_tag, with --push

  /** Python's truth value of an optional string: present and not empty. */
  predicate Given(tag: Option<string>) {
    tag.Some? && tag.value != []
  }

  /** The command line each command runs; the history, statistics and diff start at the tag when one is given. */
  function Argv(cmd: Command): (argv: seq<string>)
    ensures |argv| >= 3 && argv[0] == "git"
  {
    match cmd
    case CurrentBranch => ["git", "rev-parse", "--abbrev-ref", "HEAD"]
    case Checkout(branch) => ["git", "checkout", branch]
    case PullBranch(branch) => ["git", "pull", "origin", branch]
    case Describe => ["git", "describe", "--tags", "--abbrev=0"]
    case Log(tag) =>
      if Given(tag) then ["git", "log", tag.value + "..HEAD", "--pretty=format:%s"]
      else ["git", "log", "--pretty=format:%s"]
    case DiffStat(tag) =>
      if Given(tag) then ["git", "diff", "--stat", tag.value, "HEAD"] else ["git", "diff", "--stat", "--cached"]
    case Diff(tag) =>
      if Given(tag) then ["git", "diff", tag.value, "HEAD"] else ["git", "diff", "--cached"]
    case CreateAnnotatedTag(version, message) => ["git", "tag", "-a", version, "-m", message]
    case PushTag(version) => ["git", "push", "origin", version]
  }

  /** The range of a history, statistics or diff command starts at no tag or at a non-empty one. */
  predicate FromGivenTag(cmd: Command) {
    match cmd
    case Log(tag) => tag.None? || Given(tag)
    case DiffStat(tag) => tag.None? || Given(tag)
    case Diff(tag) => tag.None? || Given(tag)
    case _ => true
  }

  /**
   * Distinct commands run distinct command lines, once every range starts at
   * no tag or a non-empty one (as `SinceTag` of a base tag ensures), so a
   * shell answering by command answers by command line.
   */
  lemma ArgvDistinguishes(a: Command, b: Command)
    requires FromGivenTag(a) && FromGivenTag(b) && Argv(a) == Argv(b)
    ensures a == b
  {
    if a.Log? && b.Log? && a.tag.Some? && b.tag.Some? {
      var t, u := a.tag.value, b.tag.value;
      assert |t| == |u| by { assert |Argv(a)[2]| == |Argv(b)[2]|; }
      assert t == (t + "..HEAD")[..|t|] == (u + "..HEAD")[..|u|] == u;
    }
  }

  /** A command that creates a tag. */
  predicate CreatesTag(e: Event) {
    e.Ran? && e.cmd.CreateAnnotatedTag?
  }

  /** Some event of `events` creates a tag. */
  predicate AnyTagging(events: seq<Event>) {
    exists k :: 0 <= k < |events| && CreatesTag(events[k])
  }

  /** The last event of `events` saves `text` as the draft of `version`. */
  predicate EndsWithSaved(events: seq<Event>, version: string, text: string) {
    events != [] && events[|events| - 1] == Saved(version, text)
  }

  lemma EndsWithSavedAppend(a: seq<Event>, b: seq<Event>, version: string, text: string)
    requires EndsWithSaved(b, version, text)
    ensures EndsWithSaved(a + b, version, text)
  {
    assert (a + b)[|a + b| - 1] == b[|b| - 1];
  }

  /** Events that follow a prefix without tag commands keep what they did, and tag exactly when they do. */
  lemma AppendEvents(prefix: seq<Event>, events: seq<Event>)
    requires !AnyTagging(prefix)
    ensures AnyTagging(prefix + events) == AnyTagging(events)
    ensures forall e :: e in events ==> e in prefix + events
    ensures forall v, t :: EndsWithSaved(events, v, t) ==> EndsWithSaved(prefix + events, v, t)
  {
    AnyTaggingAppend(prefix, events);
    forall v, t | EndsWithSaved(events, v, t) ensures EndsWithSaved(prefix + events, v, t) {
      EndsWithSavedAppend(prefix, events, v, t);
    }
  }

  // --------------------------------------------------------- git, abstracted

  /** Whether `s` neither starts nor ends with whitespace, as `strip()` leaves it. */
  predicate Trimmed(s: string) {
    s == [] || (!IsSpace(s[0]) && !IsSpace(s[|s| - 1]))
  }

  /** `run_command`: exit status 0 means success; the output is stripped; an exception is a failure. */
  function RunCommand(shell: Command -> Response, cmd: Command): Reply {
    match shell(cmd)
    case Exited(status, stdout) => Reply(status == 0, Strip(stdout))
    case Raised(message) => Reply(false, message)
  }

  /** A command succeeds exactly when it exits with status 0, and its output then comes stripped. */
  lemma RunCommandReply(shell: Command -> Response, cmd: Command)
    ensures RunCommand(shell, cmd).ok <==> shell(cmd).Exited? && shell(cmd).status == 0
    ensures RunCommand(shell, cmd).ok ==> Trimmed(RunCommand(shell, cmd).output)
  {
  }

  /** `get_latest_tag`: the output of `git describe`, when it succeeds. */
  function LatestTag(shell: Command -> Response): (r: Option<string>)
    ensures r.Some? <==> RunCommand(shell, Describe).ok
    ensures r.Some? ==> Trimmed(r.value)
  {
    RunCommandReply(shell, Describe);
    var r := RunCommand(shell, Describe);
    if r.ok then Some(r.output) else None
  }

  /** The tag the new version is computed from: the latest tag, or `v0.0.0` when there is none (or it is empty). */
  function BaseTag(latest: Option<string>): (base: string)
    ensures base != []
    ensures Given(latest) ==> base == latest.value
  {
    if Given(latest) then latest.value else InitialTag
  }

  /**
   * The tag the history is taken from: none when the base is `v0.0.0`, even
   * when that tag exists. From a base tag, the range commands therefore start
   * at no tag or a non-empty one.
   */
  function SinceTag(base: string): (since: Option<string>)
    ensures since.None? <==> base == InitialTag
    ensures base != [] ==> FromGivenTag(Log(since)) && FromGivenTag(DiffStat(since)) && FromGivenTag(Diff(since))
  {
    if base != InitialTag then Some(base) else None
  }

  /** The lines of `lines` that are not blank, in order and unchanged. */
  function NonBlank(lines: seq<string>): (kept: seq<string>)
    ensures |kept| <= |lines|
    ensures forall k :: 0 <= k < |kept| ==> !IsBlank(kept[k]) && kept[k] in lines
  {
    if lines == [] then []
    else if IsBlank(lines[0]) then NonBlank(lines[1..])
    else [lines[0]] + NonBlank(lines[1..])
  }

  /** The list comprehension of `get_commits_since_tag`: the output's non-blank lines. */
  function CommitLines(output: string): (commits: seq<string>)
    ensures forall k :: 0 <= k < |commits| ==> !IsBlank(commits[k]) && '\n' !in commits[k]
  {
    NonBlank(Split(output, '\n'))
  }

  /** `get_commits_since_tag`: the subjects `git log` lists, none when it fails. */
  function CommitsSince(shell: Command -> Response, tag: Option<string>): (commits: seq<string>)
    ensures !RunCommand(shell, Log(tag)).ok ==> commits == []
    ensures forall k :: 0 <= k < |commits| ==> !IsBlank(commits[k]) && '\n' !in commits[k]
  {
    var r := RunCommand(shell, Log(tag));
    if r.ok then CommitLines(r.output) else []
  }

  /** `get_diff_stats` and `get_diff_content`: the output, or nothing when the command fails. */
  function OutputOrEmpty(shell: Command -> Response, cmd: Command): (out: string)
    ensures out != [] ==> RunCommand(shell, cmd).ok
    ensures Trimmed(out)
  {
    RunCommandReply(shell, cmd);
    var r := RunCommand(shell, cmd);
    if r.ok then r.output else []
  }

  // ------------------------------------------------ what a run should produce

  /** The base tag of a run. */
  function Base(shell: Command -> Response): string {
    BaseTag(LatestTag(shell))
  }

  /** The commits a run analyses. */
  function Pending(shell: Command -> Response): seq<string> {
    CommitsSince(shell, SinceTag(Base(shell)))
  }

  /** The bump a run applies: the one asked for, else the one the commits decide. */
  function Chosen(opts: Options, commits: seq<string>): VersionBump {
    if opts.versionType.Some? then opts.versionType.value else Decide(Partition(commits)).0
  }

  /** Whether the run flags its bump for review: only the decided bump can be uncertain. */
  predicate Uncertain(opts: Options, commits: seq<string>) {
    opts.versionType.None? && Decide(Partition(commits)).1
  }

  /** The version a run proposes. */
  function NewVersion(opts: Options, shell: Command -> Response): string {
    BumpVersion(Base(shell), Chosen(opts, Pending(shell)))
  }

  /** Whether the notes come from a file: `--message-file` given and not empty. */
  predicate UsesNotesFile(opts: Options) {
    Given(opts.messageFile)
  }

  /** The draft for `version` over `commits`, with the statistics and diff since `since`. */
  function DraftFor(wording: Wording, version: string, commits: seq<string>, since: Option<string>,
                    shell: Command -> Response): string {
    Draft(wording, version, |commits|, Partition(commits),
          OutputOrEmpty(shell, DiffStat(since)), OutputOrEmpty(shell, Diff(since)))
  }

  /** The draft a run writes when no notes file is given. */
  function RunDraft(wording: Wording, opts: Options, shell: Command -> Response): string {
    DraftFor(wording, NewVersion(opts, shell), Pending(shell), SinceTag(Base(shell)), shell)
  }

  /** Whether `update_main_branch` gets through: the current branch is known, checked out if needed, and pulled. */
  predicate UpdateSucceeds(branch: string, shell: Command -> Response) {
    var current := RunCommand(shell, CurrentBranch);
    current.ok
    && (current.output == branch || RunCommand(shell, Checkout(branch)).ok)
    && RunCommand(shell, PullBranch(branch)).ok
  }

  /** Whether a run gets past step 1: the update is skipped, or it gets through. */
  predicate Updated(opts: Options, shell: Command -> Response) {
    opts.noUpdate || UpdateSucceeds(opts.branch, shell)
  }

  /** Whether `create_tag` gets through: the tag is created, then pushed when asked. */
  predicate TagSucceeds(version: string, notes: string, push: bool, shell: Command -> Response) {
    RunCommand(shell, CreateAnnotatedTag(version, notes)).ok && (push ==> RunCommand(shell, PushTag(version)).ok)
  }

  /** Whether publishing `version` fails: the notes file cannot be read, or, outside a preview, the tag fails. */
  predicate PublishFails(opts: Options, version: string, shell: Command -> Response,
                         readFile: string -> Option<string>)
    requires UsesNotesFile(opts)
  {
    var content := readFile(opts.messageFile.value);
    content.None? || (!opts.dryRun && !TagSucceeds(version, ReadReleaseNotes(content.value), opts.push, shell))
  }

  /** How publishing `version` ends: no readable notes file fails; then a preview, or the tag when it gets through. */
  function Published(opts: Options, version: string, uncertain: bool,
                     shell: Command -> Response, readFile: string -> Option<string>): (r: Outcome)
    requires UsesNotesFile(opts)
    ensures r.Failed? || r.Previewed? || r.Tagged?
    ensures !r.Failed? ==>
              readFile(opts.messageFile.value).Some? && r.version == version && r.uncertain == uncertain
              && r.notes == ReadReleaseNotes(readFile(opts.messageFile.value).value)
    ensures r.Tagged? ==> r.pushed == opts.push
  {
    match readFile(opts.messageFile.value)
    case None => Failed
    case Some(content) =>
      var notes := ReadReleaseNotes(content);
      if opts.dryRun then Previewed(version, notes, uncertain)
      else if TagSucceeds(version, notes, opts.push, shell) then Tagged(version, notes, opts.push, uncertain)
      else Failed
  }

  /** How a run ends once the branch is up to date: no commits, the draft, or publishing. */
  function FromLatestTag(opts: Options, shell: Command -> Response, readFile: string -> Option<string>): Outcome {
    if Pending(shell) == [] then NoChanges
    else if !UsesNotesFile(opts) then DraftSaved(NewVersion(opts, shell))
    else Published(opts, NewVersion(opts, shell), Uncertain(opts, Pending(shell)), shell, readFile)
  }

  /** With commits to release, a run ends as `Proceed` does for them. */
  lemma FromLatestTagWithCommits(opts: Options, shell: Command -> Response, readFile: string -> Option<string>)
    requires Pending(shell) != []
    ensures FromLatestTag(opts, shell, readFile)
         == if UsesNotesFile(opts)
            then Published(opts, BumpVersion(Base(shell), Chosen(opts, Pending(shell))), Uncertain(opts, Pending(shell)),
                           shell, readFile)
            else DraftSaved(BumpVersion(Base(shell), Chosen(opts, Pending(shell))))
  {
  }

  /** How a run ends, from its options, what git answers and what the notes file holds. */
  function Expected(opts: Options, shell: Command -> Response, readFile: string -> Option<string>): Outcome {
    if Updated(opts, shell) then FromLatestTag(opts, shell, readFile) else Failed
  }

  /**
   * Publishing fails exactly when the notes file cannot be read or, outside a
   * dry run, the tag does not get through; it previews exactly on a dry run
   * with a readable file, and tags exactly when the tag gets through.
   */
  lemma PublishedEnds(opts: Options, version: string, uncertain: bool,
                      shell: Command -> Response, readFile: string -> Option<string>)
    requires UsesNotesFile(opts)
    ensures Published(opts, version, uncertain, shell, readFile).Failed? <==> PublishFails(opts, version, shell, readFile)
    ensures Published(opts, version, uncertain, shell, readFile).Previewed?
        <==> readFile(opts.messageFile.value).Some? && opts.dryRun
    ensures Published(opts, version, uncertain, shell, readFile).Tagged?
        <==> readFile(opts.messageFile.value).Some? && !opts.dryRun
             && TagSucceeds(version, ReadReleaseNotes(readFile(opts.messageFile.value).value), opts.push, shell)
  {
  }

  /**
   * How a run ends, case by case: it fails exactly when the update fails or,
   * with commits and a notes file, publishing fails; it stops with no changes
   * exactly when there are no commits; it saves the draft exactly when there
   * is no notes file; it previews exactly on a dry run with a readable notes
   * file; it tags exactly when the tag gets through. Every ending but a
   * failure and no changes carries the proposed version.
   */
  lemma RunEnds(opts: Options, shell: Command -> Response, readFile: string -> Option<string>)
    ensures Expected(opts, shell, readFile).Failed?
        <==> !Updated(opts, shell)
             || (Pending(shell) != [] && UsesNotesFile(opts) && PublishFails(opts, NewVersion(opts, shell), shell, readFile))
    ensures Expected(opts, shell, readFile).NoChanges? <==> Updated(opts, shell) && Pending(shell) == []
    ensures Expected(opts, shell, readFile).DraftSaved?
        <==> Updated(opts, shell) && Pending(shell) != [] && !UsesNotesFile(opts)
    ensures Expected(opts, shell, readFile).Previewed?
        <==> Updated(opts, shell) && Pending(shell) != [] && UsesNotesFile(opts) && opts.dryRun
             && readFile(opts.messageFile.value).Some?
    ensures Expected(opts, shell, readFile).Tagged?
        <==> Updated(opts, shell) && Pending(shell) != [] && UsesNotesFile(opts) && !opts.dryRun
             && readFile(opts.messageFile.value).Some?
             && TagSucceeds(NewVersion(opts, shell), ReadReleaseNotes(readFile(opts.messageFile.value).value),
                            opts.push, shell)
    ensures !Expected(opts, shell, readFile).Failed? && !Expected(opts, shell, readFile).NoChanges?
            ==> Expected(opts, shell, readFile).version == NewVersion(opts, shell)
  {
    if Updated(opts, shell) && Pending(shell) != [] && UsesNotesFile(opts) {
      PublishedEnds(opts, NewVersion(opts, shell), Uncertain(opts, Pending(shell)), shell, readFile);
    }
  }

  // -------------------------------------------------------------- the steps

  /** `update_main_branch`: switch to `branch` when elsewhere, then pull it; any failure ends the run. */
  method UpdateMainBranch(branch: string, shell: Command -> Response) returns (ok: bool, events: seq<Event>)
    ensures ok <==> UpdateSucceeds(branch, shell)
    ensures events != [] && events[0] == Ran(CurrentBranch)
    ensures ok ==> events[|events| - 1] == Ran(PullBranch(branch))
    ensures !AnyTagging(events)
  {
    events := [Ran(CurrentBranch)];
    var current := RunCommand(shell, CurrentBranch);
    if !current.ok {
      return false, events;
    }
    if current.output != branch {
      events := events + [Ran(Checkout(branch))];
      var checkout := RunCommand(shell, Checkout(branch));
      if !checkout.ok {
        return false, events;
      }
    }
    events := events + [Ran(PullBranch(branch))];
    var pull := RunCommand(shell, PullBranch(branch));
    ok := pull.ok;
  }

  /** `create_tag`: an annotated tag carrying the notes, then the push when asked; any failure ends the run. */
  method CreateTag(version: string, description: string, push: bool, shell: Command -> Response)
    returns (ok: bool, events: seq<Event>)
    ensures events != [] && events[0] == Ran(CreateAnnotatedTag(version, description))
    ensures ok <==> RunCommand(shell, CreateAnnotatedTag(version, description)).ok
                    && (push ==> RunCommand(shell, PushTag(version)).ok)
    ensures ok <==> TagSucceeds(version, description, push, shell)
    ensures |events| == if push && RunCommand(shell, CreateAnnotatedTag(version, description)).ok then 2 else 1
    ensures |events| == 2 ==> events[1] == Ran(PushTag(version))
  {
    events := [Ran(CreateAnnotatedTag(version, description))];
    var created := RunCommand(shell, CreateAnnotatedTag(version, description));
    if !created.ok {
      return false, events;
    }
    ok := true;
    if push {
      events := events + [Ran(PushTag(version))];
      var pushed := RunCommand(shell, PushTag(version));
      ok := pushed.ok;
    }
  }

  /**
   * Steps 4 and 5 of `main`: analyse the commits with a new analyzer, let
   * `--version-type` override the bump (and clear the uncertain flag), and
   * bump the base tag.
   */
  method Analyse(opts: Options, commits: seq<string>, base: string)
    returns (analyzer: CommitAnalyzer, newVersion: string, isUncertain: bool)
    ensures fresh(analyzer) && analyzer.commits == commits
    ensures analyzer.GetSummary() == Partition(commits)
    ensures newVersion == BumpVersion(base, Chosen(opts, commits))
    ensures isUncertain == Uncertain(opts, commits)
  {
    analyzer := new CommitAnalyzer(commits);
    var bumpType;
    bumpType, isUncertain := analyzer.Analyze();
    FirstRunSummary(analyzer);
    if opts.versionType.Some? {
      bumpType, isUncertain := opts.versionType.value, false;
    }
    newVersion := BumpVersion(base, bumpType);
  }

  /** Step 7 without a notes file: render the draft and save it as `<version>.md`; the run then stops. */
  method SaveDraft(wording: Wording, newVersion: string, commits: seq<string>, diffStats: string, diffContent: string,
                   analyzer: CommitAnalyzer)
    returns (outcome: Outcome, events: seq<Event>)
    ensures outcome == DraftSaved(newVersion)
    ensures events == [Saved(newVersion, Draft(wording, newVersion, |commits|, analyzer.GetSummary(),
                                                diffStats, diffContent))]
  {
    var template := GenerateReleaseNotesTemplate(wording, newVersion, commits, diffContent, diffStats, analyzer);
    outcome := DraftSaved(newVersion);
    events := [Saved(newVersion, template)];
  }

  /**
   * Steps 7 and 8 with a notes file: read the notes back (a file that cannot
   * be read ends the run), then preview them or create the tag carrying them.
   * The notes are read as `read_release_notes` reads them, after the first
   * marker and up to the next one; a diff excerpt that shows the marker
   * therefore loses them (`PublishedMarkedDiff`).
   */
  method Publish(opts: Options, newVersion: string, isUncertain: bool,
                 shell: Command -> Response, readFile: string -> Option<string>)
    returns (outcome: Outcome, events: seq<Event>)
    requires UsesNotesFile(opts)
    ensures outcome == Published(opts, newVersion, isUncertain, shell, readFile)
    ensures events != [] && events[0] == Read(opts.messageFile.value)
    ensures readFile(opts.messageFile.value).None? ==> !AnyTagging(events)
    ensures outcome.Tagged? ==> Ran(CreateAnnotatedTag(outcome.version, outcome.notes)) in events
    ensures AnyTagging(events) ==> !opts.dryRun
  {
    var path := opts.messageFile.value;
    events := [Read(path)];
    var description: string;
    match readFile(path)
    case None =>
      return Failed, events;
    case Some(content) =>
      description := ReadReleaseNotes(content);

    if opts.dryRun {
      return Previewed(newVersion, description, isUncertain), events;
    }
    var tagged, tagEvents := CreateTag(newVersion, description, opts.push, shell);
    assert Ran(CreateAnnotatedTag(newVersion, description)) == (events + tagEvents)[1];
    events := events + tagEvents;
    if !tagged {
      return Failed, events;
    }
    outcome := Tagged(newVersion, description, opts.push, isUncertain);
  }

  /** Joining two event lists creates a tag exactly when one of them does. */
  lemma AnyTaggingAppend(a: seq<Event>, b: seq<Event>)
    ensures AnyTagging(a + b) <==> AnyTagging(a) || AnyTagging(b)
  {
    if AnyTagging(a + b) {
      var k :| 0 <= k < |a + b| && CreatesTag((a + b)[k]);
      if k < |a| {
        assert (a + b)[k] == a[k];
      } else {
        assert (a + b)[k] == b[k - |a|];
      }
    }
    if AnyTagging(a) {
      var k :| 0 <= k < |a| && CreatesTag(a[k]);
      assert (a + b)[k] == a[k];
    }
    if AnyTagging(b) {
      var k :| 0 <= k < |b| && CreatesTag(b[k]);
      assert (a + b)[|a| + k] == b[k];
    }
  }

  /** A single event that is no tag command creates no tag. */
  lemma NoTaggingOne(e: Event)
    requires !CreatesTag(e)
    ensures !AnyTagging([e])
  {
    forall k | 0 <= k < 1 ensures !CreatesTag([e][k]) {
      assert k == 0;
    }
  }

  /** Two events that are no tag commands create no tag. */
  lemma NoTaggingTwo(e: Event, f: Event)
    requires !CreatesTag(e) && !CreatesTag(f)
    ensures !AnyTagging([e, f])
  {
    forall k | 0 <= k < 2 ensures !CreatesTag([e, f][k]) {
      assert k == 0 || k == 1;
    }
  }

  /**
   * `main` once there are commits: analyse them, compute the version from
   * `base`, fetch the statistics and the diff since `since`, then save the
   * draft or publish the notes.
   */
  method Proceed(wording: Wording, opts: Options, commits: seq<string>, base: string, since: Option<string>,
                 shell: Command -> Response, readFile: string -> Option<string>)
    returns (outcome: Outcome, events: seq<Event>)
    ensures outcome == if UsesNotesFile(opts)
                       then Published(opts, BumpVersion(base, Chosen(opts, commits)), Uncertain(opts, commits),
                                      shell, readFile)
                       else DraftSaved(BumpVersion(base, Chosen(opts, commits)))
    ensures outcome.DraftSaved? ==> EndsWithSaved(events, outcome.version, DraftFor(wording, outcome.version, commits, since, shell))
    ensures outcome.Tagged? ==> Ran(CreateAnnotatedTag(outcome.version, outcome.notes)) in events
    ensures AnyTagging(events) ==> UsesNotesFile(opts) && !opts.dryRun
  {
    var analyzer, newVersion, isUncertain := Analyse(opts, commits, base);
    events := [];
    if isUncertain {
      // the diff is fetched once more, for the review printout
      events := [Ran(Diff(since))];
      NoTaggingOne(events[0]);
    }

    var fetches := [Ran(DiffStat(since)), Ran(Diff(since))];
    NoTaggingTwo(fetches[0], fetches[1]);
    AnyTaggingAppend(events, fetches);
    events := events + fetches;
    var diffStats := OutputOrEmpty(shell, DiffStat(since));
    var diffContent := OutputOrEmpty(shell, Diff(since));

    var last;
    if !Given(opts.messageFile) {
      outcome, last := SaveDraft(wording, newVersion, commits, diffStats, diffContent, analyzer);
      NoTaggingOne(last[0]);
      EndsWithSavedAppend(events, last, newVersion, DraftFor(wording, newVersion, commits, since, shell));
    } else {
      outcome, last := Publish(opts, newVersion, isUncertain, shell, readFile);
    }
    AnyTaggingAppend(events, last);
    events := events + last;
  }

  /**
   * Steps 2 to 8 of `main`: find the base tag, list the commits since it, and
   * stop when there are none; otherwise go on with them.
   */
  method ReleaseFromLatestTag(wording: Wording, opts: Options, shell: Command -> Response,
                              readFile: string -> Option<string>)
    returns (outcome: Outcome, trace: seq<Event>)
    ensures outcome == FromLatestTag(opts, shell, readFile)
    ensures outcome.DraftSaved? ==> EndsWithSaved(trace, outcome.version, RunDraft(wording, opts, shell))
    ensures outcome.Tagged? ==> Ran(CreateAnnotatedTag(outcome.version, outcome.notes)) in trace
    ensures AnyTagging(trace) ==> Pending(shell) != [] && UsesNotesFile(opts) && !opts.dryRun
  {
    var since := SinceTag(Base(shell));
    trace := [Ran(Describe), Ran(Log(since))];
    NoTaggingTwo(trace[0], trace[1]);
    if Pending(shell) == [] {
      return NoChanges, trace;
    }

    var events;
    outcome, events := ReleasePending(wording, opts, shell, readFile);
    AppendEvents(trace, events);
    trace := trace + events;
  }

  /** Steps 4 to 8 of `main`, once the base tag has commits after it. */
  method ReleasePending(wording: Wording, opts: Options, shell: Command -> Response,
                        readFile: string -> Option<string>)
    returns (outcome: Outcome, events: seq<Event>)
    requires Pending(shell) != []
    ensures outcome == FromLatestTag(opts, shell, readFile)
    ensures outcome.DraftSaved? ==> EndsWithSaved(events, outcome.version, RunDraft(wording, opts, shell))
    ensures outcome.Tagged? ==> Ran(CreateAnnotatedTag(outcome.version, outcome.notes)) in events
    ensures AnyTagging(events) ==> UsesNotesFile(opts) && !opts.dryRun
  {
    var latestTag := Base(shell);
    var since := SinceTag(latestTag);
    var commits := Pending(shell);
    outcome, events := Proceed(wording, opts, commits, latestTag, since, shell, readFile);
    FromLatestTagWithCommits(opts, shell, readFile);
    if outcome.DraftSaved? {
      assert !UsesNotesFile(opts);
      assert outcome.version == NewVersion(opts, shell);
      assert DraftFor(wording, outcome.version, commits, since, shell) == RunDraft(wording, opts, shell);
    }
  }

  /**
   * `main`. Without commits it stops before any tag work; without a notes
   * file it saves the draft and stops; with `--dry-run` it previews; only
   * otherwise does it create the tag, for the proposed version, carrying the
   * notes read back from the file.
   */
  method Run(wording: Wording, opts: Options, shell: Command -> Response, readFile: string -> Option<string>)
    returns (outcome: Outcome, trace: seq<Event>)
    ensures outcome == Expected(opts, shell, readFile)
    ensures outcome.DraftSaved? ==> EndsWithSaved(trace, outcome.version, RunDraft(wording, opts, shell))
    ensures outcome.Tagged? ==> Ran(CreateAnnotatedTag(outcome.version, outcome.notes)) in trace
    ensures AnyTagging(trace) ==> Pending(shell) != [] && UsesNotesFile(opts) && !opts.dryRun
  {
    trace := [];
    if !opts.noUpdate {
      var updated;
      updated, trace := UpdateMainBranch(opts.branch, shell);
      if !updated {
        return Failed, trace;
      }
    }

    var events;
    outcome, events := ReleaseFromLatestTag(wording, opts, shell, readFile);
    AppendEvents(trace, events);
    trace := trace + events;
  }

  // ------------------------------------------------------------------ lemmas

  /** The kept lines are exactly the non-blank ones. */
  lemma {:induction false} NonBlankMembers(lines: seq<string>, x: string)
    ensures x in NonBlank(lines) <==> x in lines && !IsBlank(x)
  {
    if lines != [] {
      NonBlankMembers(lines[1..], x);
      assert lines == [lines[0]] + lines[1..];
    }
  }

  /** Lines that are all non-blank are all kept. */
  lemma {:induction false} NonBlankKeepsAll(lines: seq<string>)
    requires forall k :: 0 <= k < |lines| ==> !IsBlank(lines[k])
    ensures NonBlank(lines) == lines
  {
    if lines != [] {
      NonBlankKeepsAll(lines[1..]);
      assert lines == [lines[0]] + lines[1..];
    }
  }

  /**
   * Filtering is done line by line: the lines kept from two runs of lines are
   * those kept from the first, then those kept from the second.
   */
  lemma {:induction false} NonBlankAppend(a: seq<string>, b: seq<string>)
    ensures NonBlank(a + b) == NonBlank(a) + NonBlank(b)
  {
    if a == [] {
      assert a + b == b;
    } else {
      var ab := a + b;
      NonBlankAppend(a[1..], b);
      assert ab[0] == a[0] && ab[1..] == a[1..] + b;
      if IsBlank(a[0]) {
        assert NonBlank(ab) == NonBlank(a[1..] + b);
      } else {
        assert NonBlank(ab) == [a[0]] + NonBlank(a[1..] + b);
      }
    }
  }

  /** A single line is kept exactly when it is not blank. */
  lemma NonBlankOne(x: string)
    ensures NonBlank([x]) == if IsBlank(x) then [] else [x]
  {
    assert [x][1..] == [];
  }

  /** Subject lines printed one per line come back unchanged, in order. */
  lemma CommitLinesOfJoin(lines: seq<string>)
    requires forall k :: 0 <= k < |lines| ==> !IsBlank(lines[k]) && '\n' !in lines[k]
    ensures CommitLines(Join(lines, '\n')) == lines
  {
    if lines == [] {
      assert Split([], '\n') == [[]];
      assert IsBlank([]);
    } else {
      SplitJoin(lines, '\n');
      NonBlankKeepsAll(lines);
    }
  }

  /** A version string holds no hand. */
  lemma VersionNoGlyph(v: Version)
    ensures NoGlyph(FormatVersion(v))
  {
    DigitsNoGlyph(v.major);
    DigitsNoGlyph(v.minor);
    DigitsNoGlyph(v.patch);
  }

  /** A version string is never blank: it starts with `v`. */
  lemma VersionNotBlank(v: Version)
    ensures !IsBlank(FormatVersion(v))
  {
    assert FormatVersion(v)[0] == 'v';
  }

  /**
   * Without a tag, or with a tag that is literally `v0.0.0` (or empty), the run
   * reads the whole history and bumps from 0.0.0.
   */
  lemma InitialTagMeansWholeHistory(opts: Options, shell: Command -> Response)
    requires !Given(LatestTag(shell)) || LatestTag(shell) == Some(InitialTag)
    ensures Pending(shell) == CommitsSince(shell, None)
    ensures ParseVersion(NewVersion(opts, shell)) == Bump(Version(0, 0, 0), Chosen(opts, Pending(shell)))
  {
    InitialTagReadsZero();
    assert Base(shell) == InitialTag;
  }

  /** The assumed first tag reads as 0.0.0. */
  lemma InitialTagReadsZero()
    ensures ParseVersion(InitialTag) == Version(0, 0, 0)
  {
    InitialTagSpelled();
    ParseOneDigitFields("v", '0', '0', '0', "");
  }

  lemma InitialTagSpelled()
    ensures InitialTag == "v" + ['0'] + "." + ['0'] + "." + ['0'] + ""
  {
  }

  /** `--version-type` decides the bump, and the run is then never flagged uncertain. */
  lemma VersionTypeOverrides(opts: Options, shell: Command -> Response)
    requires opts.versionType.Some?
    ensures ParseVersion(NewVersion(opts, shell)) == Bump(ParseVersion(Base(shell)), opts.versionType.value)
    ensures !Uncertain(opts, Pending(shell))
  {
  }

  /** Without an override, a run is flagged uncertain exactly when it has commits and none matched a rule. */
  lemma UncertainWhenNothingMatched(opts: Options, commits: seq<string>)
    requires opts.versionType.None?
    ensures Uncertain(opts, commits) <==>
              commits != [] && forall i :: 0 <= i < |commits| ==> Classify(commits[i]) == Other
  {
    UncertainIff(commits);
  }

  /** Whether the commits, statistics and diff a run puts into its draft are free of the hand. */
  predicate DraftInputsNoGlyph(shell: Command -> Response) {
    var since := SinceTag(Base(shell));
    (forall k :: 0 <= k < |Pending(shell)| ==> NoGlyph(Pending(shell)[k]))
    && NoGlyph(OutputOrEmpty(shell, DiffStat(since))) && NoGlyph(OutputOrEmpty(shell, Diff(since)))
  }

  /**
   * As written, a run's draft reads back whole while unedited, and as exactly
   * the notes written below the marker, when neither the wording (the
   * script's, by `ScriptNoGlyph`) nor anything the run puts into it shows the
   * hand.
   */
  lemma SavedDraftReadsBackAsWritten(wording: Wording, opts: Options, shell: Command -> Response, notes: string)
    requires WordingNoGlyph(wording) && DraftInputsNoGlyph(shell)
    requires NoGlyph(notes) && !IsBlank(notes)
    ensures ReadReleaseNotes(RunDraft(wording, opts, shell)) == Strip(RunDraft(wording, opts, shell))
    ensures ReadReleaseNotes(RunDraft(wording, opts, shell) + notes) == Strip(notes)
  {
    var commits := Pending(shell);
    var since := SinceTag(Base(shell));
    var version := NewVersion(opts, shell);
    VersionNoGlyph(ParseVersion(version));
    PartitionNoGlyph(commits);
    UneditedDraftReadsWhole(wording, version, |commits|, Partition(commits),
                            OutputOrEmpty(shell, DiffStat(since)), OutputOrEmpty(shell, Diff(since)));
    EditedDraftReadsNotes(wording, version, |commits|, Partition(commits),
                          OutputOrEmpty(shell, DiffStat(since)), OutputOrEmpty(shell, Diff(since)), notes);
  }

  /**
   * Publishing the saved draft with notes written below its marker previews
   * or tags exactly those notes, when nothing in the draft but its own
   * marker shows the hand.
   */
  lemma PublishedSavedDraft(wording: Wording, opts: Options, shell: Command -> Response,
                            readFile: string -> Option<string>, notes: string)
    requires UsesNotesFile(opts) && WordingNoGlyph(wording) && DraftInputsNoGlyph(shell)
    requires readFile(opts.messageFile.value) == Some(RunDraft(wording, opts, shell) + notes)
    requires NoGlyph(notes) && !IsBlank(notes)
    ensures var r := Published(opts, NewVersion(opts, shell), Uncertain(opts, Pending(shell)), shell, readFile);
            !r.Failed? ==> r.notes == Strip(notes)
    ensures Published(opts, NewVersion(opts, shell), Uncertain(opts, Pending(shell)), shell, readFile).Tagged?
        <==> !opts.dryRun && TagSucceeds(NewVersion(opts, shell), Strip(notes), opts.push, shell)
  {
    var version := NewVersion(opts, shell);
    var content := RunDraft(wording, opts, shell) + notes;
    SavedDraftReadsBackAsWritten(wording, opts, shell, notes);
    PublishedReading(opts, version, Uncertain(opts, Pending(shell)), shell, readFile, content, Strip(notes));
  }

  /** Publishing a readable file whose notes read as `text` previews or tags `text`. */
  lemma PublishedReading(opts: Options, version: string, uncertain: bool, shell: Command -> Response,
                         readFile: string -> Option<string>, content: string, text: string)
    requires UsesNotesFile(opts) && readFile(opts.messageFile.value) == Some(content)
    requires ReadReleaseNotes(content) == text
    ensures !Published(opts, version, uncertain, shell, readFile).Failed?
            ==> Published(opts, version, uncertain, shell, readFile).notes == text
    ensures Published(opts, version, uncertain, shell, readFile).Tagged?
        <==> !opts.dryRun && TagSucceeds(version, text, opts.push, shell)
  {
  }

  /**
   * As written, when the diff excerpt shows the marker line, publishing the
   * saved draft previews or tags the diff's tail and the writing guide, not
   * the notes written below.
   */
  lemma PublishedMarkedDiff(wording: Wording, opts: Options, shell: Command -> Response,
                            readFile: string -> Option<string>, pre: string, post: string, notes: string)
    requires UsesNotesFile(opts) && WordingNoGlyph(wording)
    requires forall k :: 0 <= k < |Pending(shell)| ==> NoGlyph(Pending(shell)[k])
    requires NoGlyph(OutputOrEmpty(shell, DiffStat(SinceTag(Base(shell)))))
    requires OutputOrEmpty(shell, Diff(SinceTag(Base(shell)))) == pre + Marker + post
    requires NoGlyph(pre) && NoGlyph(post) && |pre + Marker + post| <= DiffLimit
    requires readFile(opts.messageFile.value) == Some(RunDraft(wording, opts, shell) + notes)
    ensures var r := Published(opts, NewVersion(opts, shell), Uncertain(opts, Pending(shell)), shell, readFile);
            !r.Failed? ==> r.notes == Strip(post + "\n" + (wording.guide + NewVersion(opts, shell) + wording.exampleClose))
  {
    var commits := Pending(shell);
    var since := SinceTag(Base(shell));
    var version := NewVersion(opts, shell);
    VersionNoGlyph(ParseVersion(version));
    VersionNotBlank(ParseVersion(version));
    PartitionNoGlyph(commits);
    MarkerInDiffLosesNotes(wording, version, |commits|, Partition(commits),
                           OutputOrEmpty(shell, DiffStat(since)), pre, post, notes);
    PublishedReading(opts, version, Uncertain(opts, Pending(shell)), shell, readFile,
                     RunDraft(wording, opts, shell) + notes, Strip(post + "\n" + (wording.guide + version + wording.exampleClose)));
  }

  /**
   * With the corrected read (after the last marker), the draft a run saves
   * reads back whole while unedited, and as exactly the notes once they are
   * written below the marker, whatever the commits, statistics and diff hold.
   */
  lemma SavedDraftReadsBack(wording: Wording, opts: Options, shell: Command -> Response, notes: string)
    requires NoGlyph(notes) && !IsBlank(notes)
    ensures ReadLatestNotes(RunDraft(wording, opts, shell)) == Strip(RunDraft(wording, opts, shell))
    ensures ReadLatestNotes(RunDraft(wording, opts, shell) + notes) == Strip(notes)
  {
    var commits := Pending(shell);
    var since := SinceTag(Base(shell));
    var version := NewVersion(opts, shell);
    UneditedDraftLatestWhole(wording, version, |commits|, Partition(commits),
                             OutputOrEmpty(shell, DiffStat(since)), OutputOrEmpty(shell, Diff(since)));
    DraftLatestNotes(wording, version, |commits|, Partition(commits),
                     OutputOrEmpty(shell, DiffStat(since)), OutputOrEmpty(shell, Diff(since)), notes);
  }
}
