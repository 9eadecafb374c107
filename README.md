# release-tag: version analysis, modelled in Dafny

This project models `skills/release-tag/scripts/analyze_version.py`, the script
behind the `release-tag` skill. The script reads the conventional-commit subject
lines since the latest git tag and sorts them into breaking changes, features,
fixes and others. From that it decides a semantic-version bump (major, minor or
patch, flagged *uncertain* when no commit matched a rule). It then renders a
release-notes draft that ends in a marker line and reads the edited draft back.
Finally it creates the annotated tag, and pushes it when asked.

The modules follow the script:

- `Text` models the Python string operations the script relies on: `strip`,
  `lower`, substring search for `in`, `split` on one character, and decimal
  formatting of integers. The split on the marker string is modelled in
  `ReleaseNotes` (`SecondPart`).
- `Versions` models `VersionBump`, `parse_version` and `bump_version`.
- `Classifier` models the `CommitAnalyzer` class, as a class whose four lists
  `analyze` appends to.
- `Template` holds the fixed wording of the draft, one constant per line, and the
  marker line. `Layout` gathers that wording into the `Wording` record;
  `Layout.Script` is the script's own wording.
- `ReleaseNotes` models `generate_release_notes_template` as a method that grows
  the draft, specified by the function `Draft`. It also models the extraction
  part of `read_release_notes` as written (`ReadReleaseNotes`) and as evidently
  intended (`ReadLatestNotes`); see "Findings".
- `Workflow` models `main` and its git helpers. Git is a parameter
  `shell: Command -> Response` and reading the notes file is a parameter
  `readFile`. The run returns an `Outcome` and a trace of every command it
  issued and every file it wrote or read.

Where the code does something other than what its own comments and output
text suggest, the model follows the code:

- The script's comment at line 349 says to take the content after the marker,
  and the draft's last line (line 323) asks for the notes below it. As written,
  the notes are the text after the **first** marker line, up to a second marker
  if there is one (`content.split(marker)[1]`). `ReadReleaseNotes`
  models exactly that, and the run (`Workflow.Published`, `Workflow.Run`) tags
  with it. A draft whose diff excerpt shows the marker line then loses the notes
  written below it (`Workflow.PublishedMarkedDiff`). The read after the **last**
  marker (`ReadLatestNotes`) is modelled beside it as the evident intent; see
  "Findings".
- `!:` makes a commit breaking wherever it occurs in the message, not only right
  after a type prefix.
- With no usable tag, the statistics and the diff are those of the staged
  changes (`git diff --cached`). A tag that is literally `v0.0.0` is treated as
  no tag when querying history.

## Model

| member | source | states |
|---|---|---|
| Text.Strip | skills/release-tag/scripts/analyze_version.py:110 | `str.strip()`: the result is empty exactly when the input is all whitespace; otherwise it starts and ends with a non-space; it occurs in the input just after the leading whitespace, and only whitespace follows it |
| Text.Lower | skills/release-tag/scripts/analyze_version.py:61 | `str.lower()`: same length, each character folded |
| Text.IndexOf | skills/release-tag/scripts/analyze_version.py:351 | the first index where the pattern occurs, and no occurrence before it; none when it occurs nowhere |
| Text.LastIndexOf | skills/release-tag/scripts/analyze_version.py:350-356 | the last index where the pattern occurs, with no occurrence after it; none when it occurs nowhere |
| Text.ContainsIff | skills/release-tag/scripts/analyze_version.py:351 | `marker in content` holds exactly when the marker occurs at some index |
| Text.Split | skills/release-tag/scripts/analyze_version.py:192 | `split('\n')`: at least one piece, and no piece contains the separator |
| Text.JoinSplit | skills/release-tag/scripts/analyze_version.py:192 | joining the pieces with the separator gives back the input |
| Text.SplitJoin | skills/release-tag/scripts/analyze_version.py:192 | splitting a join of separator-free pieces gives back the pieces |
| Text.NatToString | skills/release-tag/scripts/analyze_version.py:234 | an integer in an f-string: non-empty decimal digits whose value is the number, starting with `0` only for zero itself |
| Text.LeadingDigits | skills/release-tag/scripts/analyze_version.py:162 | `\d+`: the longest run of digits at the start |
| Versions.ParseVersion | skills/release-tag/scripts/analyze_version.py:157-166 | the definition of `parse_version`: after the leading lower-case `v`s, three digit runs separated by dots at the start read as decimal numbers, anything else gives 0.0.0; characterised in both directions by `ParseVersionOfShape` and `ParsedHasShape`, and by `ParseVersionNeedsDigit` |
| Versions.FormatVersion | skills/release-tag/scripts/analyze_version.py:174-178 | the tag form `v{major}.{minor}.{patch}`: a `v` followed only by digits and dots; `ParseFormat` proves it reads back as the version printed |
| Versions.Bump | skills/release-tag/scripts/analyze_version.py:172-178 | the increment: the result is above the version (`Less`), and `BumpIsLeast` proves it is the least version above it at that level, the lower parts restarting at 0 |
| Versions.BumpVersion | skills/release-tag/scripts/analyze_version.py:169-178 | the result starts with `v`, parses back as the bump of the parsed current version, is strictly greater than it, and is canonical: formatting what it parses to gives it back |
| Versions.ParseVersionOfShape | skills/release-tag/scripts/analyze_version.py:157-166 | any number of leading `v`s, three digit runs separated by dots, then anything not starting with a digit: parses to the three values |
| Versions.ParsedHasShape | skills/release-tag/scripts/analyze_version.py:157-166 | conversely, a string that does not parse to 0.0.0 is leading `v`s, three non-empty digit runs separated by dots, then text not starting with a digit |
| Versions.ParseOneDigitFields | skills/release-tag/scripts/analyze_version.py:157-166 | leading `v`s and three one-digit fields parse to those three digits, whatever non-digit text follows |
| Versions.ParseVersionNeedsDigit | skills/release-tag/scripts/analyze_version.py:160-166 | a string with no digit after the leading `v`s parses to 0.0.0 |
| Versions.ParseFormat | skills/release-tag/scripts/analyze_version.py:157-178 | `parse_version("v{a}.{b}.{c}") == (a, b, c)` for all naturals |
| Versions.BumpStable | skills/release-tag/scripts/analyze_version.py:169-178 | bumping a formatted version formats the bumped triple |
| Versions.BumpIsLeast | skills/release-tag/scripts/analyze_version.py:169-178 | the bump exceeds the current version at its level (major part; major and minor parts; whole triple), and is the least version that does |
| Versions.BumpIncreases | skills/release-tag/scripts/analyze_version.py:169-178 | every bump gives a lexicographically greater triple |
| Versions.ParseVersionPlain | skills/release-tag/scripts/analyze_version.py:157-164 | `v2.3.1` parses to (2, 3, 1) |
| Versions.ParseVersionSuffix | skills/release-tag/scripts/analyze_version.py:162-164 | `1.2.3-rc1` parses to (1, 2, 3) |
| Versions.ParseVersionRejects | skills/release-tag/scripts/analyze_version.py:160-166 | `garbage`, `V1.2.3` and `1.2` parse to (0, 0, 0) |
| Versions.BumpFrom149 | skills/release-tag/scripts/analyze_version.py:169-178 | any tag reading as 1.4.9 bumps to `v2.0.0`, `v1.5.0` or `v1.4.10` |
| Versions.BumpVersionExamples | skills/release-tag/scripts/analyze_version.py:169-178 | `v1.4.9` bumps to `v2.0.0`, `v1.5.0` or `v1.4.10` |
| Versions.BumpFromUnparsed | skills/release-tag/scripts/analyze_version.py:166-178 | a tag that does not parse bumps from 0.0.0 |
| Classifier.IsBreaking | skills/release-tag/scripts/analyze_version.py:32-35 | `BREAKING_PATTERNS` searched anywhere with `re.IGNORECASE`: `breaking change` or `breaking-change` in any case, or `!:`; `NotBreaking` gives a condition under which none matches |
| Classifier.IsFeature | skills/release-tag/scripts/analyze_version.py:37-40 | `FEATURE_PATTERNS` on the lower-cased message: `feat` or `feature` at the start, an optional one-line parenthesised scope, then `:`; a match starts with `fe` |
| Classifier.IsFix | skills/release-tag/scripts/analyze_version.py:42-45 | `FIX_PATTERNS` likewise for `fix` and `bugfix`; no message matches both these and the feature patterns |
| Classifier.Classify | skills/release-tag/scripts/analyze_version.py:60-78 | the if/elif chain: breaking exactly when a breaking pattern matches; a fix exactly when a fix pattern matches and it is not breaking (the feature rule cannot intervene); a feature only when a feature pattern matches; other exactly when no rule matches |
| Classifier.Decide | skills/release-tag/scripts/analyze_version.py:80-92 | the decision on the four lists: major exactly when something is breaking; uncertain exactly when only the others list holds commits, and then a patch; `DecisionOnCommits` states the whole order on the commits |
| Classifier.CommitAnalyzer.constructor | skills/release-tag/scripts/analyze_version.py:47-52 | the commits are kept and the four lists start empty |
| Classifier.CommitAnalyzer.Analyze | skills/release-tag/scripts/analyze_version.py:54-92 | each list grows by the commits of its category, in input order; the result is the decision on the lists; a second call appends the same commits again |
| Classifier.CommitAnalyzer.AppendAll | skills/release-tag/scripts/analyze_version.py:60-78 | the loop appends each commit to the list of its category, in input order |
| Classifier.CommitAnalyzer.GetSummary | skills/release-tag/scripts/analyze_version.py:94-101 | the summary's breaking, feature, fix and other lists are the analyzer's four lists; after `n` calls of `analyze` they hold `n` times the commits |
| Classifier.FirstRunSummary | skills/release-tag/scripts/analyze_version.py:47-101 | after the first `analyze` on a new analyzer, the summary is exactly one pass over the commits |
| Classifier.PartitionSize | skills/release-tag/scripts/analyze_version.py:60-78 | the four list lengths add up to the number of commits |
| Classifier.InCategoryMembers | skills/release-tag/scripts/analyze_version.py:60-78 | a commit is in a list exactly when it is one of the commits and classifies into that list |
| Classifier.ExactlyOneList | skills/release-tag/scripts/analyze_version.py:60-78 | every commit is in the list of its own category and in no other |
| Classifier.InCategoryEmpty | skills/release-tag/scripts/analyze_version.py:81-89 | a list is empty exactly when no commit classifies into it |
| Classifier.DecisionOnCommits | skills/release-tag/scripts/analyze_version.py:80-92 | any breaking gives (major, certain); else any feature gives (minor, certain); else any fix gives (patch, certain); else patch, uncertain exactly when there were commits |
| Classifier.UncertainIff | skills/release-tag/scripts/analyze_version.py:87-92 | uncertain exactly when there are commits and none matched a rule |
| Classifier.TotalOfRepeats | skills/release-tag/scripts/analyze_version.py:47-78 | lists holding `n` passes hold `n` times the commits |
| Classifier.NotBreaking | skills/release-tag/scripts/analyze_version.py:32-35 | a message without `b` in lower case and without `!` matches no breaking pattern |
| Classifier.NoTypePrefixAt | skills/release-tag/scripts/analyze_version.py:37-45 | a lower-cased message that differs from a type inside the type's letters does not have that type |
| Classifier.NoTypeAfter | skills/release-tag/scripts/analyze_version.py:37-45 | a type followed by neither `:` nor `(` is not matched |
| Classifier.ScopeAccepted | skills/release-tag/scripts/analyze_version.py:38 | a type, a non-empty one-line scope in parentheses and a colon match `(\(.+\))?:` |
| Classifier.FeatureExample | skills/release-tag/scripts/analyze_version.py:70-73 | `Feat: x` is a feature: types are matched in lower case |
| Classifier.ScopedFixExample | skills/release-tag/scripts/analyze_version.py:75-76 | `Fix(<scope>):<rest>` is a fix whenever it holds no other capital, no `b`, no `!` and the scope no newline |
| Classifier.BangBeatsFeature | skills/release-tag/scripts/analyze_version.py:64-68 | `feat(api)!: x` is breaking: the breaking rule is tried first |
| Classifier.UnrecognisedExample | skills/release-tag/scripts/analyze_version.py:77-78 | `chore: feat: x` is other: types are anchored at the start |
| Classifier.SpacedScopeExample | skills/release-tag/scripts/analyze_version.py:77-78 | `feat (x): y` is other: nothing may stand between type and scope |
| Layout.ScriptNoGlyph | skills/release-tag/scripts/analyze_version.py:227-321 | none of the script's fixed wording contains the marker's hand |
| ReleaseNotes.Draft | skills/release-tag/scripts/analyze_version.py:227-325 | the text of the draft: header with version and counts, the non-empty sections in order, statistics, the diff excerpt and its remainder note, guide, marker line; characterised by `DraftShape`, `DiffAccounted` and `SectionEmpty`, and built line by line by `GenerateReleaseNotesTemplate` |
| ReleaseNotes.GenerateReleaseNotesTemplate | skills/release-tag/scripts/analyze_version.py:217-327 | the draft grown line by line is `Draft`: header with version and counts, the non-empty sections in order, statistics, diff excerpt, guide, marker |
| ReleaseNotes.AppendSection | skills/release-tag/scripts/analyze_version.py:245-267 | a section is appended as its title, one `- ` line per commit in order, and a blank line, and nothing for an empty list |
| ReleaseNotes.SectionEmpty | skills/release-tag/scripts/analyze_version.py:245-267 | a section is empty exactly when its list is |
| ReleaseNotes.BulletsAppend | skills/release-tag/scripts/analyze_version.py:247-248 | the bullet lines of two lists are the bullet lines of each, in order |
| ReleaseNotes.BulletOfOne | skills/release-tag/scripts/analyze_version.py:248 | one commit gives the line `- <commit>` |
| ReleaseNotes.DiffAccounted | skills/release-tag/scripts/analyze_version.py:282-283 | the excerpt is the first `min(len, 5000)` characters of the diff; the remainder note is absent exactly when the excerpt is the whole diff, and otherwise gives the number of characters left out |
| ReleaseNotes.DraftShape | skills/release-tag/scripts/analyze_version.py:323-325 | the draft ends with the marker line and a blank line |
| ReleaseNotes.BodyNoGlyph | skills/release-tag/scripts/analyze_version.py:227-321 | the draft before the marker holds no hand when the wording, version, commits, statistics and diff hold none |
| ReleaseNotes.PartitionNoGlyph | skills/release-tag/scripts/analyze_version.py:60-78 | sorting commits free of the hand gives lists free of it |
| ReleaseNotes.DraftMarkerIsLast | skills/release-tag/scripts/analyze_version.py:323 | under that condition the only marker of the draft is its last line |
| ReleaseNotes.SecondPart | skills/release-tag/scripts/analyze_version.py:352-354 | `split(marker)[1]`: the text after the first marker, up to the next one; it holds no marker |
| ReleaseNotes.ReadReleaseNotes | skills/release-tag/scripts/analyze_version.py:349-359 | empty exactly for blank content; the whole content stripped when there is no marker, and whenever the result contains the marker |
| ReleaseNotes.MarkerNotBlank | skills/release-tag/scripts/analyze_version.py:351-359 | content with a marker is never blank |
| ReleaseNotes.FirstMarker | skills/release-tag/scripts/analyze_version.py:352 | a marker preceded by hand-free text is the first marker |
| ReleaseNotes.ReadAfterOnlyMarker | skills/release-tag/scripts/analyze_version.py:351-359 | with one marker, the result is the text after it stripped, or the whole content stripped when that is blank |
| ReleaseNotes.ReadsWholeBeforeBlank | skills/release-tag/scripts/analyze_version.py:354-359 | text ending in the marker line reads back as the whole text stripped |
| ReleaseNotes.ReadsNotesAfterMarker | skills/release-tag/scripts/analyze_version.py:351-356 | notes written after that marker read back as the notes stripped |
| ReleaseNotes.UneditedDraftReadsWhole | skills/release-tag/scripts/analyze_version.py:344-359 | an unedited draft reads back as the whole draft stripped |
| ReleaseNotes.EditedDraftReadsNotes | skills/release-tag/scripts/analyze_version.py:344-359 | a draft followed by non-blank, hand-free notes reads back as the notes stripped |
| ReleaseNotes.ScriptDraftReadsBack | skills/release-tag/scripts/analyze_version.py:323-359 | both read-backs for the script's own wording |
| ReleaseNotes.TwoMarkers | skills/release-tag/scripts/analyze_version.py:350-356 | as written, with two markers the notes are the stripped text between them |
| ReleaseNotes.ReadsBetweenMarkers | skills/release-tag/scripts/analyze_version.py:350-356 | as written, a text with two markers before its closing blank line reads as the text between them, whatever is appended after |
| ReleaseNotes.MarkedDiffShape | skills/release-tag/scripts/analyze_version.py:268-325 | a draft whose diff, within the limit, shows the marker line has two markers: one in the diff and the draft's own |
| ReleaseNotes.MarkerInDiffLosesNotes | skills/release-tag/scripts/analyze_version.py:268-356 | as written, when the diff excerpt shows the marker line, the read-back is the diff's tail and the writing guide, and the notes written below the draft change nothing |
| ReleaseNotes.ReadLatestNotes | skills/release-tag/scripts/analyze_version.py:350-358 | the read-back as evidently intended: empty exactly for blank content; on content without a marker it agrees with the as-written read |
| ReleaseNotes.LastMarker | skills/release-tag/scripts/analyze_version.py:350-356 | a marker followed by hand-free text is the last marker, whatever precedes it |
| ReleaseNotes.LatestNotesAfterLastMarker | skills/release-tag/scripts/analyze_version.py:350-356 | the corrected read of a text ending in a marker and non-blank, hand-free text is that text stripped |
| ReleaseNotes.LatestWholeBeforeBlank | skills/release-tag/scripts/analyze_version.py:354-358 | the corrected read of a text ending in the marker line reads back whole, stripped |
| ReleaseNotes.LatestNotesAfterMarker | skills/release-tag/scripts/analyze_version.py:350-356 | the corrected read of notes written after a final marker line is the notes stripped |
| ReleaseNotes.UneditedDraftLatestWhole | skills/release-tag/scripts/analyze_version.py:323-358 | with the corrected read, an unedited draft reads back whole, whatever its diff holds |
| ReleaseNotes.DraftLatestNotes | skills/release-tag/scripts/analyze_version.py:323-356 | with the corrected read, non-blank, hand-free notes below a draft read back as the notes, whatever its diff holds |
| Workflow.RunCommand | skills/release-tag/scripts/analyze_version.py:104-112 | `run_command`: success and the stripped standard output, or failure and the exception's text; `RunCommandReply` states it |
| Workflow.RunCommandReply | skills/release-tag/scripts/analyze_version.py:104-112 | a command succeeds exactly when it exits with status 0, and its output then neither starts nor ends with whitespace |
| Workflow.LatestTag | skills/release-tag/scripts/analyze_version.py:149-154 | `get_latest_tag`: a tag exactly when `git describe` succeeds, and the tag comes stripped |
| Workflow.BaseTag | skills/release-tag/scripts/analyze_version.py:417-422 | the base is the latest tag when there is a non-empty one, else `v0.0.0` |
| Workflow.SinceTag | skills/release-tag/scripts/analyze_version.py:421-426 | the history starts at no tag exactly when the base is `v0.0.0`; from a non-empty base, every range command starts at no tag or a non-empty one |
| Workflow.Argv | skills/release-tag/scripts/analyze_version.py:115-211 | every command the script runs is a `git` command line of at least three words |
| Workflow.ArgvDistinguishes | skills/release-tag/scripts/analyze_version.py:115-376 | distinct commands whose ranges start at no tag or a non-empty one run distinct command lines, so a shell answering by command answers by command line |
| Workflow.NonBlank | skills/release-tag/scripts/analyze_version.py:192 | keeps only non-blank lines, each one of the input's |
| Workflow.NonBlankMembers | skills/release-tag/scripts/analyze_version.py:192 | a line is kept exactly when it is an input line and not blank |
| Workflow.NonBlankKeepsAll | skills/release-tag/scripts/analyze_version.py:192 | lines that are all non-blank are all kept, in order |
| Workflow.NonBlankAppend | skills/release-tag/scripts/analyze_version.py:192 | filtering the concatenation of two line lists is the concatenation of the filtered lists |
| Workflow.NonBlankOne | skills/release-tag/scripts/analyze_version.py:192 | one line is kept exactly when it is not blank |
| Workflow.CommitLines | skills/release-tag/scripts/analyze_version.py:192 | every commit subject is one non-blank line |
| Workflow.CommitsSince | skills/release-tag/scripts/analyze_version.py:181-192 | `get_commits_since_tag`: no commits when `git log` fails; otherwise each subject is one non-blank line (`CommitLinesOfJoin` gives the round trip) |
| Workflow.OutputOrEmpty | skills/release-tag/scripts/analyze_version.py:195-214 | `get_diff_stats` and `get_diff_content`: the stripped output, and nothing unless the command succeeded |
| Workflow.CommitLinesOfJoin | skills/release-tag/scripts/analyze_version.py:181-192 | non-blank subjects printed one per line come back unchanged and in order |
| Workflow.UpdateSucceeds | skills/release-tag/scripts/analyze_version.py:124-146 | whether `update_main_branch` gets through: the current branch is known, is checked out when it differs, and the pull succeeds; `UpdateMainBranch` is proved to succeed exactly then |
| Workflow.UpdateMainBranch | skills/release-tag/scripts/analyze_version.py:124-146 | succeeds exactly when the current branch is known, is checked out if needed, and is pulled; it never creates a tag |
| Workflow.TagSucceeds | skills/release-tag/scripts/analyze_version.py:362-380 | whether `create_tag` gets through: the annotated tag is created, and pushed when asked; `CreateTag` is proved to succeed exactly then |
| Workflow.CreateTag | skills/release-tag/scripts/analyze_version.py:362-380 | runs `git tag -a` with the notes, then the push only when asked and the tag was created; succeeds exactly when both did |
| Workflow.Analyse | skills/release-tag/scripts/analyze_version.py:435-457 | a new analyzer summarises the commits; `--version-type` overrides the bump and clears the uncertain flag; the version is the bump of the base |
| Workflow.SaveDraft | skills/release-tag/scripts/analyze_version.py:504-522 | the draft for the version is saved and the run stops |
| Workflow.Publish | skills/release-tag/scripts/analyze_version.py:495-537 | the notes file is read first, and the outcome is `Published`; an unreadable file issues no tag command; a tag carries the notes as `read_release_notes` reads them, and no tag command is issued on a dry run |
| Workflow.Published | skills/release-tag/scripts/analyze_version.py:495-537 | publishing ends in a failure, a preview or a tag; any non-failure carries the version, the uncertain flag and the notes `read_release_notes` reads from the file (after the first marker); a tag is pushed exactly when asked |
| Workflow.PublishedEnds | skills/release-tag/scripts/analyze_version.py:495-537 | publishing fails exactly when the notes file cannot be read or, outside a dry run, tagging fails; it previews exactly on a dry run with a readable file; it tags exactly when the tag carrying the notes as `read_release_notes` reads them gets through outside a dry run |
| Workflow.Proceed | skills/release-tag/scripts/analyze_version.py:435-537 | with commits: the outcome is the saved draft of the bumped version when no notes file is given, else `Published` for it; the last event saves exactly the draft for the commits, version and diff; a tag is created only with a notes file and without `--dry-run` |
| Workflow.ReleasePending | skills/release-tag/scripts/analyze_version.py:419-537 | with commits after the base tag, the run ends as the specification function says, the saved draft is the draft for the run's commits, version and diff, and tags only with a notes file outside a dry run |
| Workflow.ReleaseFromLatestTag | skills/release-tag/scripts/analyze_version.py:414-537 | steps 2 to 8: no commits ends with no changes and no tag work; otherwise as above, with the `describe` and `log` commands first |
| Workflow.FromLatestTag | skills/release-tag/scripts/analyze_version.py:414-537 | how a run ends once the branch is up to date: no changes without commits, the saved draft without a notes file, else publishing; `RunEnds` states every case |
| Workflow.Expected | skills/release-tag/scripts/analyze_version.py:383-545 | how `main` ends: a failure when the update fails, else as `FromLatestTag`; `RunEnds` gives an if-and-only-if for each ending |
| Workflow.Run | skills/release-tag/scripts/analyze_version.py:383-545 | the run ends as `Expected` says (`RunEnds` spells that out case by case); a saved draft is the last event and is exactly the run's draft; a tag command is issued only with commits, a notes file and no `--dry-run`, and a tag outcome's command is in the trace |
| Workflow.RunEnds | skills/release-tag/scripts/analyze_version.py:383-545 | a run fails exactly when the update fails or, with commits and a notes file, publishing fails; it has no changes exactly when the update passed and there are no commits; it saves the draft exactly when there is no notes file; it previews exactly on a dry run with a readable file; it tags exactly when tagging with the notes as `read_release_notes` reads them gets through outside a dry run; every other ending carries the proposed version |
| Workflow.VersionNoGlyph | skills/release-tag/scripts/analyze_version.py:174-178 | a version string holds no hand |
| Workflow.InitialTagMeansWholeHistory | skills/release-tag/scripts/analyze_version.py:417-426 | with no tag, or with a tag that is literally `v0.0.0`, the whole history is read and the version is bumped from 0.0.0 |
| Workflow.InitialTagReadsZero | skills/release-tag/scripts/analyze_version.py:160-166 | the assumed first tag `v0.0.0` reads as 0.0.0 |
| Workflow.VersionTypeOverrides | skills/release-tag/scripts/analyze_version.py:446-457 | `--version-type` decides the bump, and the run is then never uncertain |
| Workflow.UncertainWhenNothingMatched | skills/release-tag/scripts/analyze_version.py:462 | without an override, a run is uncertain exactly when it has commits and none matched a rule |
| Workflow.SavedDraftReadsBackAsWritten | skills/release-tag/scripts/analyze_version.py:505-510 | as written, the draft a run saves reads back whole while unedited, and as exactly the notes once non-blank notes are written below it, when the wording, commits, statistics, diff and notes hold no hand |
| Workflow.PublishedSavedDraft | skills/release-tag/scripts/analyze_version.py:495-537 | publishing that saved draft with notes below its marker previews or tags exactly the stripped notes, under the same hand-free conditions; it tags exactly when that tag gets through outside a dry run |
| Workflow.PublishedMarkedDiff | skills/release-tag/scripts/analyze_version.py:350-356 | as written, when the run's diff excerpt shows the marker line, publishing the saved draft previews or tags the diff's tail and the writing guide instead of the notes |
| Workflow.VersionNotBlank | skills/release-tag/scripts/analyze_version.py:174-178 | a version string is never blank |
| Workflow.SavedDraftReadsBack | skills/release-tag/scripts/analyze_version.py:505-510 | with the corrected read, the draft a run saves reads back whole while unedited, and as exactly the notes once non-blank, hand-free notes are written below it, whatever the commits and diff hold |

## Left out

- Processes and files are parameters. The model keeps what the run asks git and what it gets back. It leaves out how `subprocess`, `open`, `mkdir` and the home directory work.
- Argument parsing and all console output are left out. That includes the 2000-character diff preview in the uncertain branch, which only prints. The model does record the extra `git diff` that the preview runs.
- The path of the saved draft and the re-run hint are left out. The saved draft is an event carrying the version and the text.
- `sys.exit` is modelled as the run's final `Outcome`, not as a process exit.
- Commands are a datatype, and the shell answers by command. `Workflow.Argv` gives each command's exact argument list, and `Workflow.ArgvDistinguishes` shows that the commands a run issues have distinct argument lists.
- `GenerateReleaseNotesTemplate` takes its wording as a parameter. `Layout.Script` is the script's own wording, so `main` is `Workflow.Run` given `Layout.Script`. The Chinese prose is constant text, and the only fact proved about it is that it never contains the marker's hand.
- Python's Unicode semantics are approximated. `lower()` and `re.IGNORECASE` fold only ASCII letters, `\d` matches only ASCII digits, and `strip()` uses Python's fixed set of whitespace characters.
- Classifier.CommitAnalyzer.Analyze: the partition is stated as list membership, order and length. It is not stated as a multiset equality.
- ReleaseNotes.EditedDraftReadsNotes: this lemma and ReleaseNotes.ReadAfterOnlyMarker, ReleaseNotes.ReadsWholeBeforeBlank, ReleaseNotes.ReadsNotesAfterMarker, ReleaseNotes.UneditedDraftReadsWhole and ReleaseNotes.ScriptDraftReadsBack require the wording, commits, statistics, diff and notes to be free of the marker's hand (U+1F447). That is a sufficient condition for the marker to occur only once. If the notes themselves contain the marker line, the code returns only the text up to that second marker.
- Workflow.SavedDraftReadsBackAsWritten and Workflow.PublishedSavedDraft carry the same hand-free conditions, for a run's draft.
- Workflow.SavedDraftReadsBack, ReleaseNotes.DraftLatestNotes, ReleaseNotes.LatestNotesAfterLastMarker and ReleaseNotes.LatestNotesAfterMarker require only the notes to be free of the hand. Notes that contain the marker line are read from their own last marker.

## Findings

| source | as written | input that shows it | evidently intended | confidence | as-written member | corrected member |
|---|---|---|---|---|---|---|
| skills/release-tag/scripts/analyze_version.py:350-356 | `content.split(marker)[1]` takes the text after the **first** marker, up to the next one | a release whose diff excerpt (the first 5000 characters) changes line 323 or 350 of this script, which hold the marker text: the draft then has the marker inside the diff as well as its own final marker | the notes written below the draft's own final marker, which is its last marker | medium, not executed | ReleaseNotes.MarkerInDiffLosesNotes | ReleaseNotes.DraftLatestNotes |

`ReleaseNotes.MarkerInDiffLosesNotes` shows that for such a diff, the as-written read returns the tail of the diff and the writing guide. It returns the same text with or without the notes. `ReleaseNotes.ReadLatestNotes` reads after the last marker instead. `ReleaseNotes.DraftLatestNotes` proves that it returns the notes for every draft, whatever its diff holds. The run itself (`Workflow.Published`, `Workflow.Publish`, `Workflow.Run`) follows the code as written, and `Workflow.PublishedMarkedDiff` shows the notes lost at the level of publishing a run's draft. `Workflow.SavedDraftReadsBack` states the corrected read for a run's draft.
