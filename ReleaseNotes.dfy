/**
 * The release-notes draft (`generate_release_notes_template`) and the
 * read-back of an edited draft (`read_release_notes`).
 *
 * The draft is the header with the counts, one section per non-empty list,
 * the diff statistics, at most `DiffLimit` characters of the diff, a writing
 * guide, and the marker line last. Reading back as written takes the text
 * after the first marker line; a draft nobody edited therefore reads back
 * whole. When the diff excerpt itself shows the marker line, that first
 * marker is inside the diff and the notes are lost; reading after the last
 * marker instead (`ReadLatestNotes`) keeps them.
 */
module ReleaseNotes {
  import opened Wrappers
  import opened Text
  import opened Classifier
  import opened Template
  import opened Layout

  /** How many characters of the diff the draft shows. */
  const DiffLimit: nat := 5000

  // --------------------------------------------------------------- the draft

  /** One count line: the caption, the number in decimal, a newline. */
  function CountLine(caption: string, n: nat): string {
    caption + NatToString(n) + "\n"
  }

  /** The five count lines: all commits, then each list. */
  function Counts(w: Wording, total: nat, s: Summary): string {
    CountLine(w.totalCaption, total) + CountLine(w.breakingCaption, |s.breaking|)
    + CountLine(w.featureCaption, |s.features|) + CountLine(w.fixCaption, |s.fixes|)
    + CountLine(w.otherCaption, |s.others|)
  }

  /** The opening f-string: title, version facts, counts, and the heading of the commit lists. */
  function Header(w: Wording, version: string, total: nat, s: Summary): string {
    w.title + version + "\n" + w.intro + version + "\n" + Counts(w, total, s) + w.listsHeading
  }

  /** One `- <commit>` line per commit, in list order. */
  function Bullets(items: seq<string>): string {
    if items == [] then []
    else Bullets(items[..|items| - 1]) + "- " + items[|items| - 1] + "\n"
  }

  /** A category section: nothing for an empty list, else the title, the bullets and a blank line. */
  function Section(title: string, items: seq<string>): string {
    if items == [] then [] else title + Bullets(items) + "\n"
  }

  /** The four sections, breaking changes first. */
  function Sections(w: Wording, s: Summary): string {
    Section(w.breakingTitle, s.breaking) + Section(w.featureTitle, s.features)
    + Section(w.fixTitle, s.fixes) + Section(w.otherTitle, s.others)
  }

  /** `diff_content[:5000]`. */
  function Excerpt(diff: string): string {
    if |diff| <= DiffLimit then diff else diff[..DiffLimit]
  }

  /** The note on how many characters were cut, present only when the diff is longer than the limit. */
  function RemainderNote(w: Wording, diff: string): string {
    if |diff| > DiffLimit then w.remainderOpen + NatToString(|diff| - DiffLimit) + w.remainderClose else []
  }

  /** The closing f-string up to the marker: statistics, the diff excerpt and note, and the guide. */
  function Appendix(w: Wording, version: string, stats: string, diff: string): string {
    w.statsOpen + stats + w.diffOpen + Excerpt(diff) + "\n" + RemainderNote(w, diff)
    + w.guide + version + w.exampleClose
  }

  /** The closing f-string: the appendix, then the marker line and a blank line. */
  function Closing(w: Wording, version: string, stats: string, diff: string): string {
    Appendix(w, version, stats, diff) + Marker + "\n\n"
  }

  /** The whole draft. */
  function Draft(w: Wording, version: string, total: nat, s: Summary, stats: string, diff: string): string {
    Header(w, version, total, s) + Sections(w, s) + Closing(w, version, stats, diff)
  }

  /** Everything of the draft before the marker line. */
  function Body(w: Wording, version: string, total: nat, s: Summary, stats: string, diff: string): string {
    Header(w, version, total, s) + Sections(w, s) + Appendix(w, version, stats, diff)
  }

  /**
   * `generate_release_notes_template`: the header, each non-empty list as a
   * section, then the statistics, the diff, the guide and the marker line.
   */
  method GenerateReleaseNotesTemplate(wording: Wording, version: string, commits: seq<string>, diffContent: string,
                                      diffStats: string, analyzer: CommitAnalyzer)
    returns (template: string)
    ensures template == Draft(wording, version, |commits|, analyzer.GetSummary(), diffStats, diffContent)
  {
    var summary := analyzer.GetSummary();
    template := Header(wording, version, |commits|, summary);
    template := AppendSection(template, wording.breakingTitle, summary.breaking);
    template := AppendSection(template, wording.featureTitle, summary.features);
    template := AppendSection(template, wording.fixTitle, summary.fixes);
    template := AppendSection(template, wording.otherTitle, summary.others);
    SectionsRegrouped(Header(wording, version, |commits|, summary),
                      Section(wording.breakingTitle, summary.breaking), Section(wording.featureTitle, summary.features),
                      Section(wording.fixTitle, summary.fixes), Section(wording.otherTitle, summary.others));
    template := template + Closing(wording, version, diffStats, diffContent);
  }

  /** Appending the sections one by one builds the header followed by all four sections. */
  lemma SectionsRegrouped(h: string, a: string, b: string, c: string, d: string)
    ensures h + a + b + c + d == h + (a + b + c + d)
  {
  }

  /** One `if summary[...]:` block: the title, a line per commit, a blank line; nothing for an empty list. */
  method AppendSection(template: string, title: string, items: seq<string>) returns (t: string)
    ensures t == template + Section(title, items)
  {
    t := template;
    if items != [] {
      t := t + title;
      for i := 0 to |items|
        invariant t == template + title + Bullets(items[..i])
      {
        assert items[..i + 1][..i] == items[..i];
        t := t + "- " + items[i] + "\n";
      }
      assert items[..|items|] == items;
      t := t + "\n";
    }
  }

  // ----------------------------------------------------------- the read-back

  /**
   * `content.split(sep)[1]` when `sep` occurs: what follows the first `sep`,
   * up to the next `sep` or the end. It contains no `sep`, and the content
   * reads `sep` and then it at the first occurrence.
   */
  function SecondPart(content: string, sep: string): (part: string)
    requires sep != [] && Contains(content, sep)
    ensures !Contains(part, sep)
    ensures OccursAt(content, sep + part, IndexOf(content, sep).value)
    ensures var e := IndexOf(content, sep).value + |sep| + |part|; e == |content| || OccursAt(content, sep, e)
  {
    var i := IndexOf(content, sep).value;
    var rest := content[i + |sep|..];
    match IndexOf(rest, sep)
    case None =>
      SepThenRest(content, sep, i, rest);
      rest
    case Some(j) =>
      FirstOccurrenceCut(rest, sep, j);
      SepThenRest(content, sep, i, rest[..j]);
      assert rest[j..j + |sep|] == sep;
      assert content[i + |sep| + j..i + |sep| + j + |sep|] == rest[j..j + |sep|];
      rest[..j]
  }

  /** `sep` at `i`, followed by a prefix of what comes after it. */
  lemma SepThenRest(content: string, sep: string, i: nat, piece: string)
    requires OccursAt(content, sep, i) && i + |sep| + |piece| <= |content|
    requires piece == content[i + |sep|..][..|piece|]
    ensures OccursAt(content, sep + piece, i)
  {
    assert content[i..i + |sep + piece|] == content[i..i + |sep|] + content[i + |sep|..i + |sep| + |piece|];
  }

  /**
   * `read_release_notes` on the file's content: the stripped text after the
   * first marker, when there is a marker and that text is not blank;
   * otherwise the whole content stripped. It is empty only for blank content,
   * and it contains the marker only when it is the whole content stripped.
   */
  function ReadReleaseNotes(content: string): (notes: string)
    ensures notes == [] <==> IsBlank(content)
    ensures Contains(notes, Marker) ==> notes == Strip(content)
    ensures !Contains(content, Marker) ==> notes == Strip(content)
  {
    if Contains(content, Marker) then
      var part := SecondPart(content, Marker);
      var releaseNotes := Strip(part);
      if releaseNotes != [] then
        StripHasNoMarker(part);
        MarkerNotBlank(content);
        releaseNotes
      else
        MarkerNotBlank(content);
        Strip(content)
    else Strip(content)
  }

  /**
   * The read-back as evidently intended, `content.rsplit(marker, 1)[1]`: the
   * stripped text after the last marker, when there is a marker and that
   * text is not blank; otherwise the whole content stripped. It agrees with
   * `ReadReleaseNotes` on content without the marker.
   */
  function ReadLatestNotes(content: string): (notes: string)
    ensures notes == [] <==> IsBlank(content)
    ensures !Contains(content, Marker) ==> notes == ReadReleaseNotes(content)
  {
    match LastIndexOf(content, Marker)
    case None =>
      ContainsIff(content, Marker);
      Strip(content)
    case Some(i) =>
      var releaseNotes := Strip(content[i + |Marker|..]);
      ContainsIff(content, Marker);
      MarkerNotBlank(content);
      if releaseNotes != [] then releaseNotes else Strip(content)
  }

  // ---------------------------------------------------------- text lemmas

  /** Cutting a text before the first occurrence of `sep` leaves no occurrence of it. */
  lemma FirstOccurrenceCut(rest: string, sep: string, j: nat)
    requires sep != [] && IndexOf(rest, sep) == Some(j)
    ensures !Contains(rest[..j], sep)
  {
    var cut := rest[..j];
    forall k: nat | OccursAt(cut, sep, k) ensures OccursAt(rest, sep, k) {
      assert cut[k..k + |sep|] == rest[k..k + |sep|];
    }
    ContainsIff(cut, sep);
  }

  /** A text the pattern does not occur in has no piece the pattern occurs in. */
  lemma PieceHasNoOccurrence(s: string, piece: string, at: nat, pat: string)
    requires OccursAt(s, piece, at) && !Contains(s, pat)
    ensures !Contains(piece, pat)
  {
    assert forall i :: 0 <= i < |piece| ==> piece[i] == s[at..at + |piece|][i] == s[at + i];
    forall k: nat | OccursAt(piece, pat, k) ensures OccursAt(s, pat, at + k) {
      assert forall j :: 0 <= j < |pat| ==> pat[j] == piece[k..k + |pat|][j] == piece[k + j];
      var window := s[at + k..at + k + |pat|];
      assert forall j :: 0 <= j < |pat| ==> window[j] == s[at + k + j];
      assert window == pat;
    }
    ContainsIff(s, pat);
    ContainsIff(piece, pat);
  }

  /** Stripping a text without the marker leaves a text without the marker. */
  lemma StripHasNoMarker(part: string)
    requires !Contains(part, Marker)
    ensures !Contains(Strip(part), Marker)
  {
    if Strip(part) != [] {
      PieceHasNoOccurrence(part, Strip(part), LeadingSpaces(part), Marker);
    }
  }

  /** A text that contains the marker is not blank (the marker's `#` is not white space). */
  lemma MarkerNotBlank(content: string)
    requires Contains(content, Marker)
    ensures !IsBlank(content)
  {
    var i := IndexOf(content, Marker).value;
    assert content[i] == content[i..i + |Marker|][0] == '#';
  }

  /** The marker's hand is its third character. */
  lemma MarkerGlyph()
    ensures |Marker| > 2 && Marker[0] == '#' && Marker[1] == ' ' && Marker[2] == Glyph
  {
  }

  /** Without the hand, the marker cannot occur. */
  lemma NoMarkerWithoutGlyph(s: string)
    requires NoGlyph(s)
    ensures !Contains(s, Marker)
  {
    MarkerGlyph();
    forall k: nat ensures !OccursAt(s, Marker, k) {
      if k + |Marker| <= |s| {
        assert s[k..k + |Marker|][2] == s[k + 2] != Glyph;
      }
    }
    ContainsIff(s, Marker);
  }

  /** When the hand is absent before a marker, that marker is the first. */
  lemma FirstMarker(pre: string, post: string)
    requires NoGlyph(pre)
    ensures IndexOf(pre + Marker + post, Marker) == Some(|pre|)
  {
    var content := pre + Marker + post;
    MarkerGlyph();
    assert content[|pre|..|pre| + |Marker|] == Marker;
    assert OccursAt(content, Marker, |pre|);
    forall k: nat | k < |pre| ensures !OccursAt(content, Marker, k) {
      if k + 2 < |pre| {
        assert content[k + 2] == pre[k + 2] != Glyph;
      } else {
        assert content[k + 2] == Marker[k + 2 - |pre|] != Glyph;
      }
      assert content[k..k + |Marker|][2] == content[k + 2];
    }
  }

  /**
   * The read-back of a text with exactly one marker: the stripped text after
   * it when that is not blank, otherwise the whole text stripped.
   */
  lemma ReadAfterOnlyMarker(pre: string, post: string)
    requires NoGlyph(pre) && NoGlyph(post)
    ensures ReadReleaseNotes(pre + Marker + post)
         == if IsBlank(post) then Strip(pre + Marker + post) else Strip(post)
  {
    var content := pre + Marker + post;
    FirstMarker(pre, post);
    ContainsIff(content, Marker);
    assert content[|pre| + |Marker|..] == post;
    NoMarkerWithoutGlyph(post);
    assert IndexOf(post, Marker) == None by {
      ContainsIff(post, Marker);
    }
    assert SecondPart(content, Marker) == post;
  }

  /**
   * With two markers, the notes are what lies between them: the first marker
   * is where the reading starts and the second where it stops.
   */
  lemma TwoMarkers(pre: string, mid: string, post: string)
    requires NoGlyph(pre) && NoGlyph(mid) && !IsBlank(mid)
    ensures ReadReleaseNotes(pre + Marker + mid + Marker + post) == Strip(mid)
  {
    var content := pre + Marker + mid + Marker + post;
    var rest := mid + Marker + post;
    assert content == pre + Marker + rest;
    FirstMarker(pre, rest);
    assert content[|pre| + |Marker|..] == rest;
    FirstMarker(mid, post);
    assert rest[..|mid|] == mid;
    assert SecondPart(content, Marker) == mid;
  }

  /** The marker's hand occurs in it only as its third character. */
  lemma GlyphOnlyThird()
    ensures forall i :: 0 <= i < |Marker| && i != 2 ==> Marker[i] != Glyph
  {
  }

  /** Whatever precedes it, a marker followed by text free of the hand is the last one. */
  lemma LastMarker(body: string, tail: string)
    requires NoGlyph(tail)
    ensures LastIndexOf(body + Marker + tail, Marker) == Some(|body|)
  {
    var content := body + Marker + tail;
    MarkerGlyph();
    GlyphOnlyThird();
    assert content[|body|..|body| + |Marker|] == Marker;
    forall k: nat | |body| < k ensures !OccursAt(content, Marker, k) {
      if k + |Marker| <= |content| {
        assert content[k..k + |Marker|][2] == content[k + 2];
        if k + 2 < |body| + |Marker| {
          assert content[k + 2] == Marker[k + 2 - |body|];
        } else {
          assert content[k + 2] == tail[k + 2 - |body| - |Marker|];
        }
      }
    }
    assert OccursAt(content, Marker, |body|);
    assert LastIndexOf(content, Marker).Some?;
    assert LastIndexOf(content, Marker).value >= |body|;
  }

  /** Reading after the last marker: notes free of the hand below it come back, stripped. */
  lemma LatestNotesAfterLastMarker(body: string, tail: string)
    requires NoGlyph(tail) && !IsBlank(tail)
    ensures ReadLatestNotes(body + Marker + tail) == Strip(tail)
  {
    var content := body + Marker + tail;
    LastMarker(body, tail);
    assert content[|body| + |Marker|..] == tail;
  }

  // ----------------------------------------------------- the hand occurs once

  /** Every commit in the four lists is free of the hand. */
  predicate SummaryNoGlyph(s: Summary) {
    (forall i :: 0 <= i < |s.breaking| ==> NoGlyph(s.breaking[i])) &&
    (forall i :: 0 <= i < |s.features| ==> NoGlyph(s.features[i])) &&
    (forall i :: 0 <= i < |s.fixes| ==> NoGlyph(s.fixes[i])) &&
    (forall i :: 0 <= i < |s.others| ==> NoGlyph(s.others[i]))
  }

  /** Sorting commits free of the hand gives lists free of it. */
  lemma PartitionNoGlyph(commits: seq<string>)
    requires forall k :: 0 <= k < |commits| ==> NoGlyph(commits[k])
    ensures SummaryNoGlyph(Partition(commits))
  {
    forall cat: Category, c | c in InCategory(commits, cat) ensures NoGlyph(c) {
      InCategoryMembers(commits, cat, c);
    }
  }

  /** A decimal number has no hand in it. */
  lemma DigitsNoGlyph(n: nat)
    ensures NoGlyph(NatToString(n))
  {
    var r := NatToString(n);
    assert forall i :: 0 <= i < |r| ==> IsDigit(r[i]);
  }

  lemma CountsNoGlyph(w: Wording, total: nat, s: Summary)
    requires WordingNoGlyph(w)
    ensures NoGlyph(Counts(w, total, s))
  {
    DigitsNoGlyph(total); DigitsNoGlyph(|s.breaking|); DigitsNoGlyph(|s.features|);
    DigitsNoGlyph(|s.fixes|); DigitsNoGlyph(|s.others|);
  }

  lemma HeaderNoGlyph(w: Wording, version: string, total: nat, s: Summary)
    requires WordingNoGlyph(w) && NoGlyph(version)
    ensures NoGlyph(Header(w, version, total, s))
  {
    CountsNoGlyph(w, total, s);
  }

  lemma {:induction false} BulletsNoGlyph(items: seq<string>)
    requires forall i :: 0 <= i < |items| ==> NoGlyph(items[i])
    ensures NoGlyph(Bullets(items))
  {
    if items != [] {
      BulletsNoGlyph(items[..|items| - 1]);
    }
  }

  lemma SectionsNoGlyph(w: Wording, s: Summary)
    requires WordingNoGlyph(w) && SummaryNoGlyph(s)
    ensures NoGlyph(Sections(w, s))
  {
    BulletsNoGlyph(s.breaking); BulletsNoGlyph(s.features); BulletsNoGlyph(s.fixes); BulletsNoGlyph(s.others);
  }

  lemma AppendixNoGlyph(w: Wording, version: string, stats: string, diff: string)
    requires WordingNoGlyph(w) && NoGlyph(version) && NoGlyph(stats) && NoGlyph(diff)
    ensures NoGlyph(Appendix(w, version, stats, diff))
  {
    if |diff| > DiffLimit {
      DigitsNoGlyph(|diff| - DiffLimit);
      assert forall c :: c in diff[..DiffLimit] ==> c in diff;
    }
  }

  /** With a wording and inputs free of the hand, the draft's body is free of it. */
  lemma BodyNoGlyph(w: Wording, version: string, total: nat, s: Summary, stats: string, diff: string)
    requires WordingNoGlyph(w) && NoGlyph(version) && NoGlyph(stats) && NoGlyph(diff) && SummaryNoGlyph(s)
    ensures NoGlyph(Body(w, version, total, s, stats, diff))
  {
    HeaderNoGlyph(w, version, total, s);
    SectionsNoGlyph(w, s);
    AppendixNoGlyph(w, version, stats, diff);
  }

  /** The draft is its body, then the marker line and a blank line. */
  lemma DraftShape(w: Wording, version: string, total: nat, s: Summary, stats: string, diff: string)
    ensures Draft(w, version, total, s, stats, diff) == Body(w, version, total, s, stats, diff) + Marker + "\n\n"
  {
    ClosingRegrouped(Header(w, version, total, s) + Sections(w, s), Appendix(w, version, stats, diff), Marker, "\n\n");
  }

  /** The closing text's parts regrouped, stated over plain strings so that `DraftShape` stays cheap. */
  lemma ClosingRegrouped(a: string, b: string, c: string, d: string)
    ensures a + (b + c + d) == a + b + c + d
  {
  }

  // ------------------------------------------------------ read-back of drafts

  /** The only marker of a draft is its last line but one. */
  lemma DraftMarkerIsLast(w: Wording, version: string, total: nat, s: Summary, stats: string, diff: string)
    requires WordingNoGlyph(w) && NoGlyph(version) && NoGlyph(stats) && NoGlyph(diff) && SummaryNoGlyph(s)
    ensures IndexOf(Draft(w, version, total, s, stats, diff), Marker)
         == Some(|Draft(w, version, total, s, stats, diff)| - |Marker| - 2)
  {
    DraftShape(w, version, total, s, stats, diff);
    BodyNoGlyph(w, version, total, s, stats, diff);
    FirstMarker(Body(w, version, total, s, stats, diff), "\n\n");
  }

  /** A text with one marker followed only by blank space reads back whole, stripped. */
  lemma ReadsWholeBeforeBlank(d: string, body: string)
    requires d == body + Marker + "\n\n" && NoGlyph(body)
    ensures ReadReleaseNotes(d) == Strip(d)
  {
    ReadAfterOnlyMarker(body, "\n\n");
  }

  /** Notes after a single marker line and a blank line read back alone, stripped. */
  lemma ReadsNotesAfterMarker(d: string, body: string, notes: string)
    requires d == body + Marker + "\n\n" && NoGlyph(body)
    requires NoGlyph(notes) && !IsBlank(notes)
    ensures ReadReleaseNotes(d + notes) == Strip(notes)
  {
    assert d + notes == body + Marker + ("\n\n" + notes);
    StripAfterBlank("\n\n", notes);
    ReadAfterOnlyMarker(body, "\n\n" + notes);
  }

  /** A draft saved and read back unedited gives the whole draft, stripped. */
  lemma UneditedDraftReadsWhole(w: Wording, version: string, total: nat, s: Summary, stats: string, diff: string)
    requires WordingNoGlyph(w) && NoGlyph(version) && NoGlyph(stats) && NoGlyph(diff) && SummaryNoGlyph(s)
    ensures ReadReleaseNotes(Draft(w, version, total, s, stats, diff))
         == Strip(Draft(w, version, total, s, stats, diff))
  {
    DraftShape(w, version, total, s, stats, diff);
    BodyNoGlyph(w, version, total, s, stats, diff);
    ReadsWholeBeforeBlank(Draft(w, version, total, s, stats, diff), Body(w, version, total, s, stats, diff));
  }

  /** Notes written below the marker are what is read back, stripped. */
  lemma EditedDraftReadsNotes(w: Wording, version: string, total: nat, s: Summary, stats: string, diff: string,
                              notes: string)
    requires WordingNoGlyph(w) && NoGlyph(version) && NoGlyph(stats) && NoGlyph(diff) && SummaryNoGlyph(s)
    requires NoGlyph(notes) && !IsBlank(notes)
    ensures ReadReleaseNotes(Draft(w, version, total, s, stats, diff) + notes) == Strip(notes)
  {
    DraftShape(w, version, total, s, stats, diff);
    BodyNoGlyph(w, version, total, s, stats, diff);
    ReadsNotesAfterMarker(Draft(w, version, total, s, stats, diff), Body(w, version, total, s, stats, diff), notes);
  }

  /** The script's own draft: an unedited draft reads back whole, notes below the marker read back alone. */
  lemma ScriptDraftReadsBack(version: string, total: nat, s: Summary, stats: string, diff: string, notes: string)
    requires NoGlyph(version) && NoGlyph(stats) && NoGlyph(diff) && SummaryNoGlyph(s)
    requires NoGlyph(notes) && !IsBlank(notes)
    ensures ReadReleaseNotes(Draft(Script, version, total, s, stats, diff))
         == Strip(Draft(Script, version, total, s, stats, diff))
    ensures ReadReleaseNotes(Draft(Script, version, total, s, stats, diff) + notes) == Strip(notes)
  {
    ScriptNoGlyph();
    UneditedDraftReadsWhole(Script, version, total, s, stats, diff);
    EditedDraftReadsNotes(Script, version, total, s, stats, diff, notes);
  }

  // ------------------------------------------- a marker inside the diff excerpt

  /** Notes after a text's last marker line and a blank line read back alone when reading after the last marker. */
  lemma LatestNotesAfterMarker(d: string, body: string, notes: string)
    requires d == body + Marker + "\n\n"
    requires NoGlyph(notes) && !IsBlank(notes)
    ensures ReadLatestNotes(d + notes) == Strip(notes)
  {
    assert d + notes == body + Marker + ("\n\n" + notes);
    StripAfterBlank("\n\n", notes);
    NotBlankAround("\n\n", notes, []);
    assert "\n\n" + notes + [] == "\n\n" + notes;
    LatestNotesAfterLastMarker(body, "\n\n" + notes);
  }

  /** A text whose last marker line is followed only by a blank line reads back whole when reading after the last marker. */
  lemma LatestWholeBeforeBlank(d: string, body: string)
    requires d == body + Marker + "\n\n"
    ensures ReadLatestNotes(d) == Strip(d)
  {
    LastMarker(body, "\n\n");
    assert d[|body| + |Marker|..] == "\n\n";
  }

  /** Reading after the last marker, an unedited draft reads back whole, stripped, whatever its body holds. */
  lemma UneditedDraftLatestWhole(w: Wording, version: string, total: nat, s: Summary, stats: string, diff: string)
    ensures ReadLatestNotes(Draft(w, version, total, s, stats, diff)) == Strip(Draft(w, version, total, s, stats, diff))
  {
    DraftShape(w, version, total, s, stats, diff);
    LatestWholeBeforeBlank(Draft(w, version, total, s, stats, diff), Body(w, version, total, s, stats, diff));
  }

  /**
   * Reading after the last marker, notes written below a draft come back
   * stripped whatever the draft's body holds, a diff that shows the marker
   * line included.
   */
  lemma DraftLatestNotes(w: Wording, version: string, total: nat, s: Summary, stats: string, diff: string,
                         notes: string)
    requires NoGlyph(notes) && !IsBlank(notes)
    ensures ReadLatestNotes(Draft(w, version, total, s, stats, diff) + notes) == Strip(notes)
  {
    DraftShape(w, version, total, s, stats, diff);
    LatestNotesAfterMarker(Draft(w, version, total, s, stats, diff), Body(w, version, total, s, stats, diff), notes);
  }

  /** With two markers before the closing blank line, what follows is ignored: the text between them is read. */
  lemma ReadsBetweenMarkers(d: string, pre: string, mid: string, notes: string)
    requires d == pre + Marker + mid + Marker + "\n\n"
    requires NoGlyph(pre) && NoGlyph(mid) && !IsBlank(mid)
    ensures ReadReleaseNotes(d + notes) == Strip(mid)
    ensures ReadReleaseNotes(d) == Strip(mid)
  {
    assert d + notes == pre + Marker + mid + Marker + ("\n\n" + notes);
    TwoMarkers(pre, mid, "\n\n" + notes);
    TwoMarkers(pre, mid, "\n\n");
  }

  /** A draft whose diff excerpt is the whole diff, and that diff shows the marker line, has two markers. */
  lemma MarkedDiffShape(w: Wording, version: string, total: nat, s: Summary, stats: string, pre: string, post: string)
    requires |pre + Marker + post| <= DiffLimit
    ensures Draft(w, version, total, s, stats, pre + Marker + post)
         == (Header(w, version, total, s) + Sections(w, s) + (w.statsOpen + stats + w.diffOpen) + pre) + Marker
            + (post + "\n" + (w.guide + version + w.exampleClose)) + Marker + "\n\n"
  {
    var diff := pre + Marker + post;
    WholeDiffAppendix(w, version, stats, diff);
    DiffInDraft(Header(w, version, total, s) + Sections(w, s), w.statsOpen + stats + w.diffOpen, pre, Marker, post,
                "\n", w.guide + version + w.exampleClose, "\n\n");
  }

  /** A diff within the limit is shown whole, with no note on cut characters. */
  lemma WholeDiffAppendix(w: Wording, version: string, stats: string, diff: string)
    requires |diff| <= DiffLimit
    ensures Appendix(w, version, stats, diff) == w.statsOpen + stats + w.diffOpen + diff + "\n" + (w.guide + version + w.exampleClose)
  {
  }

  /** The draft's closing text around a diff that holds the marker, regrouped around the two markers. */
  lemma DiffInDraft(h: string, open: string, pre: string, mark: string, post: string, nl: string, close: string,
                    blank: string)
    ensures h + (open + (pre + mark + post) + nl + close + mark + blank)
         == (h + open + pre) + mark + (post + nl + close) + mark + blank
  {
  }

  /**
   * When the diff excerpt shows the marker line, the first marker of the
   * draft is the one inside the diff: the read-back stops at the draft's own
   * marker, returns the diff's tail and the writing guide, and ignores the
   * notes written below.
   */
  lemma MarkerInDiffLosesNotes(w: Wording, version: string, total: nat, s: Summary, stats: string,
                               pre: string, post: string, notes: string)
    requires WordingNoGlyph(w) && SummaryNoGlyph(s) && NoGlyph(stats)
    requires NoGlyph(version) && !IsBlank(version)
    requires NoGlyph(pre) && NoGlyph(post) && |pre + Marker + post| <= DiffLimit
    ensures ReadReleaseNotes(Draft(w, version, total, s, stats, pre + Marker + post) + notes)
         == Strip(post + "\n" + (w.guide + version + w.exampleClose))
    ensures ReadReleaseNotes(Draft(w, version, total, s, stats, pre + Marker + post) + notes)
         == ReadReleaseNotes(Draft(w, version, total, s, stats, pre + Marker + post))
  {
    var d := Draft(w, version, total, s, stats, pre + Marker + post);
    var a := Header(w, version, total, s) + Sections(w, s) + (w.statsOpen + stats + w.diffOpen) + pre;
    var m := post + "\n" + (w.guide + version + w.exampleClose);
    MarkedDiffShape(w, version, total, s, stats, pre, post);
    HeaderNoGlyph(w, version, total, s);
    SectionsNoGlyph(w, s);
    NotBlankAround(w.guide, version, w.exampleClose);
    NotBlankAround(post + "\n", w.guide + version + w.exampleClose, []);
    assert m + [] == m;
    ReadsBetweenMarkers(d, a, m, notes);
  }

  // ------------------------------------------------------- sections and diff

  /** The bullets of two lists one after the other are the bullets of the joined list. */
  lemma {:induction false} BulletsAppend(a: seq<string>, b: seq<string>)
    ensures Bullets(a + b) == Bullets(a) + Bullets(b)
    decreases |b|
  {
    if b == [] {
      assert a + b == a;
    } else {
      var init := b[..|b| - 1];
      assert (a + b)[..|a + b| - 1] == a + init;
      BulletsAppend(a, init);
    }
  }

  /** A one-commit list is one bullet line. */
  lemma BulletOfOne(c: string)
    ensures Bullets([c]) == "- " + c + "\n"
  {
    assert [c][..0] == [];
  }

  /** A section is empty exactly when its list is. */
  lemma SectionEmpty(title: string, items: seq<string>)
    ensures Section(title, items) == [] <==> items == []
  {
    if items != [] {
      assert |Section(title, items)| >= |"\n"|;
    }
  }

  /**
   * The diff is shown as a prefix of at most `DiffLimit` characters; the note
   * is there exactly when something was cut, and then it gives the number of
   * characters cut.
   */
  lemma DiffAccounted(w: Wording, diff: string)
    ensures |Excerpt(diff)| == if |diff| <= DiffLimit then |diff| else DiffLimit
    ensures Excerpt(diff) + diff[|Excerpt(diff)|..] == diff
    ensures RemainderNote(w, diff) == [] <==> Excerpt(diff) == diff
    ensures RemainderNote(w, diff) != []
        ==> RemainderNote(w, diff) == w.remainderOpen + NatToString(|diff| - |Excerpt(diff)|) + w.remainderClose
  {
    assert Excerpt(diff) + diff[|Excerpt(diff)|..] == diff;
  }
}
