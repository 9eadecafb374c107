/** The text of the release-notes draft around the values filled in. */
module Layout {
  import opened Template

  /**
   * The text of the draft between the values filled in, in the order it
   * appears: the title line, the version facts, one caption per count, the
   * heading of the commit lists, the four section titles, the text around the
   * statistics and the diff excerpt, the remainder note's two halves, and the
   * guide, which names the version once more in its example.
   */
  datatype Wording = Wording(
    title: string, intro: string,
    totalCaption: string, breakingCaption: string, featureCaption: string, fixCaption: string, otherCaption: string,
    listsHeading: string,
    breakingTitle: string, featureTitle: string, fixTitle: string, otherTitle: string,
    statsOpen: string, diffOpen: string, remainderOpen: string, remainderClose: string,
    guide: string, exampleClose: string)

  /** No part of the wording contains the marker's hand. */
  predicate WordingNoGlyph(w: Wording) {
    NoGlyph(w.title) && NoGlyph(w.intro) &&
    NoGlyph(w.totalCaption) && NoGlyph(w.breakingCaption) && NoGlyph(w.featureCaption) &&
    NoGlyph(w.fixCaption) && NoGlyph(w.otherCaption) && NoGlyph(w.listsHeading) &&
    NoGlyph(w.breakingTitle) && NoGlyph(w.featureTitle) && NoGlyph(w.fixTitle) && NoGlyph(w.otherTitle) &&
    NoGlyph(w.statsOpen) && NoGlyph(w.diffOpen) && NoGlyph(w.remainderOpen) && NoGlyph(w.remainderClose) &&
    NoGlyph(w.guide) && NoGlyph(w.exampleClose)
  }

  /** The wording of `generate_release_notes_template`. */
  const Script: Wording := Wording(
    title := TitlePrefix,
    intro := "\n" + Request + Notice + "\n" + VersionHeading + VersionLabel,
    totalCaption := TotalLabel,
    breakingCaption := BreakingLabel,
    featureCaption := FeatureLabel,
    fixCaption := FixLabel,
    otherCaption := OtherLabel,
    listsHeading := "\n" + CommitsHeading + "\n",
    breakingTitle := BreakingTitle,
    featureTitle := FeatureTitle,
    fixTitle := FixTitle,
    otherTitle := OtherTitle,
    statsOpen := StatsHeading + "\n" + "```\n",
    diffOpen := "\n" + "```\n" + "\n" + DiffHeading + "\n" + "<details>\n" + DiffSummary + "\n" + "```diff\n",
    remainderOpen := RemainderOpen,
    remainderClose := RemainderClose,
    guide := "\n" + "```\n" + "\n" + "</details>\n" + "\n" + "---\n" + "\n" + WriteHeading + "\n" + Rules + "\n" + ExampleHeading + "```markdown\n" + "Release ",
    exampleClose := "\n" + "\n" + ExampleOverview + ExampleGist + "\n" + ExampleChanges + ExampleChangeItem + "\n" + ExampleDevNotes + ExampleDevFiles + ExampleDevPoints + "\n" + "```\n" + "\n" + "---\n" + "\n"
  )

  lemma HeaderWordingNoGlyph()
    ensures NoGlyph(Script.title) && NoGlyph(Script.intro) && NoGlyph(Script.listsHeading)
  {
    TitlePrefixNoGlyph(); RequestNoGlyph(); NoticeNoGlyph(); VersionHeadingNoGlyph(); VersionLabelNoGlyph();
    CommitsHeadingNoGlyph();
  }

  lemma CaptionsNoGlyph()
    ensures NoGlyph(Script.totalCaption) && NoGlyph(Script.breakingCaption) && NoGlyph(Script.featureCaption)
    ensures NoGlyph(Script.fixCaption) && NoGlyph(Script.otherCaption)
    ensures NoGlyph(Script.breakingTitle) && NoGlyph(Script.featureTitle)
    ensures NoGlyph(Script.fixTitle) && NoGlyph(Script.otherTitle)
  {
    TotalLabelNoGlyph(); BreakingLabelNoGlyph(); FeatureLabelNoGlyph(); FixLabelNoGlyph(); OtherLabelNoGlyph();
    BreakingTitleNoGlyph(); FeatureTitleNoGlyph(); FixTitleNoGlyph(); OtherTitleNoGlyph();
  }

  lemma DiffWordingNoGlyph()
    ensures NoGlyph(Script.statsOpen) && NoGlyph(Script.diffOpen)
    ensures NoGlyph(Script.remainderOpen) && NoGlyph(Script.remainderClose)
  {
    StatsHeadingNoGlyph(); DiffHeadingNoGlyph(); DiffSummaryNoGlyph(); RemainderOpenNoGlyph(); RemainderCloseNoGlyph();
  }

  lemma GuideNoGlyph()
    ensures NoGlyph(Script.guide)
  {
    WriteHeadingNoGlyph(); RulesNoGlyph(); ExampleHeadingNoGlyph();
  }

  lemma ExampleCloseNoGlyph()
    ensures NoGlyph(Script.exampleClose)
  {
    ExampleOverviewNoGlyph(); ExampleGistNoGlyph(); ExampleChangesNoGlyph(); ExampleChangeItemNoGlyph();
    ExampleDevNotesNoGlyph(); ExampleDevFilesNoGlyph(); ExampleDevPointsNoGlyph();
  }

  /** The script's wording never contains the marker's hand. */
  lemma ScriptNoGlyph()
    ensures WordingNoGlyph(Script)
  {
    HeaderWordingNoGlyph();
    CaptionsNoGlyph();
    DiffWordingNoGlyph();
    GuideNoGlyph();
    ExampleCloseNoGlyph();
  }
}
