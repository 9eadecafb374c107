/**
 * The fixed wording of the release-notes draft: one constant per line or
 * caption of the two f-strings, the record `Wording` of the text between the
 * places where values are filled in, and the fact the read-back depends on,
 * that the down-pointing hand of the marker line occurs in none of it.
 */
module Template {

  /** The hand that sets the marker line apart from everything else in the draft. */
  const Glyph: char := '\U{1F447}'

  /** The line after which the edited release notes are expected. */
  const Marker: string := "# \U{1F447} 在此处编写最终的 Release Notes"

  /** `s` does not contain the marker's hand. */
  predicate NoGlyph(s: string) {
    Glyph !in s
  }

  // Header lines (lines 227-241)

  const TitlePrefix: string := "# Release Notes for "
  const Request: string := "请基于以下信息生成高质量的 release notes。\n"
  const Notice: string := "**注意：** 不要简单罗列 commits，而是要提炼出真正的功能变化和价值。\n"
  const VersionHeading: string := "## 版本信息\n"
  const VersionLabel: string := "- 版本号: "
  const TotalLabel: string := "- 总提交数: "
  const BreakingLabel: string := "  - 破坏性变更: "
  const FeatureLabel: string := "  - 新功能: "
  const FixLabel: string := "  - 修复: "
  const OtherLabel: string := "  - 其他: "
  const CommitsHeading: string := "## Commit Messages\n"

  // Section titles (lines 246, 252, 258, 264)

  const BreakingTitle: string := "### 破坏性变更\n"
  const FeatureTitle: string := "### 新功能\n"
  const FixTitle: string := "### 修复\n"
  const OtherTitle: string := "### 其他变更\n"

  // Statistics and diff (lines 270-288)

  const StatsHeading: string := "## 代码变更统计\n"
  const DiffHeading: string := "## 详细 Diff\n"
  const DiffSummary: string := "<summary>点击查看完整 diff（可能很长）</summary>\n"
  const RemainderOpen: string := "... (还有 "
  const RemainderClose: string := " 字符)"

  // Writing guide (lines 290-322)

  const WriteHeading: string := "## 请在下方编写 Release Notes\n"
  const RulesHeading: string := "**格式要求：**\n"
  const Rule1: string := "1. 用简洁的语言总结主要变化\n"
  const Rule2: string := "2. 聚焦于用户可见的功能和改进\n"
  const Rule3: string := "3. 不要简单复制 commit messages\n"
  const Rule4: string := "4. 使用 Markdown 格式\n"
  const Rule5: string := "5. 仅在最后用一个小节写 “Developer Notes（可选）”，其中可以包含：\n"
  const Rule5Modules: string := "   - 新增模块/目录\n"
  const Rule5Notes: string := "   - 重要实现说明\n"
  const Rule5Size: string := "   - 大致代码量（可用区间/量级，避免精确行数刷屏）\n"
  const Rule6: string := "6. **不要主观评价**（不要出现“很棒/非常优秀/史诗级”等），只写事实与影响。\n"
  const Rule7: string := "7. 不要在最后再写一句话总结（例如 “总之这是一次重要更新” 之类）。\n"
  const Rule8: string := "8. 如果 diff 信息不足以确定某些事实，使用“未知/请确认”的措辞，不要编造。\n"
  const ExampleHeading: string := "**示例：**\n"
  const ExampleOverview: string := "## Overview\n"
  const ExampleGist: string := "<1-2 句：这次发布的核心变化与对用户的影响>\n"
  const ExampleChanges: string := "**变更内容：**\n"
  const ExampleChangeItem: string := "- <2-5 条要点：用户可见能力/行为变化>\n"
  const ExampleDevNotes: string := "**Developer Notes: (optional)**\n"
  const ExampleDevFiles: string := "- <新增目录/关键文件（只列 3-8 条）>\n"
  const ExampleDevPoints: string := "- <实现要点（1-3 条）>\n"

  /** The numbered writing rules, heading included. */
  const Rules: string :=
    RulesHeading + Rule1 + Rule2 + Rule3 + Rule4 + Rule5
    + Rule5Modules + Rule5Notes + Rule5Size + Rule6 + Rule7 + Rule8

  // Each line is free of the hand; one lemma per line keeps every proof small.

  lemma TitlePrefixNoGlyph() ensures NoGlyph(TitlePrefix) {}
  lemma RequestNoGlyph() ensures NoGlyph(Request) {}
  lemma NoticeNoGlyph() ensures NoGlyph(Notice) {}
  lemma VersionHeadingNoGlyph() ensures NoGlyph(VersionHeading) {}
  lemma VersionLabelNoGlyph() ensures NoGlyph(VersionLabel) {}
  lemma TotalLabelNoGlyph() ensures NoGlyph(TotalLabel) {}
  lemma BreakingLabelNoGlyph() ensures NoGlyph(BreakingLabel) {}
  lemma FeatureLabelNoGlyph() ensures NoGlyph(FeatureLabel) {}
  lemma FixLabelNoGlyph() ensures NoGlyph(FixLabel) {}
  lemma OtherLabelNoGlyph() ensures NoGlyph(OtherLabel) {}
  lemma CommitsHeadingNoGlyph() ensures NoGlyph(CommitsHeading) {}
  lemma BreakingTitleNoGlyph() ensures NoGlyph(BreakingTitle) {}
  lemma FeatureTitleNoGlyph() ensures NoGlyph(FeatureTitle) {}
  lemma FixTitleNoGlyph() ensures NoGlyph(FixTitle) {}
  lemma OtherTitleNoGlyph() ensures NoGlyph(OtherTitle) {}
  lemma StatsHeadingNoGlyph() ensures NoGlyph(StatsHeading) {}
  lemma DiffHeadingNoGlyph() ensures NoGlyph(DiffHeading) {}
  lemma DiffSummaryNoGlyph() ensures NoGlyph(DiffSummary) {}
  lemma RemainderOpenNoGlyph() ensures NoGlyph(RemainderOpen) {}
  lemma RemainderCloseNoGlyph() ensures NoGlyph(RemainderClose) {}
  lemma WriteHeadingNoGlyph() ensures NoGlyph(WriteHeading) {}
  lemma RulesHeadingNoGlyph() ensures NoGlyph(RulesHeading) {}
  lemma Rule1NoGlyph() ensures NoGlyph(Rule1) {}
  lemma Rule2NoGlyph() ensures NoGlyph(Rule2) {}
  lemma Rule3NoGlyph() ensures NoGlyph(Rule3) {}
  lemma Rule4NoGlyph() ensures NoGlyph(Rule4) {}
  lemma Rule5NoGlyph() ensures NoGlyph(Rule5) {}
  lemma Rule5ModulesNoGlyph() ensures NoGlyph(Rule5Modules) {}
  lemma Rule5NotesNoGlyph() ensures NoGlyph(Rule5Notes) {}
  lemma Rule5SizeNoGlyph() ensures NoGlyph(Rule5Size) {}
  lemma Rule6NoGlyph() ensures NoGlyph(Rule6) {}
  lemma Rule7NoGlyph() ensures NoGlyph(Rule7) {}
  lemma Rule8NoGlyph() ensures NoGlyph(Rule8) {}
  lemma ExampleHeadingNoGlyph() ensures NoGlyph(ExampleHeading) {}
  lemma ExampleOverviewNoGlyph() ensures NoGlyph(ExampleOverview) {}
  lemma ExampleGistNoGlyph() ensures NoGlyph(ExampleGist) {}
  lemma ExampleChangesNoGlyph() ensures NoGlyph(ExampleChanges) {}
  lemma ExampleChangeItemNoGlyph() ensures NoGlyph(ExampleChangeItem) {}
  lemma ExampleDevNotesNoGlyph() ensures NoGlyph(ExampleDevNotes) {}
  lemma ExampleDevFilesNoGlyph() ensures NoGlyph(ExampleDevFiles) {}
  lemma ExampleDevPointsNoGlyph() ensures NoGlyph(ExampleDevPoints) {}

  lemma RulesNoGlyph()
    ensures NoGlyph(Rules)
  {
    RulesHeadingNoGlyph(); Rule1NoGlyph(); Rule2NoGlyph(); Rule3NoGlyph(); Rule4NoGlyph(); Rule5NoGlyph();
    Rule5ModulesNoGlyph(); Rule5NotesNoGlyph(); Rule5SizeNoGlyph(); Rule6NoGlyph(); Rule7NoGlyph(); Rule8NoGlyph();
  }

}
