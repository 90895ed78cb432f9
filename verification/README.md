# Obsidian vault server: a verified model

This project models the logic of an Obsidian vault server written in Go and proves properties of it in
Dafny 4.11. It covers the parts that hold branching, state and arithmetic; disk, clock, network and
libraries appear only as parameters.

`dafny verify dfyconfig.toml` checks everything.

| module | what it models |
|---|---|
| Wrappers, Lines, FilePaths | option and result types, splitting and joining text, lexical file names |
| Fences, FenceText | fenced code blocks, inline code, `StripCodeFences`; the blocks told by the text of their lines |
| TagEdits, TagCoverage, TagRemoval, TagLeads, RemovalExamples | renaming and removing inline tags outside fences; which occurrences they reach, what a removal leaves behind, when it keeps the fences and the characters in front |
| Wikilinks, MarkdownLinks, Splice, LinkRewrite, MarkdownRewrite, MoveNames, NoteRewrite, LinkExamples | both link grammars, splice by saved offsets, link rewriting when a note moves, and three moves where it goes wrong |
| TargetNames, LinkReports | the names a note has in links, by the parts of its path, with the basename index; what the rewrite reports |
| Regex, Glob, PathScope | the fragment of regular expressions the glob compiler emits, the compiler, the two scope matchers |
| Frontmatter, AddedTag | frontmatter split; a tag appended to a body, and what removing it gives |
| Headings, Patch, PatchLaws, Replace | outline, heading patch, capped literal replace; the patch told by the text of the note |
| Paths, PathLaws | path normalisation and the acceptance test of every call; where a path leads, and the test told on its text |
| Ranking, TopResults, RankingLaws, Snippets | BM25 over the reals, ordered and capped result list, what the ranking prefers, snippets |
| Sessions, SessionAnswers | the session table with its time limit and its sweep; what each answer says about the past |
| Retention, Store | the retention cutoff in 64 bits; the vault as a class, each call specified by what it does to the disk |
| History, Writes, Requests | runs of calls one at a time: frames, what an etag condition guards, what each successful call leaves; requests with paths as clients spell them |
| CriticalSection, Interleaving | one call as file operations inside the lock; many clients, with lock-free reads |
| Conservation | moving, soft delete and pruning lose nothing but what retention allows |

Loops and objects of the program are methods and classes here, each proved against a function on values;
the lemmas then say what that function means. Text is a sequence of characters; the code's ASCII tests
work alike on bytes and characters. The letters and digits of Unicode, lower-casing, the logarithm, the
digest, URL escapes, YAML calls and `filepath.Match` are parameters, with their assumptions stated where
they are used.

## Where the code and its words differ

The model follows the code.

- `rewriteLine` (internal/vault/linkrewrite.go:198-201) says that going from right to left keeps the saved
  offsets valid. The list has all wikilinks before all Markdown links, so it goes from right to left only
  when every written Markdown link stands behind every written wikilink.
  `MoveNames.RightUnderEveryNameIff` says so for the texts the program writes, under every new name of the
  note, and `LinkRewrite.RewriteRightIffMarkdownLast` for arbitrary new texts. On other lines the program may
  also stop: `LinkRewrite.StopsIff` is the exact test, made on the line before it is written.
  `LinkExamples.LongerNameGarbles`, `LinkExamples.NestedLinkGarbles` and `LinkExamples.ShorterNameStops` show
  two lines that are garbled, one of them with a wikilink inside a Markdown link's fragment, and a move on
  which the program stops.
- A `#` in a new name is not escaped in wikilinks, and the rewritten links are read as a shorter name with an
  anchor: `LinkRewrite.HashNameIsNoTarget`; `LinkRewrite.RewriteKeepsLinksIff` is the exact condition.
- `buildMatchTargets` speaks of the targets that refer to the note (internal/vault/linkrewrite.go:36-38); the
  test takes a target with any other extension too, so a link to `aa.png` is rewritten when `aa.md` moves.
  `LinkRewrite.PointsAtMovedIff`, `LinkRewrite.OtherExtensionPoints`.
- `RenameTag` and `RemoveTag` speak of every occurrence (internal/vault/renametag.go:23-25,
  internal/vault/tags.go:309-310). A separator shared by two tags is consumed by the first.
  `TagCoverage.RenameReplacesAllIff` and `TagRemoval.RemovalDropsAllIff` say exactly when none is missed.
- Dropping every occurrence does not mean that none is left: a removal can put a new one together from the
  text around it. `TagRemoval.TagIsLeftIff` is the exact condition, read off the line before the edit, and
  `TagRemoval.PlainTagIsLeftIffCrowded` its simple form for a tag without a hyphen.
- `RemoveTag` is to be a no-op for a tag the note does not have (internal/vault/tags.go:312-315). It drops frontmatter
  that holds no mapping: `AddedTag.AbsentTagIsNoOpIff` is the exact condition.
- `AddTag` appends an inline tag to the body (internal/vault/tags.go:158-159), also inside a fenced block left open,
  where no scanner sees it and `RemoveTag` does not remove it: `AddedTag.InlineTagRoundTripIff`.
- `rewriteTarget` says that presence of an extension is preserved (internal/vault/linkrewrite.go:47-51). A dot in the
  stem is taken for one: a bare link to `v1.2` comes out with `.md`. `TargetNames.NewTargetIs` tells the target for
  every path, `TargetNames.MoveBackRestoresTargetIff` when a move there and back restores it.
- `RemoveTag` says that fenced regions are skipped; its edit can open a new fence.
  `TagRemoval.RemovalKeepsFencesIff` says for which bodies it does not.
- The removal callback is to preserve the character in front of the tag (internal/vault/tags.go:412-418); it
  drops a `#` there and keeps only the first byte of a character beyond ASCII.
  `TagLeads.RemovalKeepsLeadsIff` says exactly when nothing is changed there, `TagLeads.DashAndHashAreNotKept`
  shows both losses. U+00C3 would survive as its own first byte, but as a letter it cannot stand there.
- The two scope matchers are meant to decide alike; `MatchesPathScope` gives up on a pattern `filepath.Match`
  rejects, the precompiled matcher goes on to the regular expression (internal/search/bm25.go:93-96, 140).
  `PathScope.MatchersAgreeIff` is the exact condition.
- Retention above 106751 days overflows 64-bit nanoseconds (internal/vault/mutators.go:229); the configuration
  only rejects negative values. From there on the promise of the setting fails (`Retention.RetainsIff`), up to
  213503 days by pruning the whole trash.
- A vault whose root is `/` accepts no path but those that clean to the root itself
  (internal/vault/vault.go:68-73): `Paths.SlashRootRefuses`.
- An ignore pattern `.` is the one pattern that can hit a cleaned path but not the raw one, as for `a/..`:
  `Paths.CleaningRevealsNothingIgnored`, `Paths.DotIsRevealed`.
- A second `replace_body` supersedes the first only when the first brought no heading that ends the section:
  `Patch.SecondReplaceSupersedes`.

## Model

| member | source | states |
|---|---|---|
| Fences.FenceOpener | internal/markdown/fence.go:64-79 | character, full run length and success are those of the opener definition: three equal fence characters at column 0 |
| Fences.IsFenceCloser | internal/markdown/fence.go:84-102 | true exactly for a run of at least the opener's length followed by spaces only |
| Fences.FencedMeansInABlock | internal/markdown/fence.go:23-56 | a line is marked fenced exactly when it opens a block or some earlier opener's block has not been closed strictly before it |
| FenceText.OpensIff | internal/markdown/fence.go:64-79 | outside a block a line opens one exactly when it begins with a run of three or more backticks or tildes, whose whole length is remembered |
| FenceText.EndsIff | internal/markdown/fence.go:84-102 | inside a block exactly the lines of at least as many copies of the opening character, then spaces, then carriage returns, end it; a shorter run never does |
| FenceText.BlockReaches | internal/markdown/fence.go:23-56 | every line from an opening line up to the first closing one is fenced, and the block is closed behind it |
| FenceText.BlockIsBlanked | internal/markdown/fence.go:18-59 | a whole block is blank in the stripped text, and the line behind it is read as text again |
| Fences.StripInlineCode | internal/markdown/fence.go:106-151 | the index loop computes the left-to-right meaning of inline spans |
| Fences.StripInlineTwice | internal/markdown/fence.go:106-151 | stripping inline code creates no new single-backtick pair: it is idempotent |
| Fences.StripInlineMakesNoOpener | internal/markdown/fence.go:106-151 | inline stripping never turns a line into a fence opener |
| Fences.StripCodeFences | internal/markdown/fence.go:18-59 | the line loop replaces exactly the fenced lines by a space and strips the others |
| Fences.StrippedKeepsLines | internal/markdown/fence.go:18-59 | the result has the same number of lines, line i coming from line i |
| Fences.StrippedHasNoOpenFence | internal/markdown/fence.go:18-59 | no line of the result is fenced |
| Fences.StrippedTwice | internal/markdown/fence.go:18-59 | StripCodeFences is idempotent on every text |
| Fences.EditKeepsFencesIff | internal/vault/tags.go:399-427 | an edit that leaves fenced lines alone keeps the fence status of every line exactly when no unfenced line comes out as an opener |
| Fences.EditKeepsFences | internal/vault/renametag.go:158-181 | an edit that leaves fenced lines alone and makes no unfenced line look like an opener keeps the fence status of every line |
| TagEdits.RenameInlineTag | internal/vault/renametag.go:148-184 | the loop with its own fence state renames exactly the unfenced lines and sums their counts |
| TagEdits.RemoveInlineTag | internal/vault/tags.go:393-429 | the loop of RemoveTag removes in exactly the unfenced lines |
| TagEdits.ContextOfMatch | internal/vault/renametag.go:149-149 | a match is a lead that may precede a tag, the tag, and a separator or the end |
| TagEdits.RenameInContext | internal/vault/renametag.go:169-173 | the callback keeps lead and separator of a match and puts only the new tag between them |
| TagEdits.RenameLineRoundTrip | internal/vault/renametag.go:169-173 | old to new and new to old restores a line without `#new`, with equal counts, shared separators included |
| TagEdits.RenameRoundTrip | internal/vault/renametag.go:148-184 | the same for whole bodies when no unfenced line contains `#new` |
| TagEdits.RenamedBodyKeepsFences | internal/vault/renametag.go:148-184 | with a newline-free new tag the result has the same lines, fence status line by line, and fenced lines untouched |
| TagEdits.SharedSeparator | internal/vault/renametag.go:149-149 | in `#o #o` only the first tag is replaced |
| TagCoverage.CrowdedMeans | internal/vault/renametag.go:149-149 | the recursive test for crowded occurrences holds exactly when two of them have at most one character between them |
| TagCoverage.OccursMeans | internal/vault/renametag.go:149-149 | an occurrence of a tag: no letter, number, `_` or `/` in front of its hash, no letter, number, `_`, `/` or `-` behind it |
| TagCoverage.ReplacesAllIffNotCrowded | internal/vault/renametag.go:169-173 | on a line the matches never exceed the occurrences and equal them exactly when the line is not crowded |
| TagCoverage.RenameReplacesAllIff | internal/vault/renametag.go:148-184 | the reported count is the number of all unfenced occurrences exactly when no unfenced line is crowded |
| TagRemoval.EditorsWriteSegments | internal/vault/tags.go:412-418 | a line is its copied characters and matches; rename writes them with the new tag and counts the matches, removal writes the leads only |
| TagRemoval.DropsAllIffNotCrowded | internal/vault/tags.go:391-419 | on a line the dropped tags never exceed the occurrences and equal them exactly when the line is not crowded |
| TagRemoval.RemovalDropsAllIff | internal/vault/tags.go:309-429 | a removal drops every unfenced occurrence exactly when no unfenced line is crowded |
| TagRemoval.AfterMeans | internal/vault/tags.go:412-418 | what a removal writes first, and what is then still to be read, told from the line for every text |
| TagRemoval.TagIsLeftIff | internal/vault/tags.go:391-419 | an occurrence is left on a line exactly when the line spells one anew, by a missed tag that keeps a lead or by a join |
| TagRemoval.RemovalLeavesNoTagIff | internal/vault/tags.go:393-429 | the same for every unfenced line of a body |
| TagRemoval.PlainTagIsLeftIffCrowded | internal/vault/tags.go:391-419 | for a tag without hyphen, and no `#` or non-ASCII character directly in front of it, exactly the crowded lines keep a tag |
| TagRemoval.WritesOpenerMeans | internal/vault/tags.go:412-418 | which lines a removal turns into fence openers, told from the line |
| TagRemoval.RemovedLinesAreRead | internal/vault/tags.go:393-429 | the written body splits into exactly the edited lines |
| TagRemoval.ScannersAgree | internal/vault/renametag.go:143-181 | on every body the three scanners write texts with the body's lines: where it has a fenced line the search text is blank and both edited texts have that line, and other lines are edited by pattern alone |
| TagRemoval.RemovalKeepsFencesIff | internal/vault/tags.go:393-429 | a removal keeps the fence status of every line exactly when no unfenced line writes an opener |
| RemovalExamples.SharedSeparatorLeavesTag | internal/vault/tags.go:391-419 | of `#o #o` the second tag is left |
| RemovalExamples.HyphenJoinLeavesTag | internal/vault/tags.go:391-419 | `#a-#a-b b` has one occurrence of `a-b`, not crowded, and becomes `#a-b` |
| RemovalExamples.LostLeadLeavesNoTag | internal/vault/tags.go:391-419 | in `x##o #o` the missed tag is none any more when the `#` before the other is dropped |
| RemovalExamples.RemovalCanOpenFence | internal/vault/tags.go:412-418 | removal eats the separator and turns one line into a fence opener |
| TagLeads.OwnFirstByteMeans | internal/vault/tags.go:415-415 | which characters are their own first byte: ASCII and U+00C3 |
| TagLeads.LeadsAreKeptIff | internal/vault/tags.go:412-418 | what the callback writes is the text with all leads kept exactly when every match has none, or one that is neither `#` nor beyond its first byte |
| TagLeads.RemovalKeepsLeadsIff | internal/vault/tags.go:412-418 | the same for the edited line, in terms of its matches |
| TagLeads.RemovalKeepsLeadsInBodyIff | internal/vault/tags.go:393-429 | the same for every unfenced line of the written body |
| TagLeads.DashAndHashAreNotKept | internal/vault/tags.go:412-418 | a dash in front of a tag comes out as one byte, a `#` not at all |
| Wikilinks.ReadsWhatIsThere | internal/vault/linkrewrite.go:18-18 | whatever the pattern reads is a well-formed link, and printing it gives the text that was read |
| Wikilinks.ReadOfPrint | internal/vault/linkrewrite.go:18-18 | a printed well-formed link is read back as itself, whatever follows |
| Wikilinks.PartsOfBody | internal/vault/linkrewrite.go:18-18 | every body without `]` that does not begin with a bar or hash splits into target, anchor and alias |
| Wikilinks.ReadsAnyBody | internal/vault/linkrewrite.go:18-18 | the pattern reads every such body between its brackets |
| Wikilinks.PrintOfScan | internal/vault/linkrewrite.go:209-235 | scanning into links and gaps and printing the pieces gives the line back |
| Wikilinks.NoLinkInGap | internal/vault/linkrewrite.go:209-235 | exchanging a link for one with another target makes no link begin in the text in front of it |
| Wikilinks.ScanOfRetargeted | internal/vault/linkrewrite.go:209-235 | after changing targets to non-empty ones without `]`, bar and hash, re-scanning finds exactly the changed links and no other |
| Wikilinks.RescansIffValid | internal/vault/linkrewrite.go:209-235 | re-scanning finds the changed links if and only if all new targets are valid |
| MarkdownLinks.ReadsValidMd | internal/vault/linkrewrite.go:23-23 | whatever the Markdown pattern reads is a well-formed link and begins the text |
| MarkdownLinks.ReadMdOfPrint | internal/vault/linkrewrite.go:23-23 | a printed well-formed Markdown link is read back as itself, whatever follows |
| MarkdownLinks.NoMdInGap | internal/vault/linkrewrite.go:237-260 | exchanging a Markdown link's path makes no link begin in the text in front of it |
| MarkdownLinks.ScanOfRepathed | internal/vault/linkrewrite.go:237-260 | after changing paths to paths of the grammar, re-scanning finds exactly the changed links and no other |
| MarkdownLinks.RescansMdIffValid | internal/vault/linkrewrite.go:237-260 | and only then |
| Splice.SpliceRightToLeft | internal/vault/linkrewrite.go:266-274 | the splice loop, with an explicit outcome for an offset outside the text |
| Splice.SplicesIffAllFit | internal/vault/linkrewrite.go:268-274 | the loop gets through exactly when every entry ends within the text as the entries behind it in the list leave it, and the result has the summed length |
| Splice.AscendingIsSubstitution | internal/vault/linkrewrite.go:266-274 | for an ascending list the splice equals the simultaneous substitution of all spans, ambiguous spans and gaps copied |
| Splice.OutOfOrderIsWrong | internal/vault/linkrewrite.go:266-274 | two written spans that do not follow each other in list order, overlapping or not, make it differ for some replacement texts |
| Splice.SubstitutedLength | internal/vault/linkrewrite.go:266-274 | with one character more in one entry, the substitution is longer exactly when reading the line from left to right comes to that entry's span |
| Splice.SplicesRightIffAscending | internal/vault/linkrewrite.go:266-274 | the splice is the substitution for all replacement texts exactly when the list ascends, overlapping spans included |
| LinkRewrite.ReadsMdThatIsThere | internal/vault/linkrewrite.go:23-23 | what the Markdown pattern reads is what the text begins with |
| LinkRewrite.PointsAtMovedIff | internal/vault/linkrewrite.go:36-46 | a target names the moved note exactly when it is one of the four names of its path, or one with any extension behind it |
| LinkRewrite.OtherExtensionPoints | internal/vault/linkrewrite.go:209-214 | the note's stem and path with any other extension are taken for it |
| LinkRewrite.DecideWikis | internal/vault/linkrewrite.go:209-235 | the wikilink loop makes one match per link to the moved note, ambiguous ones without text |
| LinkRewrite.DecideMarkdowns | internal/vault/linkrewrite.go:237-260 | the same for Markdown links, compared decoded and written back in their own encoding |
| LinkRewrite.RewriteLine | internal/vault/linkrewrite.go:202-275 | the line is the right-to-left splice of the match list, and the reports are its matches in order, one each |
| LinkRewrite.AscendingIffMarkdownLast | internal/vault/linkrewrite.go:209-260 | the match list lies inside the line and ascends exactly when every written Markdown link stands behind every written wikilink |
| LinkRewrite.StopsIff | internal/vault/linkrewrite.go:262-274 | the program stops on a line exactly when a written wikilink ends behind the length the line has once its Markdown links are rewritten |
| LinkRewrite.RewriteRightIffMarkdownLast | internal/vault/linkrewrite.go:262-274 | for arbitrary new texts: the splice at the line's spans is the substitution for all of them exactly in that case |
| MoveNames.LongNameIsWrong | internal/vault/linkrewrite.go:202-275 | on every other line a long enough new name is spliced wrong, with the texts the program writes |
| MoveNames.RightUnderEveryNameIff | internal/vault/linkrewrite.go:202-275 | with the texts the program writes, the line is rewritten right under every new name exactly in that case |
| LinkRewrite.RewriteIsSubstitution | internal/vault/linkrewrite.go:202-275 | then the rewritten line is the simultaneous substitution of all links |
| LinkRewrite.NewTargetIsFree | internal/vault/linkrewrite.go:52-67 | a new target consists of characters of the new path |
| LinkRewrite.NewTargetIsValid | internal/vault/linkrewrite.go:52-67 | a path with a stem and without `]`, bar and hash gives only well-formed targets, in all four styles |
| TargetNames.PartsOfPath | internal/vault/pathfilter.go:91-94 | every path that does not end in a slash is directories, stem and extension |
| TargetNames.NamesOfNote | internal/vault/linkrewrite.go:39-45 | the four names of a note, as those parts |
| TargetNames.NewTargetIs | internal/vault/linkrewrite.go:52-67 | a new target is the new stem, with the directories exactly when the old target had a slash, and the extension exactly when a dot stood behind its last slash |
| TargetNames.NewTargetEndsPath | internal/vault/linkrewrite.go:52-67 | with its missing extension a path target is the whole new path, a bare one its last element |
| TargetNames.NewTargetPointsAtNote | internal/vault/linkrewrite.go:36-67 | a rewritten link is one to the note under its new path |
| TargetNames.MoveBackRestoresTargetIff | internal/vault/linkrewrite.go:47-67 | for which targets a move there and back restores the link |
| TargetNames.BasenameIndex | internal/vault/linkrewrite.go:97-107 | the loop lists the notes under their stems |
| TargetNames.AmbiguousIffShared | internal/vault/linkrewrite.go:225-228 | a link is ambiguous exactly when it has no slash and two notes of the vault share its stem |
| TargetNames.MarkdownTargetIsReadIff | internal/vault/linkrewrite.go:72-92 | when a rewritten Markdown path is read as the new target: it was written with an escape, or the target needs none |
| LinkRewrite.RewriteKeepsLinks | internal/vault/linkrewrite.go:202-275 | on a line whose Markdown links do not point at the note, re-scanning finds the same links in order with bang, anchor and alias kept and only redirected targets changed |
| LinkRewrite.RewriteKeepsLinksIff | internal/vault/linkrewrite.go:202-275 | on such a line re-scanning finds the redirected links if and only if every redirected link gets a valid target |
| LinkRewrite.HashNameIsNoTarget | internal/vault/linkrewrite.go:52-67 | a hash in the new name's stem breaks that for every redirected link |
| MarkdownRewrite.RewriteKeepsMarkdownIff | internal/vault/linkrewrite.go:237-275 | on a line whose wikilinks do not point at the note, re-scanning finds the same Markdown links with only redirected paths changed, if and only if the new paths are paths of the grammar |
| MarkdownRewrite.GoodTarget | internal/vault/linkrewrite.go:52-67 | a new path to a named .md file without `)` and hash gives such paths |
| MarkdownRewrite.RewriteKeepsMarkdown | internal/vault/linkrewrite.go:237-275 | so such a move keeps the Markdown links, given escapes that keep the grammar |
| LinkExamples.LongerNameGarbles | internal/vault/linkrewrite.go:268-274 | a Markdown link in front of a wikilink and a longer name: the line is garbled |
| LinkExamples.ShorterNameStops | internal/vault/linkrewrite.go:268-274 | one move on which it happens: with a shorter name the saved offset lies outside the line |
| LinkExamples.NestedLinkGarbles | internal/vault/linkrewrite.go:268-274 | a wikilink in the fragment of a Markdown link: the spans overlap and the line is garbled |
| NoteRewrite.RewriteNote | internal/vault/linkrewrite.go:134-168 | every line rewritten on its own, links reported under their line numbers, a write due exactly when some line changed, and no result exactly when some line stops the program |
| NoteRewrite.NoteKeepsLinks | internal/vault/linkrewrite.go:134-168 | the rewritten note, split again, has the same lines with the same links, only redirected targets changed |
| LinkReports.MatchesAreLinks | internal/vault/linkrewrite.go:209-260 | every entry of the match list quotes the text at its span, a link of the line that names the moved note, with the text to replace it or none when ambiguous |
| LinkReports.ReportIsMatches | internal/vault/linkrewrite.go:147-156 | the report holds the matches of every line and nothing else, under line numbers counted from one |
| LinkReports.ReportAscends | internal/vault/linkrewrite.go:147-156 | its line numbers ascend |
| LinkReports.ReportedLinksStand | internal/vault/linkrewrite.go:147-156 | a reported link stands on the reported line word for word, and has a new text exactly when it is not ambiguous |
| Glob.GlobToRegex | internal/search/regex.go:63-97 | the byte loop writes exactly the translation of the glob |
| Glob.EmittedTextParses | internal/search/regex.go:63-97 | for every glob the emitted text parses, into one item per piece of the glob |
| Glob.CompiledGlobAccepts | internal/search/regex.go:55-97 | the compiled expression finds a match in a newline-free path exactly when the glob matches it in its own meaning |
| PathScope.MatchersAgreeIff | internal/search/bm25.go:86-147 | the two matchers agree except exactly where filepath.Match rejects the pattern and the regular expression accepts the path, which on a newline-free path means that the glob matches it |
| PathScope.MatchersDecide | internal/search/bm25.go:86-147 | what each matcher accepts of newline-free paths: everything without a scope, what filepath.Match accepts, and what the glob means |
| PathScope.MatchersDifferOnOpenBracket | internal/search/bm25.go:86-147 | the scope `[` and the path `[` are such a case |
| PathScope.PlainIsGlob | internal/search/bm25.go:92-107 | what filepath.Match accepts for a scope without `[` and backslash the glob's meaning accepts too |
| PathScope.PlainScopesDecideAlike | internal/search/bm25.go:86-147 | for such scopes both matchers, the bare expression and the glob's meaning decide alike on every newline-free path |
| Frontmatter.SplitNote | internal/vault/frontmatter.go:24-57 | the index loop computes the split at the first line that is the delimiter |
| Frontmatter.SplitOfAssembled | internal/vault/frontmatter.go:24-57 | splitting an assembled note gives raw and body back, for every raw that is empty or newline-terminated without a delimiter line |
| Frontmatter.AssembledOfSplit | internal/vault/frontmatter.go:24-57 | every successful split yields such a raw and reassembles to the content, up to a newline missing behind the closing delimiter |
| Frontmatter.HasFrontmatterIff | internal/vault/frontmatter.go:13-20 | a note has frontmatter exactly when it is such an assembly |
| Frontmatter.InlineTagKeepsFrontmatter | internal/vault/tags.go:225-239 | an inline AddTag keeps the raw frontmatter and only appends to the body |
| AddedTag.FrontmatterByLines | internal/vault/frontmatter.go:24-57 | a note has frontmatter exactly when its first line is the delimiter and a later line is one too |
| AddedTag.BodyWithTagIsRead | internal/vault/tags.go:225-230 | the body with an inline tag has the old lines, the tag on a line of its own, and a final newline |
| AddedTag.InlineTagChangesBody | internal/vault/tags.go:225-239 | an inline AddTag changes the body alone: no note gains or loses frontmatter |
| AddedTag.AddedTagIsFencedIff | internal/vault/tags.go:225-239 | the new line is fenced exactly when a block was left open, and no earlier line changes its status |
| AddedTag.AddThenRemoveIff | internal/vault/tags.go:391-429 | removing the added tag gives the lines back, and one empty line, exactly when no block was left open; else the tag stays |
| AddedTag.InlineTagRoundTripIff | internal/vault/tags.go:163-440 | the same for the two calls on a note, with its frontmatter |
| AddedTag.AbsentTagIsNoOpIff | internal/vault/tags.go:312-440 | removing a tag the body does not have leaves the note as it is exactly when it has no frontmatter, or one that YAML gives back unchanged; one without a mapping is dropped |
| Headings.HeadingTestIsOutlineText | internal/vault/mutators.go:109-120 | the patch's heading test accepts exactly the outline's text of a heading line |
| Headings.GetNoteOutline | internal/vault/outline.go:38-51 | the loop yields level, text and 1-based line of every heading in order |
| Headings.OutlineConcat | internal/vault/outline.go:38-51 | the outline of two texts in a row is the two outlines in a row |
| Headings.OutlineShift | internal/vault/outline.go:38-51 | moving text down shifts the line numbers and nothing else |
| PatchLaws.OutlineTells | internal/vault/outline.go:38-51 | the outline has an entry for each heading line and no other, with its level, text and number, in order |
| Patch.PatchNote | internal/vault/mutators.go:54-97 | the index loops and slices compute the patched text, or the error of the first failing test |
| Patch.PatchedLinesAreRead | internal/vault/mutators.go:54-97 | the written text splits into exactly the patched lines |
| Patch.OutlineOfPatched | internal/vault/mutators.go:54-97 | the new outline is the old one with the outline of the inserted lines spliced in and later line numbers shifted |
| Patch.AnchorIsFirstEntry | internal/vault/mutators.go:56-68 | the anchor is the first outline entry with that text, and there is none exactly when the patch fails |
| Patch.ReplaceKeepsOutside | internal/vault/mutators.go:86-92 | replace_body leaves the lines up to the heading and from the section's end as they are |
| Patch.SecondReplaceSupersedes | internal/vault/mutators.go:86-92 | a second replace_body gives what it alone would give exactly when the first content has no heading ending the section |
| Patch.AfterTwice | internal/vault/mutators.go:84-85 | where the second of two after patches lands, for every first content |
| Patch.AfterTwiceInOrder | internal/vault/mutators.go:84-85 | without a heading that ends the section the two contents follow each other in order |
| PatchLaws.LevelIs | internal/vault/mutators.go:113-120 | a heading of level n is n hashes with nothing or a space behind them |
| PatchLaws.TrimSpaceIs | internal/vault/mutators.go:109-111 | trimming finds the text without white space at its ends between white space |
| PatchLaws.HeadingLineIs | internal/vault/mutators.go:109-111 | which lines are headings with a given text |
| PatchLaws.SectionExists | internal/vault/mutators.go:56-78 | every heading text that occurs has one anchor line, level and end of section, told by the text of the lines |
| PatchLaws.PatchedSection | internal/vault/mutators.go:80-97 | content goes directly in front of the heading, directly behind the section, or in place of its body; any other position is refused |
| PatchLaws.BeforeKeepsHeading | internal/vault/mutators.go:82-83 | after a "before" patch the heading line stands directly behind the content, and no other line moved against it |
| PatchLaws.HeadingIsMissingIff | internal/vault/mutators.go:66-68 | a patch fails for its heading exactly when no line is a heading with that text |
| PatchLaws.ContentIsKept | internal/vault/mutators.go:122-134 | the inserted lines, each with its newline, are the content with one newline at its end |
| PatchLaws.PatchedText | internal/vault/mutators.go:54-97 | the written text is the text in front of the place, the content, and the text behind it |
| Replace.ReplaceInNote | internal/vault/replace.go:60-96 | the builder loop computes the capped replacement with both counts, or refuses a result that is too large |
| Replace.FindAllIsLeftmost | internal/vault/replace.go:60-60 | every occurrence is listed or overlaps a listed one that begins before it |
| Replace.GapsAreVerbatim | internal/vault/replace.go:71-83 | old and new text are the same gaps, interleaved with pattern and with replacement |
| Replace.ReplacesFirstOccurrences | internal/vault/replace.go:60-96 | the first min(found, cap) occurrences are replaced, the found count ignores the cap, and the length changes by replaced times the difference |
| Replace.RefusedIffTooLong | internal/vault/replace.go:86-88 | refused exactly when something is found and the result would exceed 16 MiB |
| Paths.KeptTracksWalk | internal/vault/vault.go:83-83 | cleaning leaves leading `..` exactly when the walk over the raw elements climbs above its start, and ends at the walk's depth |
| Paths.TraversalIffClimbs | internal/vault/vault.go:85-91 | the one-line test on the cleaned path equals the whole-walk condition on the raw one |
| Paths.JoinedIsUnderRoot | internal/vault/vault.go:97-101 | after that test the joined path is root plus cleaned path, so isUnderRoot holds, for a clean root with a name |
| Paths.SlashRootRefuses | internal/vault/vault.go:68-108 | with root `/` a call is accepted exactly for paths that clean to the root itself and are not ignored |
| Paths.CleaningRevealsNothingIgnored | internal/vault/vault.go:103-105 | a path not ignored raw is ignored cleaned exactly when its elements cancel to `.` and `.` is an ignored name |
| Paths.DotIsRevealed | internal/vault/vault.go:103-105 | `a/..` is such a path, for the pattern `.` |
| Paths.AcceptedIff | internal/vault/vault.go:78-108 | the exact condition on the raw path under which a call is accepted |
| PathLaws.CleanLeadsThere | internal/vault/vault.go:83-83 | from every place the cleaned path leads where the raw one leads |
| PathLaws.CleanedAlikeIff | internal/vault/vault.go:83-83 | two relative paths are cleaned to one text exactly when they lead to one place from everywhere |
| PathLaws.CleanTwice | internal/vault/vault.go:83-83 | cleaning is idempotent |
| PathLaws.IgnoredIff | internal/vault/pathfilter.go:45-66 | a path is ignored exactly when an ignored name stands between its slashes |
| PathLaws.InternalIff | internal/vault/pathfilter.go:26-30 | the internal paths are the directory `.obsidian-mcp` and what begins with it and a slash |
| PathLaws.DeviceIff | internal/vault/vault.go:144-150 | an element is refused as a device name in any case and with any extension |
| PathLaws.WindowsSafeIff | internal/vault/vault.go:126-156 | which paths Windows would misread, told on their elements |
| PathLaws.SanitizedIs | internal/vault/vault.go:78-108 | under a named root every path is answered with its cleaned and joined form, with a traversal or with a restriction, told on the raw path and its cleaned form |
| Ranking.BuildTerms | internal/search/bm25.go:157-186 | the terms are the distinct tokens in order and, from two tokens on, one phrase key |
| Ranking.TermsAreDistinct | internal/search/bm25.go:161-183 | no term is scored twice, and the tokens stand in order of first occurrence |
| Ranking.CountTerm | internal/search/bm25.go:279-304 | the loops count a token's occurrences or a phrase key's adjacent pairs |
| Ranking.PhraseCountBounded | internal/search/bm25.go:290-304 | a phrase counts at most as often as either of its words |
| Ranking.TfNormGrows | internal/search/bm25.go:416-416 | the term-frequency factor strictly grows, is positive and stays below 2.2; the divisor is positive |
| Ranking.IdfIsPositive | internal/search/bm25.go:415-415 | the idf is positive for every document frequency up to the document count |
| Ranking.AverageIsPositive | internal/search/bm25.go:394-416 | where a term occurs the average length is positive, so scoring never divides by zero |
| Ranking.ScoreBounds | internal/search/bm25.go:406-418 | a score is below 2.2 times the summed idf, and positive exactly when some term occurs |
| Ranking.PositiveIffSingleTermOccurs | internal/search/bm25.go:406-418 | a query's score is positive exactly when one of its single tokens occurs; the phrase key adds no document |
| RankingLaws.TermFreqMeans | internal/search/bm25.go:279-304 | a word counts its places, the phrase key the places where the query's first two words follow each other in order |
| RankingLaws.DocFreqIsDocuments | internal/search/bm25.go:376-384 | the document frequency is the number of documents the term occurs in |
| RankingLaws.RarerWeighsMore | internal/search/bm25.go:415-415 | the idf strictly falls with the document frequency, for an increasing logarithm |
| RankingLaws.RarerOutranks | internal/search/bm25.go:406-418 | of two documents of one length, each with one term equally often, the one with the rarer term outranks the other |
| RankingLaws.LongerGetsLess | internal/search/bm25.go:416-416 | at one frequency the factor strictly falls with the document's length |
| RankingLaws.AverageDocumentCountsOne | internal/search/bm25.go:416-416 | one occurrence counts 1 at average length and 2.2/3.1 at twice that |
| RankingLaws.OneOccurrenceAddsIdf | internal/search/bm25.go:394-418 | among documents of one length a single occurrence adds exactly the idf |
| RankingLaws.PhraseOutranks | internal/search/bm25.go:290-304 | with equal word counts and length, more places where the first two words follow each other give a higher score |
| RankingLaws.TitleOutranks | internal/search/bm25.go:441-445 | a title hit lifts a document above exactly those that score less than half as much again |
| TopResults.CollectDocs | internal/search/bm25.go:359-373 | the walk keeps the first 10000 documents in scope |
| TopResults.CollectStats | internal/search/bm25.go:351-386 | the first pass computes total length and the document frequency of every term |
| TopResults.ScoreDoc | internal/search/bm25.go:406-418 | the scoring loop computes a document's score from the first pass's statistics |
| TopResults.SearchBM25 | internal/search/bm25.go:324-472 | the two passes over the considered documents return the cap's prefix of the hits in ranking order |
| TopResults.HitsAreMatchingDocs | internal/search/bm25.go:399-458 | a path is a hit exactly when its document contains some query token |
| TopResults.NoOmittedHitOutranks | internal/search/bm25.go:460-469 | the list is ordered by score descending then path, is the hits without what was cut, and nothing cut outranks anything returned |
| RankingLaws.PathLessMeans | internal/search/bm25.go:460-465 | paths are compared lexicographically |
| RankingLaws.HitsAreDocuments | internal/search/bm25.go:399-458 | the hits are the documents with a score, each with its own, boosted if its title matches |
| RankingLaws.ListedByScore | internal/search/bm25.go:333-472 | scores never ascend along the list, paths ascend where they are equal, and its length is the least of hits, limit or 20, and maximum |
| RankingLaws.BetterIsListedFirst | internal/search/bm25.go:460-469 | in front of a listed document stands every document with a higher listed score |
| RankingLaws.ConsideredMeans | internal/search/bm25.go:359-373 | ranked are the first 10000 documents of the walk that are in scope |
| Snippets.CollectBM25Matches | internal/search/bm25.go:495-529 | the loop collects up to the cap the first term of each matching stripped line |
| Snippets.FirstTermIsFirst | internal/search/bm25.go:510-522 | the reported term is the first single one of the query that the line contains |
| Snippets.SnippetsPointAtOriginal | internal/search/bm25.go:495-529 | every reported line number is that of an unfenced original line whose stripped text contains the term; numbers ascend |
| Snippets.UnreportedLinesDoNotMatch | internal/search/bm25.go:495-529 | below the cap an unreported line contains no term |
| Sessions.SessionStore.constructor | internal/httptransport/session.go:53-55 | an empty table with the time limit |
| Sessions.SessionStore.Sweep | internal/httptransport/session.go:59-67 | the loop removes exactly the expired sessions |
| Sessions.SessionStore.Generate | internal/httptransport/session.go:78-94 | adds the session bound to the credential, to end after the limit |
| Sessions.SessionStore.Validate | internal/httptransport/session.go:96-112 | answer and new table for unknown, foreign, expired and live sessions |
| Sessions.SessionStore.Terminate | internal/httptransport/session.go:114-127 | removes only an own session |
| Sessions.ClaimEndMeans | internal/httptransport/session.go:78-127 | a claim is open exactly when a generation for that credential was not followed by its termination |
| Sessions.RunKeepsClaims | internal/httptransport/session.go:59-127 | over every proper history the table is the claims, less some that have expired |
| Sessions.AcceptedIffClaimed | internal/httptransport/session.go:96-112 | Validate accepts exactly ids generated for that credential, never terminated by it, within the limit |
| Sessions.SweepsChangeNoAcceptance | internal/httptransport/session.go:59-67 | inserting or removing sweeps anywhere changes no acceptance |
| Sessions.SweepChangesReasonIff | internal/httptransport/session.go:59-110 | a sweep changes an answer exactly when the id was there and had expired by then; expired and mismatch both become unknown |
| Sessions.SweepChangesReasonInRun | internal/httptransport/session.go:59-110 | the same for one more sweep at the end of any history |
| Sessions.SweepChangesReason | internal/httptransport/session.go:100-110 | both changes occur |
| SessionAnswers.RefusalsAreTrue | internal/httptransport/session.go:96-112 | over every proper history: accepted is a live claim, expired an own claim that ran out, mismatch another's claim, unknown no live claim of anyone |
| SessionAnswers.TerminationIsTrue | internal/httptransport/session.go:114-127 | a live claim can be ended by its credential, nothing is ended for one that never claimed the id, and refusals mean the same |
| SessionAnswers.TerminationEnds | internal/httptransport/session.go:114-127 | after a termination the id is unknown to everyone, after a refused one nothing has changed, and other ids are answered as before |
| SessionAnswers.ExpiryIsSaidOnce | internal/httptransport/session.go:107-110 | the answer after a refusal for expiry is unknown |
| Retention.CutoffIsWrapped | internal/vault/mutators.go:229-229 | the stepwise wrapped product is the wrapped exact product |
| Retention.CutoffIsExactIff | internal/vault/mutators.go:229-229 | the cutoff is the moment meant exactly for up to 106751 days either way |
| Retention.RetainsIff | internal/vault/mutators.go:211-229 | for settings from 0 on, no entry inside its retention lies before the cutoff exactly up to 106751 days |
| Retention.CutoffIsFutureIff | internal/vault/mutators.go:229-229 | for which settings the cutoff lies in the future |
| Store.Vault.constructor | internal/vault/vault.go:56-65 | opening a vault takes the disk as it is |
| Store.Vault.WriteNote | internal/vault/vault.go:361-423 | all tests in order, then the write by mode; the whole new disk and the answer |
| Store.Vault.EditNote | internal/vault/frontmatter.go:116-211 | read, size and condition test, edit, write, for the five note editors; the whole new disk and the answer |
| Store.Vault.Compute | internal/vault/tags.go:352-440 | the text each editor writes, or its error, from the text it read |
| Store.Vault.DeleteNote | internal/vault/mutators.go:142-197 | permanent and soft delete with their tests; the whole new disk and the answer |
| Store.Vault.MoveNote | internal/vault/mutators.go:271-363 | destination, condition and source tests in order, then the rename; a dry run answers as the unconditional move would and changes nothing |
| Store.Vault.PruneTrash | internal/vault/mutators.go:219-251 | removes exactly the listed directories before the cutoff and counts them |
| Writes.WriteLeaves | internal/vault/vault.go:387-420 | a successful write leaves the content, the old text and then the content, or the content and then the old text; a refused one changes nothing |
| Writes.WriteSucceedsIff | internal/vault/vault.go:374-420 | exactly when a write succeeds, and when it fails for its mode |
| Writes.AddedTextsStand | internal/vault/vault.go:396-420 | while only prepends and appends touch a note, it holds the prepended texts, last first, what it held, and the appended texts in lock order |
| Writes.DeleteLeaves | internal/vault/mutators.go:142-197 | a deleted note is gone, and lies in the trash under its stamp exactly after a soft delete |
| Writes.FrontmatterEditsKeepBody | internal/vault/frontmatter.go:111-211 | UpdateFrontmatter and AddTag, read again: the frontmatter is what their own YAML call made of the old one, the body is untouched |
| Writes.RemovalEditsBothHalves | internal/vault/tags.go:354-440 | RemoveTag, read again: the frontmatter without the tag, and the edited body |
| Writes.EditLeaves | internal/vault/frontmatter.go:116-211 | exactly when an edit succeeds; it replaces its own note by what the editor makes of the text read, and refused changes nothing |
| Writes.PatchLeaves | internal/vault/mutators.go:23-103 | a patched note read again has the content in front of the heading, behind its section or in place of its body, and all other lines |
| Writes.ReplaceLeaves | internal/vault/replace.go:28-97 | a note after a replacement has its old gaps, with the replacement for the first occurrences up to the cap |
| Requests.SpellingsAgreeIff | internal/vault/vault.go:78-108 | two accepted spellings are one path to every request exactly when they lead to one place |
| Requests.SpellingDoesNotMatter | internal/vault/vault.go:78-108 | every request does and answers the same through either |
| Requests.RequestsKeepOtherNotes | internal/vault/vault.go:356-423 | a request changes no note but those at the cleaned forms of its own paths |
| Requests.ProtectedNotesStand | internal/vault/pathfilter.go:15-66 | no run of requests creates, changes or removes a file of the server's own directory or one with an ignored name in its path |
| Requests.ConfirmationGuards | internal/vault/mutators.go:141-148 | a delete or move is refused for its confirmation exactly when that is not its path, and then changes nothing |
| Requests.DryRunForetells | internal/vault/mutators.go:264-304 | a dry run changes nothing and answers as the move without a condition would |
| Requests.WrittenNotesAreReadable | internal/vault/vault.go:341-423 | a written note is within the reading limit |
| Requests.TagPlaces | internal/vault/tags.go:152-173 | any place for a tag but frontmatter and inline is refused first, none at all means frontmatter |
| History.CallsKeepOtherNotes | internal/vault/vault.go:361-423 | a call changes no note but its own, and a refused call changes no note and no trash |
| History.ConditionIsTheDigest | internal/vault/etag.go:42-50 | a conditional call that succeeds found a note with its digest; on a note it can read it conflicts exactly when the digest differs |
| History.GuardedCallReplacesWhatWasSeen | internal/vault/etag.go:38-50 | along any run a successful conditional call replaces exactly the content whose etag it carries |
| History.GuardedCallNeverCreates | internal/vault/vault.go:370-383 | a conditional call on a missing note fails, with which error, and changes nothing |
| History.RestoredBetween | internal/vault/etag.go:42-50 | a content that is back was put back by a call on that note |
| History.SecondClientLoses | internal/vault/etag.go:42-50 | of two clients with one etag the second fails while the first's different content stands; if it succeeds, some call between restored the old content |
| History.AppendsAccumulate | internal/vault/vault.go:396-410 | while only appends touch a note, it holds what it held and then the texts of all successful appends in lock order |
| History.MoveBackRestores | internal/vault/mutators.go:324-363 | moving a note and moving it back restores the whole disk |
| CriticalSection.WorkStaysUnderway | internal/vault/mutators.go:324-363 | every single file operation of a call keeps it on the way to the outcome of the serial call |
| CriticalSection.NotesChangeLast | internal/vault/vault.go:387-420 | no note changes before the last file operation of a call |
| CriticalSection.WorkMakesProgress | internal/vault/mutators.go:239-251 | every operation brings the holder of the lock nearer to its answer |
| CriticalSection.SectionIsExec | internal/vault/vault.go:376-423 | the operations of a call, uninterrupted, do exactly what the serial call does |
| Interleaving.DoKeepsInv | internal/vault/vault.go:374-377 | every step of every client keeps the agreement with the serial log |
| Interleaving.NotesAreSerial | internal/vault/vault.go:374-420 | at any moment the notes on disk are those after a prefix of the serial log |
| Interleaving.EveryScheduleIsSerial | internal/vault/vault.go:361-423 | every schedule ends as its calls one at a time in lock order, with the same answers, lock-free reads seeing the notes between two calls |
| Interleaving.SerialOrderIsRealTime | internal/vault/vault.go:374-377 | the serial order respects real time between calls, from a call to a later read and from a read to a later call |
| Interleaving.OneHolder | internal/vault/mutators.go:321-330 | at most one call works at a time |
| Interleaving.TwoWinnersNeedARestore | internal/vault/etag.go:38-50 | in every schedule two successful calls with one etag have a restoring call between them |
| Interleaving.ChangesNeedSuccess | internal/vault/vault.go:374-420 | only a call on the note that was not refused changes it |
| Interleaving.RewriteIsAtomicIfUnchanged | internal/vault/renametag.go:44-61 | a lock-free read and the later put are one atomic edit when no call between changes the note |
| Interleaving.PutOverwritesChanges | internal/vault/renametag.go:68-84 | a put leaves its text whatever stood there, so every change since the read is overwritten; it is refused only for its size |
| Interleaving.LostUpdate | internal/vault/renametag.go:44-61 | otherwise another client's successful write can vanish without a trace |
| Conservation.MoveConserves | internal/vault/mutators.go:324-363 | a move keeps the multiset of live and trashed contents, for every outcome |
| Conservation.DeleteConservesIffPlaceFree | internal/vault/mutators.go:187-197 | a soft delete keeps it exactly when its place in the trash is free or it moves nothing |
| Conservation.PruneLosesExpired | internal/vault/mutators.go:234-251 | a prune loses exactly the contents of the expired entries |
| Conservation.NothingElseIsLost | internal/vault/mutators.go:187-251 | over every run of moves, soft deletes with fresh stamps and prunes, the contents at the start are those at the end plus those pruned |
| Conservation.PruneRemovesExactlyOutdated | internal/vault/mutators.go:234-251 | an entry goes exactly when its directory was listed and its stamp lies before the cutoff |
| Conservation.TrashEntryLasts | internal/vault/mutators.go:234-251 | a trashed note stays unchanged through every run until such a prune; no other call reaches it |
| Conservation.DeletedNotesAreRetained | internal/vault/mutators.go:211-229 | with a retention of up to 106751 days it outlives every prune made before its retention has passed |
| Conservation.LongRetentionRemovesEverything | internal/vault/mutators.go:229-249 | above that, up to 213503 days, the cutoff lies in the future and every listed entry is removed |
| Conservation.LongRetentionLosesRetained | internal/vault/mutators.go:229-249 | above 106751 days, however many, a prune removes a listed entry that is still inside its retention |

## Left out

- Tool handlers, prompts, resources, JSON output, HTTP server, TLS, tokens and configuration: plumbing around these cores.
- The YAML library, and with it key order and tag lists inside frontmatter: parameters of Store; renaming a tag inside frontmatter is not modelled.
- RE2 as a whole and the regular-expression mode of ReplaceInNote: only the fixed patterns and the emitted glob fragment are modelled.
- Symlinks, directories, permissions, partial writes and other processes: the disk is a flat map with atomic files, and a path is a note or nothing.
- SHA-256: a digest function, assumed collision-free where a lemma says so.
- Unicode tables and UTF-8: the letters are a finite set, a character is one unit; globs and paths with non-ASCII bytes are not modelled.
- Floating-point rounding and the logarithm: reals, and a function that is positive above 1 and, where documents are compared, increasing.
- Tokenize, frontmatter flattening, title stem, token counts and the reason field of search: tokens and the title hit are inputs.
- The walk over all notes and which of them a vault-wide rewrite visits: a rewrite takes the index as a parameter, so nothing is said about a dry run and a real move agreeing.
- applyWriteOpts, ReadNote and ReadNoteLines: one-step members, the last option's etag is the condition a call carries.
- Calendar notes, vault statistics, directory listing and the resource cache.
- Windows separators and URL escaping: paths use `/`, the two escapes are parameters.
- TopResults.SearchBM25: reason, match list and token count of a result are left out, and unreadable notes and cancellation do not occur.
- Store.Vault.MoveNote: the link updates that follow the move are not part of it; NoteRewrite models them note by note.
- Store.Vault.Compute: what YAML does to a tag list or a key is a parameter, which may fail.
- Interleaving.EveryScheduleIsSerial: a lock-free read is one atomic look at a note, and RenameTag and RewriteLinksOnMove take part only with their final locked write.
- LinkRewrite.RewriteKeepsLinks: is about lines with rewritten wikilinks only, as MarkdownRewrite.RewriteKeepsMarkdown is about lines with rewritten Markdown links only; no re-scan of lines with both is stated, where links of the two kinds can overlap.
- A global bound on note sizes: PatchNote and UpdateFrontmatter do not re-check the assembled size, in the code as in the model.
- Cancellation of a call by its context.
