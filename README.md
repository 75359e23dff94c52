# tgit changelog engine — a Dafny model

`tgit` (`gitt`) writes a Markdown changelog for a git repository. First it
lists the tags that look like semantic versions and maps commits to tags and
tags to commits. Then it resolves the range `from..to` into a list of
boundary commits and reads the remote's host, owner and repository name. When
the remote is on GitHub, it walks the GitHub commit listing page by page. It
cuts that listing into changelog units, one per pair of consecutive
boundaries, and buckets each Conventional-Commit-style subject line by type,
scope and breaking mark. It collects authors and `Co-authored-by` trailers
into contributors. Finally it names each unit by its tags, or by a bumped
version when neither end is tagged, and renders one Markdown text per unit.

The model follows `src/main.rs` function by function:

| module | models |
|---|---|
| `Text` | `str::lines`, `chars().take(n)`, `split`/`join`, integer `Display` |
| `Entities` | `Author`, `Commit`, `ChangelogUnit` and its `commit_map` |
| `SemVer` | the tag pattern of `list_tags`, as a parser with a renderer as its inverse |
| `Tags` | `list_tags`, `get_commit_tag_map` |
| `Range` | `get_from_commit`, `get_range` |
| `Remote` | `parse_git_url` |
| `Subject` | `parse_first_line`: the subject pattern as leftmost-first matching |
| `SubjectFacts` | what the subject parser accepts, and its round trip |
| `Trailer` | `parse_author_from_line`, `parse_author_from_body` |
| `Contributors` | the contributor merge `gitt` runs before it stores a unit |
| `PageLoop`, `PageLoopFacts` | the segmentation loop over the GitHub listing, and what it guarantees |
| `Segments` | which records of the listing each unit holds |
| `Organize` | `organize_commit`, `get_commit` |
| `Naming` | `get_name` |
| `Render` | `get_changelog_string` |
| `Pipeline` | `gitt` after the repository checks |

Loops in the source are methods with loop invariants. Each one is proved
equal to a specification function, and the lemmas are stated about those
functions. `tags.reverse()` is an in-place reversal of an `array`. Maps that
are only inserted into and looked up are `map`s. `commit_map` and
`contributors` are rendered in iteration order, so they are sequences in
insertion order (see Left out). Panics (`unwrap` on `None`, an index out of
range) are preconditions, `None` results or the `Panicked` outcome. The
repository, the `gh` listing, the username service and the remote URL are
parameters. Tag resolution is one map, `resolve`, from tag name to commit: a
tag whose reference is missing and a tag that does not point at a commit are
both absent from it, since `get_commit_tag_map` skips both and
`from_commit_get_tag` panics on both.

The model follows the code, including where it departs from what the tool
sets out to do:

- `get_range` returns the tagged commits of `from..to` followed by `from`. `to` is on the list only when it carries a tag, so the first unit ends at the newest tagged commit, not at `to`.
- `get_name` bumps from `0.0.0`, and only when neither boundary has a tag.
- Without `--from`, the default `from` is the first tagged commit walking back from HEAD. When `from..to` contains no tagged commit, the boundary list is then `from` alone, and `gitt` panics at `range[idx + 1]`.
- A remote off GitHub produces no changelog: the results of the local walk are discarded. `organize_commit` still walks `range[1]..range[0]`, though, and panics on a commit with an empty message, before any unit is skipped.
- The emoji group `:.+:` is greedy, so a gitmoji subject whose description holds `": "` loses its type: `:sparkles: feat: note: x` is classified as type `note`, with emoji `:sparkles: feat:`.
- On GitHub, an empty commit message panics only when the page loop reads that record. The loop breaks on the iteration after the last boundary's record, so the records after it, and the pages after its page, are never read and cannot panic.
- The remote is read with the SSH pattern as written, whose dot before `git` is unescaped (see Findings). The base URL and the GitHub test use that reading, so `git@github.com:owner/my-legit` gives links under `owner/my-l`.
- Without `--from`, `from_commit_get_tag` unwraps the reference and the commit of every listed tag it meets. A tag that does not resolve to a commit, met before a tag of the commit under test, panics.
- The GitHub listing starts at the record of `range[0]`, and a unit is pushed one record after its `to` record. The first unit, labelled `range[1]..range[0]`, therefore holds only the commit of `range[0]` itself. Unit `k ≥ 1`, labelled `range[k+1]..range[k]`, holds the records after that of `range[k-1]` up to and including that of `range[k]`: the history of the pair before it. The records after that of `range[len-2]` are never pushed.

## Model

| member | source | states |
|---|---|---|
| Text.Take | src/main.rs:412-423 | The short id is the first `min(n, len)` characters of the id. |
| Text.Lines | src/main.rs:892 | No line holds a line feed; there are no lines exactly when the text is empty. |
| Text.LinesOfLine | src/main.rs:831 | A nonempty text without a line feed is one line, unchanged, a trailing carriage return included. |
| Text.LinesOfJoin | src/main.rs:892 | A line, a line feed and a rest give that line (one carriage return before the line feed dropped), then the lines of the rest. |
| Text.NatToString | src/main.rs:444 | The decimal text of a version number is nonempty, all digits, and starts with `0` only for zero. |
| Text.JoinSplit | src/main.rs:468 | Joining the dot-split pieces of a text gives back the text. |
| Text.SplitJoin | src/main.rs:468 | Splitting the join of dot-free pieces gives back the pieces. |
| Entities.Lookup | src/main.rs:572-576 | A lookup finds a bucket exactly when the type has one. |
| Entities.InsertLookup | src/main.rs:323-330 | Inserting a commit appends it to its own type's bucket, creating the bucket if needed, and leaves every other type's bucket as it was. |
| Entities.InsertKinds | src/main.rs:323-326 | Inserting adds the commit's type to the types present and keeps one bucket per type. |
| SemVer.PrefixOf | src/main.rs:468 | The prefix group takes `ver`, `v` or nothing, and it is a prefix of the text. |
| SemVer.ParseTag | src/main.rs:467-468 | Every decomposition the tag pattern accepts is well formed: numeric identifiers without leading zeros, and nonempty identifiers of the allowed characters. |
| SemVer.ParseThenRender | src/main.rs:468-474 | An accepted tag name is exactly the rendering of what it parses to. |
| SemVer.RenderThenParse | src/main.rs:468-474 | Every well-formed tag name is accepted and parses back to itself. |
| SemVer.SeparatorsOutside | src/main.rs:468 | The separators `-`, `+` and `.` never occur inside the identifiers they delimit. |
| Tags.FilterMembers | src/main.rs:470-481 | The filter keeps exactly the elements that satisfy the predicate, and never lengthens its input. |
| Tags.SemVerNamesMembers | src/main.rs:470-481 | The kept names are exactly the input names that match the tag pattern. |
| Tags.ReverseInPlace | src/main.rs:482 | After the in-place reversal, the array is the reversal of its old contents. |
| Tags.ReversedAt | src/main.rs:482 | Position `i` of the reversal holds position `len - 1 - i` of the original. |
| Tags.ReversedTwice | src/main.rs:482 | Reversing twice restores the original order. |
| Tags.ListTags | src/main.rs:465-484 | `list_tags` returns the matching names in reverse listing order. |
| Tags.ListTagsSpec | src/main.rs:465-484 | The listed tags are exactly the tag names that match the pattern, and there are no more of them than names. |
| Tags.CommitTagMap | src/main.rs:499-516 | The loop builds exactly `CommitToTag` and `TagToCommit` of the listed tags. |
| Tags.TagToCommitSpec | src/main.rs:505-514 | `t2c` holds exactly the listed tags that resolve to a commit, each mapped to that commit. |
| Tags.LastTagFor | src/main.rs:505-512 | Finds the last listed tag that resolves to a commit, or reports that none does. |
| Tags.CommitToTagLastWins | src/main.rs:512 | A commit is in `c2t` exactly when some listed tag resolves to it, and it maps to the last such tag. |
| Tags.CommitTagConsistent | src/main.rs:512-513 | The tag `c2t` records for a commit maps back to that commit in `t2c`. |
| Range.FirstTagged | src/main.rs:788-798 | Finds the first tagged commit of the walk from HEAD: every earlier one is untagged. `None` means none is tagged. |
| Range.TagOfCommit | src/main.rs:450-463 | A found tag is a listed tag that resolves to the commit. A panic means some listed tag does not resolve. |
| Range.TagOfCommitSpec | src/main.rs:450-463 | The scan finds nothing exactly when every listed tag resolves to another commit. It panics exactly when a tag that does not resolve comes before every tag of the commit. |
| Range.FromCommitGetTag | src/main.rs:450-463 | The loop computes `TagOfCommit`. |
| Range.DefaultFromOf | src/main.rs:785-808 | The default search panics only when some listed tag does not resolve. |
| Range.DefaultFromResolved | src/main.rs:785-808 | When every listed tag resolves, the default `from` is the first commit of the walk from HEAD that `c2t` holds, else HEAD. |
| Range.DefaultFromPanics | src/main.rs:450-463 | A tag that does not resolve, met before any tag of the newest commit, makes the default search panic. |
| Range.FromCommit | src/main.rs:779-828 | The function returns `FromOf`. Without `from` it is the default search, which may panic. With `from` it is the commit of the first matching tag, else the revision `from` names. A missing reference is `None`. |
| Range.DefaultFromSpec | src/main.rs:785-808 | The default `from` is HEAD exactly when nothing on the walk is tagged, and otherwise the first tagged commit. |
| Range.GetRange | src/main.rs:750-777 | The loop returns `RangeOf`: the error when `from` equals `to`, else the tagged walk commits followed by `from`. |
| Range.TaggedInSpec | src/main.rs:768-774 | The kept commits are exactly the tagged commits of the walk, in walk order. |
| Range.TaggedInNone | src/main.rs:768-774 | A walk without tagged commits keeps nothing. |
| Range.GetRangeSpec | src/main.rs:750-777 | The range fails exactly when `from` equals `to`, with the source's message. Otherwise it ends with `from` and lists every tagged walk commit, and nothing else, in order. |
| Range.DefaultRangeIsSingle | src/main.rs:760-776 | With the default `from` and no tagged commit between `from` and `to`, the boundary list is `from` alone. |
| Remote.HostAndScopeOf | src/main.rs:519-520 | The host and owner groups split a joined URL tail back into host, owner and rest. |
| Remote.HostAndScopeRejoins | src/main.rs:519-520 | What the groups return joins back into their input, and it obeys the groups' character classes. |
| Remote.SshRoundTrip | src/main.rs:519-525 | Every `git@host:owner/name.git` URL of well-formed parts parses back into those parts. |
| Remote.SshSound | src/main.rs:519-525 | Whatever the SSH pattern with its dot escaped accepts is such a URL of well-formed parts. |
| Remote.SshAsWrittenSound | src/main.rs:519-525 | Whatever the SSH pattern as written accepts is a URL of well-formed parts with some character other than a line feed where `.git` has its dot. |
| Remote.SchemeRest | src/main.rs:520-530 | After `http://` or `https://`, the SSH pattern fails and the HTTP pattern reads the rest with its groups. |
| Remote.HttpScheme | src/main.rs:520 | An accepted HTTP URL is a scheme followed by the part the groups read. |
| Remote.HttpRoundTrip | src/main.rs:520-530 | Every `http(s)://host/owner/path` URL of well-formed parts parses back into those parts. |
| Remote.HttpSound | src/main.rs:520-530 | Whatever the HTTP pattern accepts is such a URL of well-formed parts. |
| Remote.SshAsWrittenAnyDot | src/main.rs:519 | The pattern as written accepts any character but a line feed where `.git` wants its dot. |
| Remote.SshAsWrittenTruncates | src/main.rs:519 | A name ending in `git` without a dot parses as written with its last four characters cut off, where the intended pattern rejects it. |
| Subject.SkipSpaces | src/main.rs:864 | `( *)?` consumes the whole run of spaces. |
| Subject.SkipLower | src/main.rs:864 | `[a-z]+` consumes the whole run of lowercase letters. |
| Subject.TailAt | src/main.rs:864 | The optional `!` is taken when present, and `: ` followed by a character comes next. |
| Subject.ScopeFrom | src/main.rs:864 | The greedy scope group ends at a `)` that the rest of the pattern can follow. |
| Subject.MatchFrom | src/main.rs:864-865 | The search returns the first start at which the pattern matches; no earlier start matches. |
| Subject.MatchFromProperties | src/main.rs:864-865 | The first match is a valid decomposition, and none starts earlier. |
| Subject.Match | src/main.rs:864-869 | There is no match exactly when no decomposition fits. A match fits the pattern and starts leftmost. Among the matches at that start, it has the longest emoji group and, for that group, the longest scope. |
| Subject.MatchAtGreedy | src/main.rs:864 | At a start position, the match taken has an emoji group no shorter than any match's there and, with the same emoji group, a scope no shorter. |
| Subject.ParseFirstLine | src/main.rs:861-889 | `None` exactly when the pattern matches nowhere; otherwise the fields of the leftmost match. |
| SubjectFacts.NoColonSpaceNoMatch | src/main.rs:864-868 | A line without `": "` followed by a character is rejected. |
| SubjectFacts.HeaderOfMatch | src/main.rs:864-887 | From the type on, the matched line is type, `(scope)`, `!`, `": "` and description. |
| SubjectFacts.BangBeforeColon | src/main.rs:883-887 | A commit is breaking exactly when `!` stands right before the colon. |
| SubjectFacts.FieldsShape | src/main.rs:870-887 | The type is nonempty lowercase, the scope is empty exactly when the group did not take part, the description is a nonempty suffix of the line, and the breaking mark is as stated above. |
| SubjectFacts.ParsedShape | src/main.rs:861-889 | The same facts hold for the fields `parse_first_line` returns. |
| SubjectFacts.HeaderNoNewline | src/main.rs:864 | A rendered subject of single-line fields holds no line feed. |
| SubjectFacts.RoundTrip | src/main.rs:861-889 | Rendering parsable fields as `type(scope)!: description` and parsing the result gives the fields back. |
| SubjectFacts.GreedyEmojiTakesType | src/main.rs:861-889 | `:sparkles: feat: note: x` parses with emoji `:sparkles: feat:` and type `note`: the greedy `:.+:` takes the real type. |
| Trailer.TrailerMatchAt | src/main.rs:902-904 | At a given start, takes the longest name and then the longest mail, or reports that the pattern cannot match there. |
| Trailer.TrailerMatch | src/main.rs:902-906 | `None` exactly when no trailer occurs in the line; otherwise the leftmost trailer, with the longest name, then the longest mail. |
| Trailer.ParseAuthorFromLineSpec | src/main.rs:901-917 | A line yields an author exactly when it holds a trailer. The author has a nonempty name and mail and no username, and the trailer rebuilt from them stands in the line. |
| Trailer.CoAuthorsOfSpec | src/main.rs:891-899 | One co-author per trailer line, each with a nonempty name and mail and no username. |
| Trailer.ParseAuthorFromBody | src/main.rs:891-899 | The loop keeps the given authors and appends one co-author per trailer line of the body, in order. |
| Trailer.CoAuthorsAppended | src/main.rs:891-899 | The appended authors follow the given ones, one per trailer line, each with a nonempty name and mail. |
| Contributors.MergeAuthorsAppend | src/main.rs:224-248 | Merging two lists of authors one after the other is merging their concatenation. |
| Contributors.MergeInto | src/main.rs:226-246 | The author loop computes `MergeAuthors`. |
| Contributors.MergeCommits | src/main.rs:225-247 | The commit loop merges the authors of all commits, in order. |
| Contributors.MergeContributors | src/main.rs:224-248 | The bucket loop yields the unit with all bucket authors merged into its contributors. |
| Contributors.MergeAuthorsSpec | src/main.rs:224-248 | The merge keeps every existing entry in place and adds every new mail. It never records a mail twice. |
| Contributors.MergeAuthorsNew | src/main.rs:227-245 | Each added entry has a previously unknown mail, the recorded login, and the name of an author with that mail. |
| Organize.OrganizeCommit | src/main.rs:673-720 | The loop computes `OrganizeOf` of the walk. |
| Organize.AbsorbContributors | src/main.rs:690-708 | A commit adds its author, with the looked-up handle, exactly when the author's mail is new. |
| Organize.AbsorbBuckets | src/main.rs:709-717 | A commit is bucketed, and can set the breaking flag, only when its author is new and its subject parses. |
| Organize.OrganizeMails | src/main.rs:681-718 | One contributor per author mail of the walk, no mail twice. |
| Organize.OrganizeContributors | src/main.rs:690-708 | Each contributor is named as in the first commit of its author, with its handle or the empty string. |
| Organize.OrganizeBuckets | src/main.rs:690-717 | A commit is bucketed under its type exactly when it is its author's first commit on the walk and its subject parses. |
| Organize.OrganizeBreaking | src/main.rs:714-716 | `has_breaking` holds exactly when some bucketed commit is breaking. |
| PageLoop.Init | src/main.rs:180-186 | The loop starts at the first pair of boundaries, and `idx` names a pair of the list. |
| PageLoop.Flush | src/main.rs:221-257 | The flush keeps `idx` naming a pair of the boundary list, so `range[idx + 1]` is in bounds. |
| PageLoop.Absorb | src/main.rs:271-330 | Absorbing a record keeps `idx` naming a pair. |
| PageLoop.Step | src/main.rs:219-331 | An iteration keeps `idx` naming a pair. It panics exactly when, `over` being unset, the record it reads has an empty message. |
| PageLoop.RunPage | src/main.rs:219-331 | A whole page keeps `idx` naming a pair. It panics only on a record of the page with an empty message. |
| PageLoop.RunPages | src/main.rs:198-338 | The page loop keeps `idx` naming a pair, stops at a panic, and panics only when some page holds an empty message. |
| PageLoop.FlushIfDue | src/main.rs:221-258 | The head of an iteration flushes exactly when `should_summary` is set. |
| PageLoop.AbsorbRecord | src/main.rs:265-330 | The body after the `over` check computes `Absorb`. |
| PageLoop.ProcessPage | src/main.rs:219-331 | The record loop computes `RunPage`, its panic on a record read with an empty message included. |
| PageLoop.SegmentListing | src/main.rs:193-338 | The page loop returns the units of `RunPages` from the initial state, or `None` exactly when that run panics. |
| PageLoopFacts.StepPushes | src/main.rs:221-309 | A unit is pushed exactly on the iteration after its `to` record, with its contributors merged. The iteration ends the loop exactly when `over` was already set or the record has an empty message. |
| PageLoopFacts.FlushAdvances | src/main.rs:249-257 | `idx` advances only below `range.len() - 2`, starting a fresh unit. Past that, the unit is not reset. |
| PageLoopFacts.AbsorbSpec | src/main.rs:271-330 | A record sets `should_summary` at the `to` commit and `over` at the last boundary. It records the committer's login, then the author's. It buckets the commit only when the subject parses. The boundaries, contributors and pushed units are untouched. |
| PageLoopFacts.AbsorbLogins | src/main.rs:282-298 | The author's login wins over the committer's for a shared mail; other mails keep their login. |
| PageLoopFacts.AbsorbUnit | src/main.rs:314-330 | Only the parsed commit's own bucket grows, by that commit, and the breaking mark follows it. |
| PageLoopFacts.ClassifySpec | src/main.rs:300-312 | A record yields a commit exactly when its first line parses. The commit carries the record's id and lists the author, with their login, ahead of one co-author per trailer line. |
| PageLoopFacts.MergedKeepsChain | src/main.rs:224-248 | The merge keeps the boundaries and the buckets, and one contributor per mail. |
| PageLoopFacts.ChainRunPages | src/main.rs:198-338 | Every pushed unit spans its pair of boundaries, and the state keeps this invariant. |
| PageLoopFacts.SegmentsChain | src/main.rs:180-338 | Unit `k` runs from boundary `min(k, len-2)+1` to boundary `min(k, len-2)`, with one bucket per type and one contributor per mail. |
| PageLoopFacts.UnitsKept | src/main.rs:249-250 | Pushed units are never altered or dropped. |
| PageLoopFacts.OverStops | src/main.rs:261-263 | Once `over` is set, the next record only completes a pending flush, and nothing further is read, so no later message can panic. |
| PageLoopFacts.LastBoundaryEndsReading | src/main.rs:261-309 | After the last boundary's record, the loop only completes a pending flush, whatever the messages of the records that follow, and does not panic. |
| PageLoopFacts.ShortPageStops | src/main.rs:332-334 | A page shorter than 100 records is the last one read. |
| PageLoopFacts.LastBoundaryProcessed | src/main.rs:275-330 | The record of the last boundary is still bucketed, and it sets `over`. |
| PageLoopFacts.PendingUnitLost | src/main.rs:219-273 | A unit whose `to` record is the last one read is never pushed. |
| Segments.FillCommits | src/main.rs:323-330 | Bucketing a stretch of records appends to each type's bucket exactly the classified commits of that type, in listing order. |
| Segments.RunPageAppend | src/main.rs:219-331 | Records other than the last boundary's never end the record loop, so two stretches of records run one after the other. |
| Segments.FlushFirst | src/main.rs:221-258 | A pending flush happens before the next record, whatever that record is. |
| Segments.BlockRun | src/main.rs:265-330 | A block fills the current unit with its classified commits and leaves its flush pending; nothing is pushed. |
| Segments.FlushFresh | src/main.rs:249-257 | A flush pushes the unit with its buckets and, while there is a next pair, starts an empty unit for it. |
| Segments.FirstBlockPushed | src/main.rs:219-331 | A fresh unit's block and one more record push that unit holding exactly the block's commits. |
| Segments.BlocksRun | src/main.rs:219-331 | Consecutive blocks and one more record push one unit per block, each holding exactly its block's commits. |
| Segments.RunPagesFlat | src/main.rs:198-338 | When the pages before the last are full and hold no record of the last boundary, the page loop runs their records as one listing. |
| Segments.ListingHoldsBlocks | src/main.rs:193-338 | Over the whole listing, unit `k` holds exactly the commits of block `k`. |
| Segments.SegmentContents | src/main.rs:193-338 | Unit `k` runs from boundary `k+1` to boundary `k` and holds exactly the classified commits of the records after that of boundary `k-1`, up to and including that of boundary `k`, in listing order. |
| Segments.FirstUnitOnlyItsTo | src/main.rs:203-263 | The listing starts at the record of boundary 0, so the first unit holds only that record's commit. |
| Naming.BumpSpec | src/main.rs:431-442 | A bump always yields a later version and resets the parts below the one it raises. |
| Naming.GetNameSpec | src/main.rs:401-448 | `from` is the tag or short id. `to` is too, unless both names are short ids: then it is `prefix` with 1.0.0 (breaking), 0.1.0 (has `feat`) or 0.0.1. |
| Naming.TaggedKeepsNames | src/main.rs:427-428 | A tag on either boundary keeps both names unchanged. |
| Naming.VersionNameIsTag | src/main.rs:444 | A version behind `v`, `ver` or no prefix is a name the tag pattern accepts, and it parses back to its numbers. |
| Naming.BumpedNameIsTag | src/main.rs:429-445 | The name given to an untagged unit is a semantic-version tag name. |
| Render.ByLine | src/main.rs:592-612 | The author loop builds the `by` clause. |
| Render.ByClauseForm | src/main.rs:592-612 | No authors give nothing and one gives `by A`. Two or more give `by A, B and C`, without a comma before `and`. |
| Render.HasIssueRefSpec | src/main.rs:619-620 | The scan finds `#` followed by a digit exactly when one occurs. |
| Render.HashPartSpec | src/main.rs:614-622 | The id is dropped exactly when the description references an issue. Without a base URL, the short id follows the description with no space. |
| Render.CommitEntry | src/main.rs:587-633 | The item is `- [**scope** ]description<id> - <by clause>`. |
| Render.KeptSpec | src/main.rs:580-590 | The breaking section shows exactly the breaking `feat` commits and Features the others. Every other section shows its whole bucket, in order. |
| Render.FeaturesSplit | src/main.rs:580-590 | Each `feat` commit appears in exactly one of the two feature sections. |
| Render.SectionPresence | src/main.rs:571-586 | A section appears exactly when its bucket has a commit it shows, and it opens with its heading. |
| Render.SectionsListedOnly | src/main.rs:543-546 | The text reads only the buckets of the thirteen listed types. |
| Render.SectionFor | src/main.rs:586-634 | The section loop emits the heading, then the item of every shown commit, in order. |
| Render.SectionOrNothing | src/main.rs:572-586 | The three skips leave out exactly the sections with nothing to show. |
| Render.AllSections | src/main.rs:571-635 | The type loop emits the sections in the fixed type order. |
| Render.AllContributors | src/main.rs:637-650 | One line per contributor: `(@handle)` when there is one, else `<mail>`. |
| Render.GetChangelogString | src/main.rs:536-652 | The whole text is the heading, the compare link, the sections and the contributors. |
| Render.ChangelogFrame | src/main.rs:563-570 | The text opens with the `to` heading, followed by the compare link exactly when there is a base URL, and closes with the contributors section. |
| Render.UnlistedTypeIgnored | src/main.rs:543-546 | A commit of an unlisted type leaves the text unchanged. |
| Pipeline.MapSeqSpec | src/main.rs:353-373 | The render loop's results have one element per unit, in order. |
| Pipeline.RenderUnits | src/main.rs:353-373 | The loop yields one text per unit, named by `get_name`. |
| Pipeline.Gitt | src/main.rs:167-377 | `gitt` returns the range error, and panics on a remote the pattern as written rejects, on a single boundary, on an empty message the page loop reads, or, off GitHub, on an empty message in the local walk. Otherwise it prints the texts of the units. |
| Pipeline.GittRun | src/main.rs:167-377 | A run from the tag names is `list_tags`, `get_commit_tag_map` and `get_range`, which panics when `from` or `to` does not resolve, followed by the rest of `gitt`. |
| Pipeline.NonGithubPrintsNothing | src/main.rs:190-351 | With no remote, or one whose host as read by the pattern as written is off GitHub, nothing is printed when every commit of the local walk has a message, and the run panics otherwise. |
| Pipeline.GithubTextPerUnit | src/main.rs:171-375 | On GitHub, as the pattern as written reads the remote, the run panics exactly when the page loop does. Otherwise there is one text per unit, each opening with its heading and a compare link under the `.../commit` base URL. |
| Pipeline.SingleBoundaryPanics | src/main.rs:180-182 | A boundary list with fewer than two commits panics. |

## Left out

- Opening the repository and the checks for an empty, unclean or untracked-file repository (`gitt`, lines 150-165). These are git2 I/O; the model starts from the tag list and the boundary list.
- The `gh api` call and the JSON decoding of the listing. The listing is a finite sequence of pages of records. An endless listing, and a page loop that never sees a short page, are not modelled.
- `fetch_github_username` is network I/O. It is a map from mail to handle; a missing mail stands for a failed lookup.
- `get_repo_contributors_set` and `get_most_similar_name` are never called. The second also uses floating-point Jaro similarity.
- `generate_or_update_changelog_file` is never called and is file I/O.
- `get_from`, `get_latest_tag`, `from_tag_get_commit` and `get_remote_url` are git2 lookups. `get_from` and `get_latest_tag` are never called. The other two are maps given as parameters (`resolve`, the remote URL).
- `Range.FromCommit`: `repo.tag_names(Some(from))` takes a glob pattern; the list of matching tags is a parameter.
- The `println!` calls are left out: the texts are returned instead of printed.
- `HashMap` iteration order is unspecified in the source. `commit_map` is a sequence of buckets and `contributors` a sequence of authors, both in insertion order, so the rendered order of contributors is this model's choice.
- `\d` in the patterns is Unicode in Rust's regex; the model reads it as ASCII digits.
- The subject pattern's emoji ranges: `(\u{1F300}-\u{1F3FF})` and `(\u{1F400}-\u{1F64F})` match three-character literals in the source. They are modelled as such; only the bracketed class `[\u{2600}-\u{2B55}]` is a range.
- `Organize.OrganizeCommit`: commit timestamps (lines 685-686) are computed but unused, and are not modelled.
- `Segments.SegmentContents`: unit contents are stated only when the pages before the last are full and hold no record of the last boundary. These are the pages the loop reads when the listing reaches `from`; a loop that stops early is covered by `PageLoopFacts.OverStops` and `PageLoopFacts.ShortPageStops` only.
- `PageLoop.Flush`, `PageLoop.Absorb`: their own contracts state only the index invariant. `PageLoop.Step`, `PageLoop.RunPage` and `PageLoop.RunPages` state it and when they panic. Their behaviour is stated in PageLoopFacts.

## Findings

| source | as written | input that shows it | evidently intended | confidence | as-written member | corrected member |
|---|---|---|---|---|---|---|
| src/main.rs:519 | `^git@([^:]+):([^/]+)/(.+).git$` leaves the dot before `git` unescaped, so any character may stand there | `git@github.com:owner/my-legit` gives repository `my-l` | `\.git$`: the name must end in `.git`, and that URL is not an SSH remote of this form | not executed | Remote.SshAsWrittenTruncates | Remote.SshRoundTrip |
