/** `get_changelog_string`: the Markdown text of one changelog unit. A heading
    with the `to` name, a compare link when the remote is known, one section
    per listed commit type that has something to show, and the contributors.
    The source iterates the contributor map in hash order; here the
    contributors come in the order of their sequence. */
module Render {
  import opened Text
  import opened Entities

  /** The types in section order: `feat` twice, for breaking changes and for
      the other features. */
  const Types: seq<string> :=
    ["feat", "feat", "fix", "docs", "style", "refactor", "perf", "test", "build", "ci", "chore",
     "revert", "other"]

  /** The section headings, one per entry of `Types`. */
  const Headings: seq<string> :=
    [":sparkles: Breaking Changes", ":sparkles: Features", ":bug: Bug Fixes",
     ":memo: Documentation", ":art: Styles", ":recycle: Code Refactoring",
     ":zap: Performance Improvements", ":rotating_light: Tests", ":hammer: Build",
     ":green_heart: Continuous Integration", ":wrench: Chores", ":rewind: Reverts",
     ":package: Others"]

  const SectionCount: nat := 13

  const ContributorsHeading: string := "\n### :busts_in_silhouette: Contributors\n\n"

  // ---------------------------------------------------------------------
  // The "by" clause

  /** What the author loop appends for author `k` of `n`: `by ` before the
      first; a lone author's name; otherwise `and ` before the last, a space
      after the second-last and a comma after the others. */
  function ByPiece(k: nat, n: nat, name: string): string {
    (if k == 0 then "by " else "")
    + if n == 1 then name
      else if k == n - 1 then "and " + name
      else if k + 2 == n then name + " "
      else name + ", "
  }

  /** The clause after the first `j` authors. */
  function ByPrefix(authors: seq<Author>, j: nat): string
    requires j <= |authors|
  {
    if j == 0 then "" else ByPrefix(authors, j - 1) + ByPiece(j - 1, |authors|, authors[j - 1].name)
  }

  function ByClause(authors: seq<Author>): string {
    ByPrefix(authors, |authors|)
  }

  /** The names joined with commas. */
  function CommaNames(authors: seq<Author>): string
    requires |authors| >= 1
  {
    if |authors| == 1 then authors[0].name
    else CommaNames(authors[..|authors| - 1]) + ", " + authors[|authors| - 1].name
  }

  /** The author loop. */
  method ByLine(authors: seq<Author>) returns (clause: string)
    ensures clause == ByClause(authors)
  {
    clause := "";
    var k := 0;
    while k < |authors|
      invariant k <= |authors|
      invariant clause == ByPrefix(authors, k)
    {
      var name := authors[k].name;
      if k == 0 {
        clause := clause + "by ";
      }
      if |authors| == 1 {
        clause := clause + name;
      } else if k == |authors| - 1 {
        clause := clause + ("and " + name);
      } else if k == |authors| - 2 {
        clause := clause + (name + " ");
      } else {
        clause := clause + (name + ", ");
      }
      k := k + 1;
    }
  }

  /** The prefixes of the clause before the last two authors: the names so
      far, each followed by a comma. */
  lemma {:induction false} ByPrefixCommas(authors: seq<Author>, j: nat)
    requires 1 <= j && j + 1 < |authors|
    ensures ByPrefix(authors, j) == "by " + CommaNames(authors[..j]) + ", "
  {
    if j > 1 {
      ByPrefixCommas(authors, j - 1);
      assert authors[..j][..j - 1] == authors[..j - 1];
    }
  }

  /** Two or more authors: the last two are joined by `and`. */
  lemma ByClauseOfMany(authors: seq<Author>)
    requires |authors| >= 2
    ensures ByClause(authors)
            == "by " + CommaNames(authors[..|authors| - 1]) + " and " + authors[|authors| - 1].name
  {
    var n := |authors|;
    ByBeforeLast(authors);
    assert ByClause(authors) == ByPrefix(authors, n - 1) + ("and " + authors[n - 1].name);
    AndJoin("by " + CommaNames(authors[..n - 1]), authors[n - 1].name);
  }

  /** Before the last author: every other name, comma-separated, and a
      space. */
  lemma ByBeforeLast(authors: seq<Author>)
    requires |authors| >= 2
    ensures ByPrefix(authors, |authors| - 1) == "by " + CommaNames(authors[..|authors| - 1]) + " "
  {
    var n := |authors|;
    var init := authors[..n - 1];
    var name := authors[n - 2].name;
    if n == 2 {
      assert ByPrefix(authors, 0) == "";
      assert ByPrefix(authors, 1) == "" + ("by " + (name + " "));
      assert CommaNames(init) == name;
    } else {
      ByPrefixCommas(authors, n - 2);
      ByPrefixStep(authors, n - 2);
      CommaNamesInit(authors);
      CommaJoin(CommaNames(authors[..n - 2]), name);
    }
  }

  /** The piece of the second-last of three or more authors. */
  lemma ByPrefixStep(authors: seq<Author>, k: nat)
    requires k + 2 == |authors| && k >= 1
    ensures ByPrefix(authors, k + 1) == ByPrefix(authors, k) + (authors[k].name + " ")
  {
  }

  lemma CommaNamesInit(authors: seq<Author>)
    requires |authors| >= 3
    ensures CommaNames(authors[..|authors| - 1])
         == CommaNames(authors[..|authors| - 2]) + ", " + authors[|authors| - 2].name
  {
    var n := |authors|;
    var init := authors[..n - 1];
    assert init[..n - 2] == authors[..n - 2];
  }

  lemma AndJoin(p: string, last: string)
    ensures p + " " + ("and " + last) == p + " and " + last
  {
  }

  lemma CommaJoin(before: string, name: string)
    ensures "by " + before + ", " + (name + " ") == "by " + (before + ", " + name) + " "
  {
  }

  /** The clause names no author with nothing, one author alone, and more
      authors as a comma list whose last two are joined by `and` without a
      comma: `by A`, `by A and B`, `by A, B and C`. */
  lemma ByClauseForm(authors: seq<Author>)
    ensures |authors| == 0 ==> ByClause(authors) == ""
    ensures |authors| == 1 ==> ByClause(authors) == "by " + authors[0].name
    ensures |authors| >= 2 ==>
              ByClause(authors)
              == "by " + CommaNames(authors[..|authors| - 1]) + " and " + authors[|authors| - 1].name
  {
    if |authors| == 1 {
      assert ByPrefix(authors, 0) == "";
    } else if |authors| >= 2 {
      ByClauseOfMany(authors);
    }
  }

  // ---------------------------------------------------------------------
  // The commit id and the issue reference

  /** The regular expression `#\d+` matches at `i`. */
  predicate IssueRefAt(s: string, i: nat) {
    i + 1 < |s| && s[i] == '#' && IsDigit(s[i + 1])
  }

  /** `#\d+` matches somewhere in `s`: a scan from the left. */
  function HasIssueRef(s: string): bool
    decreases |s|
  {
    |s| >= 2 && ((s[0] == '#' && IsDigit(s[1])) || HasIssueRef(s[1..]))
  }

  /** The scan finds a match exactly when there is one. */
  lemma {:induction false} HasIssueRefSpec(s: string)
    ensures HasIssueRef(s) <==> exists i: nat :: IssueRefAt(s, i)
    decreases |s|
  {
    if |s| >= 2 {
      HasIssueRefSpec(s[1..]);
      if s[0] == '#' && IsDigit(s[1]) {
        assert IssueRefAt(s, 0);
      }
      if HasIssueRef(s[1..]) {
        var i: nat :| IssueRefAt(s[1..], i);
        assert IssueRefAt(s, i + 1);
      }
      if exists i: nat :: IssueRefAt(s, i) {
        var i: nat :| IssueRefAt(s, i);
        if i > 0 {
          assert IssueRefAt(s[1..], i - 1);
        }
      }
    }
  }

  /** The text after the description: the short id, linked when there is a
      base URL, and nothing when the description references an issue. */
  function HashPart(baseurl: string, c: Commit): string {
    if HasIssueRef(c.description) then ""
    else if baseurl != "" then " ([" + Take(c.hash, 7) + "](" + baseurl + "/" + c.hash + "))"
    else Take(c.hash, 7)
  }

  /** The id is dropped exactly when the description holds `#` followed by a
      digit; without a base URL the short id follows the description with no
      space. */
  lemma HashPartSpec(baseurl: string, c: Commit)
    ensures (exists i: nat :: IssueRefAt(c.description, i)) ==> HashPart(baseurl, c) == ""
    ensures (forall i: nat :: !IssueRefAt(c.description, i)) ==>
              && (baseurl == "" ==> HashPart(baseurl, c) == Take(c.hash, 7))
              && (baseurl != "" ==> |HashPart(baseurl, c)| > 0 && HashPart(baseurl, c)[0] == ' ')
  {
    HasIssueRefSpec(c.description);
  }

  /** The list item of one commit. */
  function CommitLine(baseurl: string, c: Commit): string {
    if c.scope == "" then "- " + c.description + HashPart(baseurl, c) + " - " + ByClause(c.authors) + "\n"
    else "- **" + c.scope + "** " + c.description + HashPart(baseurl, c) + " - " + ByClause(c.authors) + "\n"
  }

  /** The body of the commit loop. */
  method CommitEntry(baseurl: string, c: Commit) returns (line: string)
    ensures line == CommitLine(baseurl, c)
  {
    var clause := ByLine(c.authors);
    var hash := Take(c.hash, 7);
    if baseurl != "" {
      hash := " ([" + hash + "](" + baseurl + "/" + c.hash + "))";
    }
    if HasIssueRef(c.description) {
      hash := "";
    }
    if c.scope == "" {
      line := "- " + c.description + hash + " - " + clause + "\n";
    } else {
      line := "- **" + c.scope + "** " + c.description + hash + " - " + clause + "\n";
    }
  }

  // ---------------------------------------------------------------------
  // Sections

  /** Section `i` shows a commit unless it is the breaking section and the
      commit is not breaking, or the feature section and the commit is. */
  predicate Shows(i: nat, c: Commit) {
    !((i == 0 && !c.isBreaking) || (i == 1 && c.isBreaking))
  }

  /** The commits section `i` shows, in bucket order. */
  function Kept(i: nat, cs: seq<Commit>): seq<Commit> {
    if cs == [] then []
    else Kept(i, cs[..|cs| - 1]) + if Shows(i, cs[|cs| - 1]) then [cs[|cs| - 1]] else []
  }

  /** The list items of `cs`, in order. */
  function CommitLines(baseurl: string, cs: seq<Commit>): string {
    if cs == [] then "" else CommitLines(baseurl, cs[..|cs| - 1]) + CommitLine(baseurl, cs[|cs| - 1])
  }

  function SectionHeading(i: nat): string
    requires i < SectionCount
  {
    "\n### " + Headings[i] + "\n\n"
  }

  /** Section `i`: nothing when its type has no bucket or the bucket shows
      nothing, else the heading and one item per shown commit. */
  function SectionText(baseurl: string, i: nat, m: seq<Bucket>): string
    requires i < SectionCount
  {
    match Lookup(m, Types[i])
    case None => ""
    case Some(cs) =>
      if Kept(i, cs) == [] then "" else SectionHeading(i) + CommitLines(baseurl, Kept(i, cs))
  }

  /** The first `n` sections. */
  function Sections(baseurl: string, m: seq<Bucket>, n: nat): string
    requires n <= SectionCount
  {
    if n == 0 then "" else Sections(baseurl, m, n - 1) + SectionText(baseurl, n - 1, m)
  }

  /** The number of commits whose breaking flag is `breaking`. */
  function CountWhere(cs: seq<Commit>, breaking: bool): nat {
    if cs == [] then 0
    else CountWhere(cs[..|cs| - 1], breaking) + if cs[|cs| - 1].isBreaking == breaking then 1 else 0
  }

  /** What section `i` keeps: every commit it shows, nothing else, in order;
      and it keeps nothing exactly when the source's emptiness tests skip it. */
  lemma {:induction false} KeptSpec(i: nat, cs: seq<Commit>)
    ensures forall c :: c in Kept(i, cs) <==> c in cs && Shows(i, c)
    ensures i == 0 ==> (Kept(i, cs) == [] <==> CountWhere(cs, true) == 0)
    ensures i == 1 ==> (Kept(i, cs) == [] <==> CountWhere(cs, false) == 0)
    ensures i >= 2 ==> Kept(i, cs) == cs
  {
    if cs != [] {
      var init := cs[..|cs| - 1];
      KeptSpec(i, init);
      assert cs == init + [cs[|cs| - 1]];
    }
  }

  /** Each `feat` commit appears in exactly one of the two feature sections. */
  lemma {:induction false} FeaturesSplit(cs: seq<Commit>)
    ensures |Kept(0, cs)| + |Kept(1, cs)| == |cs|
    ensures forall c :: c in cs ==> (c in Kept(0, cs) <==> c !in Kept(1, cs))
  {
    KeptSpec(0, cs);
    KeptSpec(1, cs);
    if cs != [] {
      FeaturesSplit(cs[..|cs| - 1]);
    }
  }

  /** A section appears exactly when its type's bucket holds a commit it
      shows, and then it starts with its heading. */
  lemma SectionPresence(baseurl: string, i: nat, m: seq<Bucket>)
    requires i < SectionCount
    ensures SectionText(baseurl, i, m) != ""
            <==> exists c :: c in CommitsOf(m, Types[i]) && Shows(i, c)
    ensures SectionText(baseurl, i, m) != "" ==>
              SectionText(baseurl, i, m)[..|SectionHeading(i)|] == SectionHeading(i)
  {
    KeptSpec(i, CommitsOf(m, Types[i]));
    if Lookup(m, Types[i]).Some? && Kept(i, CommitsOf(m, Types[i])) != [] {
      var k := Kept(i, CommitsOf(m, Types[i]));
      assert k[0] in k;
    }
  }

  /** The sections read only the buckets of the listed types: buckets of any
      other type never show. */
  lemma {:induction false} SectionsListedOnly(baseurl: string, m: seq<Bucket>, m': seq<Bucket>, n: nat)
    requires n <= SectionCount
    requires forall i | 0 <= i < SectionCount :: Lookup(m, Types[i]) == Lookup(m', Types[i])
    ensures Sections(baseurl, m, n) == Sections(baseurl, m', n)
  {
    if n > 0 {
      SectionsListedOnly(baseurl, m, m', n - 1);
    }
  }

  /** One more commit of a section's bucket adds its item when it shows. */
  lemma ItemsStep(baseurl: string, i: nat, commits: seq<Commit>, k: nat)
    requires k < |commits|
    ensures CommitLines(baseurl, Kept(i, commits[..k + 1]))
         == CommitLines(baseurl, Kept(i, commits[..k]))
            + if Shows(i, commits[k]) then CommitLine(baseurl, commits[k]) else ""
  {
    var before := Kept(i, commits[..k]);
    assert commits[..k + 1][..k] == commits[..k];
    if Shows(i, commits[k]) {
      assert Kept(i, commits[..k + 1]) == before + [commits[k]];
      assert (before + [commits[k]])[..|before|] == before;
    } else {
      assert Kept(i, commits[..k + 1]) == before;
      assert CommitLines(baseurl, before) + "" == CommitLines(baseurl, before);
    }
  }

  /** The loop over the commits of one section. */
  method SectionFor(baseurl: string, i: nat, commits: seq<Commit>) returns (text: string)
    requires i < SectionCount
    ensures text == SectionHeading(i) + CommitLines(baseurl, Kept(i, commits))
  {
    var items := "";
    var k := 0;
    while k < |commits|
      invariant k <= |commits|
      invariant items == CommitLines(baseurl, Kept(i, commits[..k]))
    {
      ItemsStep(baseurl, i, commits, k);
      var commit := commits[k];
      if !((i == 0 && !commit.isBreaking) || (i == 1 && commit.isBreaking)) {
        var line := CommitEntry(baseurl, commit);
        items := items + line;
      }
      k := k + 1;
    }
    assert commits[..k] == commits;
    text := SectionHeading(i) + items;
  }

  // ---------------------------------------------------------------------
  // Contributors and the whole text

  function ContributorLine(a: Author): string {
    if a.username == "" then "- " + a.name + " <" + a.mail + ">\n"
    else "- " + a.name + " (@" + a.username + ")\n"
  }

  function ContributorLines(cs: seq<Author>): string {
    if cs == [] then "" else ContributorLines(cs[..|cs| - 1]) + ContributorLine(cs[|cs| - 1])
  }

  function ContributorsSection(cs: seq<Author>): string {
    ContributorsHeading + ContributorLines(cs)
  }

  function Heading(toName: string): string { "## " + toName + "\n\n" }

  /** The compare link, present only with a base URL. */
  function CompareLink(baseurl: string, toName: string, fromName: string): string {
    if baseurl == "" then ""
    else "[compare changes](" + baseurl + "/compare/" + fromName + "..." + toName + ")\n"
  }

  /** The whole text. */
  function Changelog(
    baseurl: string, toName: string, fromName: string, m: seq<Bucket>, contributors: seq<Author>): string
  {
    Heading(toName) + CompareLink(baseurl, toName, fromName) + Sections(baseurl, m, SectionCount)
    + ContributorsSection(contributors)
  }

  /** One iteration of the loop over the types: the source's three skips
      leave out exactly the sections with nothing to show. */
  method SectionOrNothing(baseurl: string, i: nat, commitMap: seq<Bucket>) returns (text: string)
    requires i < SectionCount
    ensures text == SectionText(baseurl, i, commitMap)
  {
    text := "";
    var commits := Lookup(commitMap, Types[i]);
    if commits.Some? && commits.value != [] {
      KeptSpec(i, commits.value);
      var breaking := CountWhere(commits.value, true);
      var features := CountWhere(commits.value, false);
      if !(i == 0 && breaking == 0) && !(i == 1 && features == 0) {
        text := SectionFor(baseurl, i, commits.value);
      }
    }
  }

  /** The loop over the types. */
  method AllSections(baseurl: string, commitMap: seq<Bucket>) returns (text: string)
    ensures text == Sections(baseurl, commitMap, SectionCount)
  {
    text := "";
    var i := 0;
    while i < |Types|
      invariant i <= SectionCount
      invariant text == Sections(baseurl, commitMap, i)
    {
      var section := SectionOrNothing(baseurl, i, commitMap);
      text := text + section;
      i := i + 1;
    }
  }

  /** The loop over the contributors. */
  method AllContributors(contributors: seq<Author>) returns (text: string)
    ensures text == ContributorLines(contributors)
  {
    text := "";
    var k := 0;
    while k < |contributors|
      invariant k <= |contributors|
      invariant text == ContributorLines(contributors[..k])
    {
      assert contributors[..k + 1][..k] == contributors[..k];
      var contributor := contributors[k];
      if contributor.username == "" {
        text := text + ("- " + contributor.name + " <" + contributor.mail + ">\n");
      } else {
        text := text + ("- " + contributor.name + " (@" + contributor.username + ")\n");
      }
      k := k + 1;
    }
    assert contributors[..k] == contributors;
  }

  /** `get_changelog_string`. */
  method GetChangelogString(
    baseurl: string, toName: string, fromName: string, commitMap: seq<Bucket>, contributors: seq<Author>)
    returns (changelog: string)
    ensures changelog == Changelog(baseurl, toName, fromName, commitMap, contributors)
  {
    var heading := "## " + toName + "\n\n";
    var link := "";
    if baseurl != "" {
      link := "[compare changes](" + baseurl + "/compare/" + fromName + "..." + toName + ")\n";
    }
    var sections := AllSections(baseurl, commitMap);
    var lines := AllContributors(contributors);
    changelog := heading + link + sections + (ContributorsHeading + lines);
  }

  /** The text opens with the `to` heading, followed by the compare link
      exactly when there is a base URL, and closes with the contributors
      section. */
  lemma ChangelogFrame(
    baseurl: string, toName: string, fromName: string, m: seq<Bucket>, contributors: seq<Author>)
    ensures var text := Changelog(baseurl, toName, fromName, m, contributors);
            var link := "[compare changes](" + baseurl + "/compare/" + fromName + "..." + toName + ")\n";
            && StartsWith(text, Heading(toName))
            && (baseurl != "" ==> StartsWith(text, Heading(toName) + link))
            && IsSuffix(ContributorsSection(contributors), text)
  {
    var head := Heading(toName) + CompareLink(baseurl, toName, fromName);
    var sections := Sections(baseurl, m, SectionCount);
    assert StartsWith(head, head);
    StartsWithExtend(head, head, sections);
    StartsWithExtend(head + sections, head, ContributorsSection(contributors));
    StartsWithShorter(Changelog(baseurl, toName, fromName, m, contributors), Heading(toName), CompareLink(baseurl, toName, fromName));
    IsSuffixAppend(head + sections, ContributorsSection(contributors));
  }

  /** A commit of a type outside the listed ones changes nothing in the text. */
  lemma UnlistedTypeIgnored(
    baseurl: string, toName: string, fromName: string, m: seq<Bucket>, contributors: seq<Author>, c: Commit)
    requires c.kind !in Types
    ensures Changelog(baseurl, toName, fromName, Insert(m, c), contributors)
         == Changelog(baseurl, toName, fromName, m, contributors)
  {
    forall i | 0 <= i < SectionCount ensures Lookup(Insert(m, c), Types[i]) == Lookup(m, Types[i]) {
      InsertLookup(m, c, Types[i]);
    }
    SectionsListedOnly(baseurl, Insert(m, c), m, SectionCount);
  }
}
