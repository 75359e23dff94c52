/** `organize_commit` and `get_commit`: the aggregation over a local revision
    walk. Each commit is a record of what git2 gives; the username lookup
    `fetch_github_username` is a map from mail to handle, a mail it lacks
    standing for a failed lookup. */
module Organize {
  import opened Text
  import opened Entities
  import opened Subject
  import opened Trailer
  import Contributors

  /** A commit of the local walk: its id, author, message, and the body git
      reports (the message after its summary paragraph), if any. */
  datatype LocalCommit = LocalCommit(
    sha: string, authorName: string, authorMail: string, message: string, body: Option<string>)

  /** `message().lines().next().unwrap()` needs a nonempty message. */
  predicate Readable(c: LocalCommit) { c.message != "" }

  predicate AllReadable(walk: seq<LocalCommit>) {
    forall i | 0 <= i < |walk| :: Readable(walk[i])
  }

  /** `get_commit`: the author (no username) then the co-authors of the body,
      classified by the first line of the message. */
  function GetCommit(c: LocalCommit): Option<Commit>
    requires Readable(c)
  {
    var coAuthors := if c.body.Some? then CoAuthorsOf(Lines(c.body.value)) else [];
    var authors := [Author(c.authorName, c.authorMail, "")] + coAuthors;
    match ParseFirstLine(Lines(c.message)[0])
    case None => None
    case Some(p) => Some(Commit(c.sha, p.emoji, p.kind, p.scope, p.description, p.isBreaking, authors))
  }

  /** The username lookup's result, or the empty string when it fails. */
  function Handle(handles: map<string, string>, mail: string): string {
    if mail in handles then handles[mail] else ""
  }

  /** `organize_commit`'s result: `has_breaking`, `contributors`, `commit_map`. */
  datatype Organized = Organized(hasBreaking: bool, contributors: seq<Author>, commitMap: seq<Bucket>)

  /** One iteration: a commit whose author's mail is already a contributor is
      skipped entirely; otherwise its author becomes a contributor and, when
      its subject parses, the commit is bucketed. */
  function Absorb(o: Organized, c: LocalCommit, handles: map<string, string>): Organized
    requires Readable(c)
  {
    if c.authorMail in Mails(o.contributors) then o
    else
      var cs := o.contributors + [Author(c.authorName, c.authorMail, Handle(handles, c.authorMail))];
      match GetCommit(c)
      case None => o.(contributors := cs)
      case Some(k) => Organized(o.hasBreaking || k.isBreaking, cs, Insert(o.commitMap, k))
  }

  /** The state after the commits of `walk` are processed in order. */
  function OrganizeOf(walk: seq<LocalCommit>, handles: map<string, string>): Organized
    requires AllReadable(walk)
  {
    if walk == [] then Organized(false, [], [])
    else Absorb(OrganizeOf(walk[..|walk| - 1], handles), walk[|walk| - 1], handles)
  }

  /** `organize_commit`. */
  method OrganizeCommit(walk: seq<LocalCommit>, handles: map<string, string>)
    returns (hasBreaking: bool, contributors: seq<Author>, commitMap: seq<Bucket>)
    requires AllReadable(walk)
    ensures Organized(hasBreaking, contributors, commitMap) == OrganizeOf(walk, handles)
  {
    hasBreaking, contributors, commitMap := false, [], [];
    var i := 0;
    while i < |walk|
      invariant i <= |walk|
      invariant Organized(hasBreaking, contributors, commitMap) == OrganizeOf(walk[..i], handles)
    {
      assert walk[..i + 1][..i] == walk[..i];
      var gitCommit := walk[i];
      var commit := GetCommit(gitCommit);
      var mail := gitCommit.authorMail;
      if mail !in Mails(contributors) {
        var username := Handle(handles, mail);
        contributors := contributors + [Author(gitCommit.authorName, mail, username)];
        if commit.Some? {
          commitMap := Insert(commitMap, commit.value);
          if commit.value.isBreaking {
            hasBreaking := true;
          }
        }
      }
      i := i + 1;
    }
    assert walk[..i] == walk;
  }

  // ---------------------------------------------------------------------
  // What it computes

  /** What one iteration does to the contributors. */
  lemma AbsorbContributors(o: Organized, c: LocalCommit, handles: map<string, string>)
    requires Readable(c)
    ensures Absorb(o, c, handles).contributors
         == if c.authorMail in Mails(o.contributors) then o.contributors
            else o.contributors + [Author(c.authorName, c.authorMail, Handle(handles, c.authorMail))]
  {
  }

  /** What one iteration does to the buckets and the breaking flag. */
  lemma AbsorbBuckets(o: Organized, c: LocalCommit, handles: map<string, string>, kind: string)
    requires Readable(c)
    ensures var taken := c.authorMail !in Mails(o.contributors) && GetCommit(c).Some?;
            && CommitsOf(Absorb(o, c, handles).commitMap, kind)
               == (if taken && GetCommit(c).value.kind == kind
                   then CommitsOf(o.commitMap, kind) + [GetCommit(c).value]
                   else CommitsOf(o.commitMap, kind))
            && (Absorb(o, c, handles).hasBreaking
                <==> o.hasBreaking || (taken && GetCommit(c).value.isBreaking))
  {
    if c.authorMail !in Mails(o.contributors) && GetCommit(c).Some? {
      InsertLookup(o.commitMap, GetCommit(c).value, kind);
    }
  }

  /** The author mails of the commits of `walk`. */
  function WalkMails(walk: seq<LocalCommit>): set<string> {
    if walk == [] then {} else WalkMails(walk[..|walk| - 1]) + {walk[|walk| - 1].authorMail}
  }

  /** `walk[i]` is the first commit of its author: the only ones that count. */
  predicate FirstOfAuthor(walk: seq<LocalCommit>, i: nat)
    requires i < |walk|
  {
    walk[i].authorMail !in WalkMails(walk[..i])
  }

  lemma FirstOfAuthorPrefix(walk: seq<LocalCommit>, n: nat, i: nat)
    requires i < n <= |walk|
    ensures FirstOfAuthor(walk[..n], i) == FirstOfAuthor(walk, i)
  {
    assert walk[..n][..i] == walk[..i];
  }

  /** One contributor per author mail of the walk, no mail twice. */
  lemma {:induction false} OrganizeMails(walk: seq<LocalCommit>, handles: map<string, string>)
    requires AllReadable(walk)
    ensures DistinctMails(OrganizeOf(walk, handles).contributors)
    ensures Mails(OrganizeOf(walk, handles).contributors) == WalkMails(walk)
  {
    if walk != [] {
      var n := |walk| - 1;
      var init := walk[..n];
      var c := walk[n];
      OrganizeMails(init, handles);
      var o := OrganizeOf(init, handles);
      AbsorbContributors(o, c, handles);
      assert OrganizeOf(walk, handles) == Absorb(o, c, handles);
      if c.authorMail !in Mails(o.contributors) {
        Contributors.MailsAppend(o.contributors, Author(c.authorName, c.authorMail, Handle(handles, c.authorMail)));
      }
    }
  }

  /** `a` is the contributor `walk[i]` stands for: that commit is the first
      of its author, and `a` carries its name, mail and looked-up username. */
  predicate NamedAt(walk: seq<LocalCommit>, i: nat, a: Author, handles: map<string, string>)
    requires i < |walk|
  {
    FirstOfAuthor(walk, i)
    && a == Author(walk[i].authorName, walk[i].authorMail, Handle(handles, walk[i].authorMail))
  }

  lemma NamedAtPrefix(walk: seq<LocalCommit>, n: nat, i: nat, a: Author, handles: map<string, string>)
    requires i < n <= |walk| && NamedAt(walk[..n], i, a, handles)
    ensures NamedAt(walk, i, a, handles)
  {
    FirstOfAuthorPrefix(walk, n, i);
    assert walk[..n][i] == walk[i];
  }

  /** Every contributor in `cs` is the one some commit of `walk` stands for. */
  predicate AllNamed(walk: seq<LocalCommit>, cs: seq<Author>, handles: map<string, string>) {
    forall j | 0 <= j < |cs| :: HasNamer(walk, cs[j], handles)
  }

  /** Some commit of `walk` stands for `a`. */
  predicate HasNamer(walk: seq<LocalCommit>, a: Author, handles: map<string, string>) {
    exists i | 0 <= i < |walk| :: NamedAt(walk, i, a, handles)
  }

  /** The induction step of `OrganizeContributors`. */
  lemma ContributorsStep(walk: seq<LocalCommit>, handles: map<string, string>)
    requires AllReadable(walk) && walk != []
    requires AllNamed(walk[..|walk| - 1], OrganizeOf(walk[..|walk| - 1], handles).contributors, handles)
    ensures AllNamed(walk, OrganizeOf(walk, handles).contributors, handles)
  {
    var n := |walk| - 1;
    var init := walk[..n];
    var c := walk[n];
    var o := OrganizeOf(init, handles);
    assert OrganizeOf(walk, handles) == Absorb(o, c, handles);
    AbsorbContributors(o, c, handles);
    var cs := OrganizeOf(walk, handles).contributors;
    var m := |o.contributors|;
    assert |cs| == m || (|cs| == m + 1 && cs[m] == Author(c.authorName, c.authorMail, Handle(handles, c.authorMail))
                         && c.authorMail !in Mails(o.contributors));
    forall j | 0 <= j < |cs| ensures HasNamer(walk, cs[j], handles) {
      if j < m {
        assert cs[j] == o.contributors[j];
        assert HasNamer(init, o.contributors[j], handles);
        var i :| 0 <= i < n && NamedAt(init, i, o.contributors[j], handles);
        NamedAtPrefix(walk, n, i, cs[j], handles);
      } else {
        OrganizeMails(init, handles);
        assert walk[..n] == init;
        assert NamedAt(walk, n, cs[j], handles);
      }
    }
    assert AllNamed(walk, cs, handles);
  }

  /** Each contributor is named as in its author's first commit and carries
      the looked-up username. */
  lemma {:induction false} OrganizeContributors(walk: seq<LocalCommit>, handles: map<string, string>)
    requires AllReadable(walk)
    ensures AllNamed(walk, OrganizeOf(walk, handles).contributors, handles)
  {
    if walk != [] {
      OrganizeContributors(walk[..|walk| - 1], handles);
      ContributorsStep(walk, handles);
    }
  }

  /** `walk[i]` is the first commit of its author and classifies as `k`, of
      type `kind`. */
  predicate BucketedAt(walk: seq<LocalCommit>, i: nat, kind: string, k: Commit)
    requires AllReadable(walk) && i < |walk|
  {
    FirstOfAuthor(walk, i) && GetCommit(walk[i]) == Some(k) && k.kind == kind
  }

  /** `walk[i]` is the first commit of its author and classifies as a
      breaking commit. */
  predicate BreakingAt(walk: seq<LocalCommit>, i: nat)
    requires AllReadable(walk) && i < |walk|
  {
    FirstOfAuthor(walk, i) && GetCommit(walk[i]).Some? && GetCommit(walk[i]).value.isBreaking
  }

  lemma BucketedPrefix(walk: seq<LocalCommit>, n: nat, i: nat, kind: string, k: Commit)
    requires AllReadable(walk) && i < n <= |walk|
    ensures AllReadable(walk[..n])
    ensures BucketedAt(walk[..n], i, kind, k) == BucketedAt(walk, i, kind, k)
  {
    FirstOfAuthorPrefix(walk, n, i);
  }

  lemma BreakingPrefix(walk: seq<LocalCommit>, n: nat, i: nat)
    requires AllReadable(walk) && i < n <= |walk|
    ensures AllReadable(walk[..n])
    ensures BreakingAt(walk[..n], i) == BreakingAt(walk, i)
  {
    FirstOfAuthorPrefix(walk, n, i);
  }

  /** The last commit of a walk is bucketed exactly when it is its author's
      first and classifies. */
  lemma BucketedStep(walk: seq<LocalCommit>, o: Organized, handles: map<string, string>, kind: string, k: Commit)
    requires AllReadable(walk) && walk != []
    requires Mails(o.contributors) == WalkMails(walk[..|walk| - 1])
    ensures k in CommitsOf(Absorb(o, walk[|walk| - 1], handles).commitMap, kind)
            <==> k in CommitsOf(o.commitMap, kind) || BucketedAt(walk, |walk| - 1, kind, k)
  {
    AbsorbBuckets(o, walk[|walk| - 1], handles, kind);
  }

  /** A commit is bucketed exactly when it is its author's first commit on the
      walk and its subject parses: a later commit by a known author is
      dropped even when it parses. */
  lemma {:induction false} OrganizeBuckets(walk: seq<LocalCommit>, handles: map<string, string>, kind: string, k: Commit)
    requires AllReadable(walk)
    ensures k in CommitsOf(OrganizeOf(walk, handles).commitMap, kind)
            <==> exists i | 0 <= i < |walk| :: BucketedAt(walk, i, kind, k)
  {
    if walk != [] {
      var n := |walk| - 1;
      var init := walk[..n];
      OrganizeBuckets(init, handles, kind, k);
      OrganizeMails(init, handles);
      var o := OrganizeOf(init, handles);
      BucketedStep(walk, o, handles, kind, k);
      assert OrganizeOf(walk, handles) == Absorb(o, walk[n], handles);
      if k in CommitsOf(o.commitMap, kind) {
        var i :| 0 <= i < n && BucketedAt(init, i, kind, k);
        BucketedPrefix(walk, n, i, kind, k);
      } else if !BucketedAt(walk, n, kind, k) {
        forall i: nat | i < |walk| ensures !BucketedAt(walk, i, kind, k) {
          if i < n {
            BucketedPrefix(walk, n, i, kind, k);
            assert !BucketedAt(init, i, kind, k);
          } else {
            assert i == n;
          }
        }
      }
    }
  }

  /** The last commit of a walk sets the flag exactly when it is its
      author's first and classifies as breaking. */
  lemma BreakingStep(walk: seq<LocalCommit>, o: Organized, handles: map<string, string>)
    requires AllReadable(walk) && walk != []
    requires Mails(o.contributors) == WalkMails(walk[..|walk| - 1])
    ensures Absorb(o, walk[|walk| - 1], handles).hasBreaking
            <==> o.hasBreaking || BreakingAt(walk, |walk| - 1)
  {
    AbsorbBuckets(o, walk[|walk| - 1], handles, "");
  }

  /** `has_breaking` holds exactly when some bucketed commit is breaking. */
  lemma {:induction false} OrganizeBreaking(walk: seq<LocalCommit>, handles: map<string, string>)
    requires AllReadable(walk)
    ensures OrganizeOf(walk, handles).hasBreaking <==> exists i | 0 <= i < |walk| :: BreakingAt(walk, i)
  {
    if walk != [] {
      var n := |walk| - 1;
      var init := walk[..n];
      OrganizeBreaking(init, handles);
      OrganizeMails(init, handles);
      var o := OrganizeOf(init, handles);
      BreakingStep(walk, o, handles);
      assert OrganizeOf(walk, handles) == Absorb(o, walk[n], handles);
      if o.hasBreaking {
        var i :| 0 <= i < n && BreakingAt(init, i);
        BreakingPrefix(walk, n, i);
      } else if !BreakingAt(walk, n) {
        forall i: nat | i < |walk| ensures !BreakingAt(walk, i) {
          if i < n {
            BreakingPrefix(walk, n, i);
            assert !BreakingAt(init, i);
          } else {
            assert i == n;
          }
        }
      }
    }
  }
}
