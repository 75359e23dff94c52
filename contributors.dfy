/** The contributor merge the page loop runs before it snapshots a unit: every
    author of every bucketed commit whose mail the unit does not know yet is
    added, with the login recorded for that mail or an empty one. */
module Contributors {
  import opened Text
  import opened Entities

  /** `mail_to_login.get(mail)`, or the empty string. */
  function Login(logins: map<string, string>, mail: string): (r: string)
    ensures mail in logins ==> r == logins[mail]
    ensures mail !in logins ==> r == ""
  {
    if mail in logins then logins[mail] else ""
  }

  /** One step of the merge: an author whose mail is known is skipped. */
  function AddAuthor(cs: seq<Author>, a: Author, logins: map<string, string>): seq<Author> {
    if a.mail in Mails(cs) then cs else cs + [Author(a.name, a.mail, Login(logins, a.mail))]
  }

  /** The merge of `authors`, in order, into `cs`. */
  function MergeAuthors(cs: seq<Author>, authors: seq<Author>, logins: map<string, string>): seq<Author> {
    if authors == [] then cs
    else AddAuthor(MergeAuthors(cs, authors[..|authors| - 1], logins), authors[|authors| - 1], logins)
  }

  /** The authors of `commits`, commit by commit. */
  function CommitAuthors(commits: seq<Commit>): seq<Author> {
    if commits == [] then []
    else CommitAuthors(commits[..|commits| - 1]) + commits[|commits| - 1].authors
  }

  /** The authors of every bucket, bucket by bucket. */
  function BucketAuthors(m: seq<Bucket>): seq<Author> {
    if m == [] then []
    else BucketAuthors(m[..|m| - 1]) + CommitAuthors(m[|m| - 1].commits)
  }

  /** The unit after the merge. */
  function Merged(u: Unit, logins: map<string, string>): Unit {
    u.(contributors := MergeAuthors(u.contributors, BucketAuthors(u.commitMap), logins))
  }

  /** Merging a concatenation merges its halves one after the other. */
  lemma {:induction false} MergeAuthorsAppend(cs: seq<Author>, a: seq<Author>, b: seq<Author>, logins: map<string, string>)
    ensures MergeAuthors(cs, a + b, logins) == MergeAuthors(MergeAuthors(cs, a, logins), b, logins)
    decreases |b|
  {
    if b == [] {
      assert a + b == a;
    } else {
      var init := b[..|b| - 1];
      MergeAuthorsAppend(cs, a, init, logins);
      assert (a + b)[..|a + b| - 1] == a + init;
    }
  }

  /** The innermost loop: the authors of one commit. */
  method MergeInto(cs: seq<Author>, authors: seq<Author>, logins: map<string, string>)
    returns (r: seq<Author>)
    ensures r == MergeAuthors(cs, authors, logins)
  {
    r := cs;
    var k := 0;
    while k < |authors|
      invariant k <= |authors|
      invariant r == MergeAuthors(cs, authors[..k], logins)
    {
      var author := authors[k];
      assert authors[..k + 1][..k] == authors[..k];
      if author.mail !in Mails(r) {
        r := r + [Author(author.name, author.mail, Login(logins, author.mail))];
      }
      k := k + 1;
    }
    assert authors[..k] == authors;
  }

  /** The middle loop: the commits of one bucket. */
  method MergeCommits(cs: seq<Author>, commits: seq<Commit>, logins: map<string, string>)
    returns (r: seq<Author>)
    ensures r == MergeAuthors(cs, CommitAuthors(commits), logins)
  {
    r := cs;
    var c := 0;
    while c < |commits|
      invariant c <= |commits|
      invariant r == MergeAuthors(cs, CommitAuthors(commits[..c]), logins)
    {
      assert commits[..c + 1][..c] == commits[..c];
      MergeAuthorsAppend(cs, CommitAuthors(commits[..c]), commits[c].authors, logins);
      r := MergeInto(r, commits[c].authors, logins);
      c := c + 1;
    }
    assert commits[..c] == commits;
  }

  /** The flush-time merge: the outer loop over the buckets. */
  method MergeContributors(u: Unit, logins: map<string, string>) returns (r: Unit)
    ensures r == Merged(u, logins)
  {
    var contributors := u.contributors;
    var m := u.commitMap;
    var b := 0;
    while b < |m|
      invariant b <= |m|
      invariant contributors == MergeAuthors(u.contributors, BucketAuthors(m[..b]), logins)
    {
      assert m[..b + 1][..b] == m[..b];
      MergeAuthorsAppend(u.contributors, BucketAuthors(m[..b]), CommitAuthors(m[b].commits), logins);
      contributors := MergeCommits(contributors, m[b].commits, logins);
      b := b + 1;
    }
    assert m[..b] == m;
    r := u.(contributors := contributors);
  }

  /** The mails of a list of authors. */
  function AuthorMails(authors: seq<Author>): set<string> {
    if authors == [] then {} else AuthorMails(authors[..|authors| - 1]) + {authors[|authors| - 1].mail}
  }

  lemma MailsAppend(cs: seq<Author>, a: Author)
    ensures Mails(cs + [a]) == Mails(cs) + {a.mail}
    ensures DistinctMails(cs + [a]) <==> DistinctMails(cs) && a.mail !in Mails(cs)
  {
    assert (cs + [a])[..|cs|] == cs;
  }

  /** The merge never overwrites or drops an entry, adds one entry per new
      mail (so mails stay distinct), and ends up knowing every mail it was
      given. */
  lemma {:induction false} MergeAuthorsSpec(cs: seq<Author>, authors: seq<Author>, logins: map<string, string>)
    ensures |MergeAuthors(cs, authors, logins)| >= |cs|
    ensures MergeAuthors(cs, authors, logins)[..|cs|] == cs
    ensures Mails(MergeAuthors(cs, authors, logins)) == Mails(cs) + AuthorMails(authors)
    ensures DistinctMails(cs) ==> DistinctMails(MergeAuthors(cs, authors, logins))
  {
    if authors != [] {
      var init := authors[..|authors| - 1];
      var a := authors[|authors| - 1];
      MergeAuthorsSpec(cs, init, logins);
      var r := MergeAuthors(cs, init, logins);
      if a.mail !in Mails(r) {
        var x := Author(a.name, a.mail, Login(logins, a.mail));
        MailsAppend(r, x);
        assert (r + [x])[..|cs|] == r[..|cs|];
      }
    }
  }

  /** Each entry the merge adds has a mail that was unknown before, the name
      of an author carrying that mail, and the login recorded for it (empty
      when none is). */
  lemma {:induction false} MergeAuthorsNew(cs: seq<Author>, authors: seq<Author>, logins: map<string, string>)
    ensures var r := MergeAuthors(cs, authors, logins);
            forall j | |cs| <= j < |r| ::
              && r[j].mail !in Mails(cs)
              && r[j].username == Login(logins, r[j].mail)
              && exists k | 0 <= k < |authors| :: authors[k].mail == r[j].mail && authors[k].name == r[j].name
  {
    MergeAuthorsSpec(cs, authors, logins);
    if authors != [] {
      var init := authors[..|authors| - 1];
      var a := authors[|authors| - 1];
      MergeAuthorsNew(cs, init, logins);
      MergeAuthorsSpec(cs, init, logins);
      var r := MergeAuthors(cs, init, logins);
      var r' := MergeAuthors(cs, authors, logins);
      forall j | |cs| <= j < |r'|
        ensures r'[j].mail !in Mails(cs)
        ensures r'[j].username == Login(logins, r'[j].mail)
        ensures exists k | 0 <= k < |authors| :: authors[k].mail == r'[j].mail && authors[k].name == r'[j].name
      {
        if j < |r| {
          assert r'[j] == r[j];
          var k :| 0 <= k < |init| && init[k].mail == r[j].mail && init[k].name == r[j].name;
          assert authors[k] == init[k];
        } else {
          assert a.mail !in Mails(r) && r'[j] == Author(a.name, a.mail, Login(logins, a.mail));
          assert Mails(cs) <= Mails(r);
          assert authors[|authors| - 1] == a;
        }
      }
    }
  }
}
