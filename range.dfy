/** Range resolution: `get_from_commit` picks the commit the changelog starts
    from, `get_range` lists the boundary commits between it and `to`.
    Commits are their id strings. Repository queries are parameters: the
    revision walk from HEAD, the walk of `from..to`, the set of commits a
    listed tag points at, the tags matching a `from` pattern, and maps for
    tag resolution and `revparse_single`. An `unwrap` that would panic is the
    outcome `None`. */
module Range {
  import opened Text
  import Tags

  datatype Result<T> = Ok(value: T) | Err(msg: string)

  // ---------------------------------------------------------------------
  // get_from_commit

  /** The index of the first commit of `walk` that carries a tag. */
  function FirstTagged(walk: seq<string>, tagged: set<string>): (r: Option<nat>)
    ensures r.Some? ==> r.value < |walk| && walk[r.value] in tagged
    ensures r.Some? ==> forall j | 0 <= j < r.value :: walk[j] !in tagged
    ensures r.None? ==> forall j | 0 <= j < |walk| :: walk[j] !in tagged
  {
    if walk == [] then None
    else if walk[0] in tagged then Some(0)
    else match FirstTagged(walk[1..], tagged)
      case None => None
      case Some(i) => Some(i + 1)
  }

  /** The `from` commit when none is given: the first tagged commit walking
      back from HEAD, or HEAD itself when no commit is tagged. */
  function DefaultFrom(headWalk: seq<string>, head: string, tagged: set<string>): string {
    match FirstTagged(headWalk, tagged)
    case None => head
    case Some(i) => headWalk[i]
  }

  /** What `from_commit_get_tag` finds for a commit: the first listed tag
      that resolves to it, none, or a tag whose reference or commit is
      missing, on which the `unwrap` panics. */
  datatype TagScan = Found(tag: string) | NotFound | BadTag

  /** `from_commit_get_tag` over the listed tags, in list order. */
  function TagOfCommit(tags: seq<string>, resolve: map<string, string>, c: string): (r: TagScan)
    ensures r.Found? ==> r.tag in tags && r.tag in resolve && resolve[r.tag] == c
    ensures r.BadTag? ==> exists j | 0 <= j < |tags| :: tags[j] !in resolve
  {
    if tags == [] then NotFound
    else if tags[0] !in resolve then BadTag
    else if resolve[tags[0]] == c then Found(tags[0])
    else TagOfCommit(tags[1..], resolve, c)
  }

  /** The scan stops at the first tag that either fails to resolve or
      resolves to `c`: it panics exactly when the first such tag fails, and
      finds nothing exactly when every tag resolves elsewhere. */
  lemma {:induction false} TagOfCommitSpec(tags: seq<string>, resolve: map<string, string>, c: string)
    ensures TagOfCommit(tags, resolve, c).NotFound? <==>
              forall j | 0 <= j < |tags| :: tags[j] in resolve && resolve[tags[j]] != c
    ensures TagOfCommit(tags, resolve, c).BadTag? <==>
              exists j | 0 <= j < |tags| :: tags[j] !in resolve && ScannedPast(tags[..j], resolve, c)
  {
    if tags != [] {
      TagOfCommitSpec(tags[1..], resolve, c);
      if TagOfCommit(tags, resolve, c).BadTag? && tags[0] in resolve {
        var j :| 0 <= j < |tags| - 1 && tags[1..][j] !in resolve && ScannedPast(tags[1..][..j], resolve, c);
        assert tags[..j + 1] == [tags[0]] + tags[1..][..j];
      }
      if !TagOfCommit(tags, resolve, c).BadTag? {
        forall j | 0 <= j < |tags| && tags[j] !in resolve
          ensures !ScannedPast(tags[..j], resolve, c)
        {
          if j > 0 {
            assert tags[1..][..j - 1] == tags[..j][1..];
          }
        }
      }
    }
  }

  /** Every tag of `prefix` resolves, and to a commit other than `c`. */
  predicate ScannedPast(prefix: seq<string>, resolve: map<string, string>, c: string) {
    forall i | 0 <= i < |prefix| :: prefix[i] in resolve && resolve[prefix[i]] != c
  }

  /** The loop of `from_commit_get_tag`. */
  method FromCommitGetTag(tags: seq<string>, resolve: map<string, string>, c: string)
    returns (r: TagScan)
    ensures r == TagOfCommit(tags, resolve, c)
  {
    var i := 0;
    while i < |tags|
      invariant i <= |tags|
      invariant TagOfCommit(tags[i..], resolve, c) == TagOfCommit(tags, resolve, c)
    {
      assert tags[i..][1..] == tags[i + 1..];
      if tags[i] !in resolve {
        return BadTag;
      }
      if resolve[tags[i]] == c {
        return Found(tags[i]);
      }
      i := i + 1;
    }
    return NotFound;
  }

  /** The default `from` as the source computes it: walking back from HEAD,
      the commit of the first tag found, HEAD when no commit is tagged, and
      `None` when a tag scan panics first. */
  function DefaultFromOf(headWalk: seq<string>, head: string, tags: seq<string>, resolve: map<string, string>)
    : (r: Option<string>)
    ensures r.None? ==> exists j | 0 <= j < |tags| :: tags[j] !in resolve
  {
    if headWalk == [] then Some(head)
    else match TagOfCommit(tags, resolve, headWalk[0])
      case BadTag => None
      case Found(t) => Some(resolve[t])
      case NotFound => DefaultFromOf(headWalk[1..], head, tags, resolve)
  }

  /** When every listed tag resolves to a commit, the default `from` is the
      first commit of the walk that is a key of `c2t`, else HEAD. */
  lemma {:induction false} DefaultFromResolved(headWalk: seq<string>, head: string, tags: seq<string>, resolve: map<string, string>)
    requires forall j | 0 <= j < |tags| :: tags[j] in resolve
    ensures DefaultFromOf(headWalk, head, tags, resolve)
            == Some(DefaultFrom(headWalk, head, Tags.CommitToTag(tags, resolve).Keys))
  {
    if headWalk != [] {
      var c := headWalk[0];
      var tagged := Tags.CommitToTag(tags, resolve).Keys;
      TagOfCommitSpec(tags, resolve, c);
      Tags.CommitToTagLastWins(tags, resolve, c);
      if c !in tagged {
        assert TagOfCommit(tags, resolve, c).NotFound?;
        DefaultFromResolved(headWalk[1..], head, tags, resolve);
      }
    }
  }

  /** With the first commit of the walk untagged by the tags before it, a tag
      that does not resolve makes the default search panic. */
  lemma DefaultFromPanics(headWalk: seq<string>, head: string, tags: seq<string>, resolve: map<string, string>, j: nat)
    requires |headWalk| > 0 && j < |tags| && tags[j] !in resolve
    requires ScannedPast(tags[..j], resolve, headWalk[0])
    ensures DefaultFromOf(headWalk, head, tags, resolve).None?
  {
    TagOfCommitSpec(tags, resolve, headWalk[0]);
  }

  /** The commit `get_from_commit` returns, `None` for a panic. */
  function FromOf(
    from: Option<string>, headWalk: seq<string>, head: string, tags: seq<string>,
    matching: seq<string>, resolve: map<string, string>, revparse: map<string, string>)
    : Option<string>
  {
    if from.None? then DefaultFromOf(headWalk, head, tags, resolve)
    else if |matching| > 0 then
      if matching[0] in resolve then Some(resolve[matching[0]]) else None
    else if from.value in revparse then Some(revparse[from.value]) else None
  }

  /** `get_from_commit`: without `from`, the search loop over the walk from
      HEAD; with `from`, the first tag matching it, else the revision it
      names. */
  method FromCommit(
    from: Option<string>, headWalk: seq<string>, head: string, tags: seq<string>,
    matching: seq<string>, resolve: map<string, string>, revparse: map<string, string>)
    returns (r: Option<string>)
    ensures r == FromOf(from, headWalk, head, tags, matching, resolve, revparse)
  {
    if from.None? {
      var i := 0;
      while i < |headWalk|
        invariant i <= |headWalk|
        invariant DefaultFromOf(headWalk[i..], head, tags, resolve) == DefaultFromOf(headWalk, head, tags, resolve)
      {
        assert headWalk[i..][1..] == headWalk[i + 1..];
        var scan := FromCommitGetTag(tags, resolve, headWalk[i]);
        if scan.BadTag? {
          return None;
        }
        if scan.Found? {
          return Some(resolve[scan.tag]);
        }
        i := i + 1;
      }
      r := Some(head);
    } else if |matching| > 0 {
      var tag := matching[0];
      r := if tag in resolve then Some(resolve[tag]) else None;
    } else {
      r := if from.value in revparse then Some(revparse[from.value]) else None;
    }
  }

  /** The default `from` is HEAD exactly when no commit on the walk is tagged,
      and otherwise the first tagged one. */
  lemma DefaultFromSpec(headWalk: seq<string>, head: string, tagged: set<string>)
    ensures (forall j | 0 <= j < |headWalk| :: headWalk[j] !in tagged) ==>
              DefaultFrom(headWalk, head, tagged) == head
    ensures (exists j | 0 <= j < |headWalk| :: headWalk[j] in tagged) ==>
              DefaultFrom(headWalk, head, tagged) in tagged
              && exists i | 0 <= i < |headWalk| ::
                   DefaultFrom(headWalk, head, tagged) == headWalk[i]
                   && forall j | 0 <= j < i :: headWalk[j] !in tagged
  {
  }

  // ---------------------------------------------------------------------
  // get_range

  /** The commits of `walk` that carry a tag, in walk order. */
  function TaggedIn(walk: seq<string>, c2t: map<string, string>): seq<string> {
    if walk == [] then []
    else TaggedIn(walk[..|walk| - 1], c2t)
         + if walk[|walk| - 1] in c2t then [walk[|walk| - 1]] else []
  }

  /** The boundary list `get_range` returns. */
  function RangeOf(fromCommit: string, toCommit: string, walk: seq<string>, c2t: map<string, string>)
    : Result<seq<string>>
  {
    if fromCommit == toCommit then Err("No commits between from and to.")
    else Ok(TaggedIn(walk, c2t) + [fromCommit])
  }

  /** `get_range` once `from` and `to` are resolved; `walk` is the revision
      walk of `from..to`. */
  method GetRange(fromCommit: string, toCommit: string, walk: seq<string>, c2t: map<string, string>)
    returns (r: Result<seq<string>>)
    ensures r == RangeOf(fromCommit, toCommit, walk, c2t)
  {
    if fromCommit == toCommit {
      return Err("No commits between from and to.");
    }
    var commits: seq<string> := [];
    var i := 0;
    while i < |walk|
      invariant i <= |walk|
      invariant commits == TaggedIn(walk[..i], c2t)
    {
      assert walk[..i + 1][..i] == walk[..i];
      if walk[i] in c2t {
        commits := commits + [walk[i]];
      }
      i := i + 1;
    }
    assert walk[..i] == walk;
    commits := commits + [fromCommit];
    r := Ok(commits);
  }

  /** `sub` is a subsequence of `walk`: its elements occur there in the same
      order (matched from the end). */
  predicate Subsequence(sub: seq<string>, walk: seq<string>)
    decreases |walk|
  {
    sub == []
    || (walk != []
        && if sub[|sub| - 1] == walk[|walk| - 1]
           then Subsequence(sub[..|sub| - 1], walk[..|walk| - 1])
           else Subsequence(sub, walk[..|walk| - 1]))
  }

  /** The tagged commits of the walk: all of them, nothing else, in order. */
  lemma {:induction false} TaggedInSpec(walk: seq<string>, c2t: map<string, string>)
    ensures forall x :: x in TaggedIn(walk, c2t) <==> x in walk && x in c2t
    ensures Subsequence(TaggedIn(walk, c2t), walk)
  {
    if walk != [] {
      var init := walk[..|walk| - 1];
      TaggedInSpec(init, c2t);
      assert walk == init + [walk[|walk| - 1]];
      var sub := TaggedIn(init, c2t);
      if walk[|walk| - 1] in c2t {
        var t := TaggedIn(walk, c2t);
        assert t == sub + [walk[|walk| - 1]];
        assert t[..|t| - 1] == sub && t[|t| - 1] == walk[|walk| - 1];
      } else if sub != [] {
        assert TaggedIn(walk, c2t) == sub;
        assert sub[|sub| - 1] in sub;
        assert sub[|sub| - 1] != walk[|walk| - 1];
      }
    }
  }

  lemma {:induction false} TaggedInNone(walk: seq<string>, c2t: map<string, string>)
    requires forall k | 0 <= k < |walk| :: walk[k] !in c2t
    ensures TaggedIn(walk, c2t) == []
  {
    if walk != [] {
      TaggedInNone(walk[..|walk| - 1], c2t);
    }
  }

  /** `get_range` fails exactly when `from` and `to` coincide; otherwise the
      list ends with `from` and every earlier entry is a tagged commit of the
      walk, each of them listed, in walk order. */
  lemma GetRangeSpec(fromCommit: string, toCommit: string, walk: seq<string>, c2t: map<string, string>)
    ensures RangeOf(fromCommit, toCommit, walk, c2t).Err? <==> fromCommit == toCommit
    ensures RangeOf(fromCommit, toCommit, walk, c2t).Err? ==>
              RangeOf(fromCommit, toCommit, walk, c2t).msg == "No commits between from and to."
    ensures RangeOf(fromCommit, toCommit, walk, c2t).Ok? ==>
              var r := RangeOf(fromCommit, toCommit, walk, c2t).value;
              && |r| >= 1 && r[|r| - 1] == fromCommit
              && (forall x :: x in r[..|r| - 1] <==> x in walk && x in c2t)
              && Subsequence(r[..|r| - 1], walk)
  {
    if fromCommit != toCommit {
      TaggedInSpec(walk, c2t);
      var r := RangeOf(fromCommit, toCommit, walk, c2t).value;
      assert r[..|r| - 1] == TaggedIn(walk, c2t);
    }
  }

  /** With the default `from` (the first tagged commit walking back from
      HEAD), when every commit of `from..to` comes before it on that walk, the
      boundary list is `from` alone: there is no second boundary. */
  lemma DefaultRangeIsSingle(
    headWalk: seq<string>, head: string, toCommit: string, walk: seq<string>, c2t: map<string, string>)
    requires FirstTagged(headWalk, c2t.Keys).Some?
    requires DefaultFrom(headWalk, head, c2t.Keys) != toCommit
    requires forall k | 0 <= k < |walk| ::
               exists j | 0 <= j < FirstTagged(headWalk, c2t.Keys).value :: headWalk[j] == walk[k]
    ensures RangeOf(DefaultFrom(headWalk, head, c2t.Keys), toCommit, walk, c2t)
         == Ok([DefaultFrom(headWalk, head, c2t.Keys)])
  {
    var i := FirstTagged(headWalk, c2t.Keys).value;
    assert forall j | 0 <= j < i :: headWalk[j] !in c2t.Keys;
    assert forall k | 0 <= k < |walk| :: exists j | 0 <= j < i :: headWalk[j] == walk[k];
    forall k | 0 <= k < |walk| ensures walk[k] !in c2t {
      var j :| 0 <= j < i && headWalk[j] == walk[k];
    }
    TaggedInNone(walk, c2t);
    assert [] + [DefaultFrom(headWalk, head, c2t.Keys)] == [DefaultFrom(headWalk, head, c2t.Keys)];
  }
}
