/** The tag index: `list_tags` keeps the SemVer-shaped tag names and reverses
    them; `get_commit_tag_map` builds the commit-to-tag and tag-to-commit maps.
    The repository's tag list is a parameter, and resolving a tag to the id of
    the commit it points at (`from_tag_get_commit`) is a map that lacks the
    tags that do not resolve. */
module Tags {
  import opened Text
  import opened SemVer

  // ---------------------------------------------------------------------
  // list_tags

  /** The elements of `s` that satisfy `p`, in their original order. */
  function Filter<T>(s: seq<T>, p: T -> bool): seq<T> {
    if s == [] then []
    else Filter(s[..|s| - 1], p) + if p(s[|s| - 1]) then [s[|s| - 1]] else []
  }

  /** The names that match the tag pattern, in their original order. */
  function SemVerNames(names: seq<string>): seq<string> {
    Filter(names, IsSemVerTag)
  }

  function Reversed<T>(s: seq<T>): seq<T> {
    if s == [] then [] else [s[|s| - 1]] + Reversed(s[..|s| - 1])
  }

  /** Position `i` of the reversal holds position `|s| - 1 - i` of the original. */
  lemma {:induction false} ReversedAt<T>(s: seq<T>)
    ensures |Reversed(s)| == |s|
    ensures forall i | 0 <= i < |s| :: Reversed(s)[i] == s[|s| - 1 - i]
  {
    if s != [] {
      ReversedAt(s[..|s| - 1]);
    }
  }

  /** Reversing twice gives back the original order. */
  lemma ReversedTwice<T>(s: seq<T>)
    ensures Reversed(Reversed(s)) == s
  {
    ReversedAt(s);
    ReversedAt(Reversed(s));
  }

  /** `Filter` keeps exactly the elements that satisfy the predicate. */
  lemma {:induction false} FilterMembers<T>(s: seq<T>, p: T -> bool)
    ensures forall x :: x in Filter(s, p) <==> x in s && p(x)
    ensures |Filter(s, p)| <= |s|
  {
    if s != [] {
      var init, last := s[..|s| - 1], s[|s| - 1];
      FilterMembers(init, p);
      assert s == init + [last];
    }
  }

  /** The kept names are exactly the matching names of the input. */
  lemma SemVerNamesMembers(names: seq<string>)
    ensures forall x :: x in SemVerNames(names) <==> x in names && IsSemVerTag(x)
    ensures |SemVerNames(names)| <= |names|
  {
    FilterMembers(names, IsSemVerTag);
  }

  /** `tags.reverse()`. */
  method ReverseInPlace(a: array<string>)
    modifies a
    ensures a[..] == Reversed(old(a[..]))
  {
    ghost var orig := a[..];
    ReversedAt(orig);
    var n := a.Length;
    var i := 0;
    while i < n / 2
      invariant 0 <= i <= n / 2
      invariant forall k | 0 <= k < i :: a[k] == orig[n - 1 - k] && a[n - 1 - k] == orig[k]
      invariant forall k | i <= k < n - i :: a[k] == orig[k]
    {
      a[i], a[n - 1 - i] := a[n - 1 - i], a[i];
      i := i + 1;
    }
  }

  /** `list_tags`: the names that match the tag pattern, newest-listed first. */
  method ListTags(names: seq<string>) returns (tags: seq<string>)
    ensures tags == Reversed(SemVerNames(names))
  {
    var kept: seq<string> := [];
    var i := 0;
    while i < |names|
      invariant i <= |names|
      invariant kept == SemVerNames(names[..i])
    {
      assert names[..i + 1][..i] == names[..i];
      if IsSemVerTag(names[i]) {
        kept := kept + [names[i]];
      }
      i := i + 1;
    }
    assert names[..i] == names;
    var a := new string[|kept|](k requires 0 <= k < |kept| => kept[k]);
    assert a[..] == kept;
    ReverseInPlace(a);
    tags := a[..];
  }

  /** Reversal keeps the elements. */
  lemma ReversedMembers<T>(s: seq<T>)
    ensures forall x :: x in Reversed(s) <==> x in s
  {
    ReversedAt(s);
    forall x | x in s ensures x in Reversed(s) {
      var j :| 0 <= j < |s| && s[j] == x;
      assert Reversed(s)[|s| - 1 - j] == x;
    }
  }

  /** Every listed tag matches the tag pattern (so its numeric identifiers have
      no leading zeros), every matching name is listed, and no more names are
      listed than given. */
  lemma ListTagsSpec(names: seq<string>)
    ensures forall x :: x in Reversed(SemVerNames(names)) <==> x in names && IsSemVerTag(x)
    ensures |Reversed(SemVerNames(names))| <= |names|
  {
    SemVerNamesMembers(names);
    ReversedMembers(SemVerNames(names));
    ReversedAt(SemVerNames(names));
  }

  // ---------------------------------------------------------------------
  // get_commit_tag_map

  /** `c2t` after the tags of `tags` are processed in order: each resolved tag
      overwrites its commit's entry. */
  function CommitToTag(tags: seq<string>, resolve: map<string, string>): map<string, string> {
    if tags == [] then map[]
    else
      var m := CommitToTag(tags[..|tags| - 1], resolve);
      var t := tags[|tags| - 1];
      if t in resolve then m[resolve[t] := t] else m
  }

  /** `t2c` after the tags of `tags` are processed in order. */
  function TagToCommit(tags: seq<string>, resolve: map<string, string>): map<string, string> {
    if tags == [] then map[]
    else
      var m := TagToCommit(tags[..|tags| - 1], resolve);
      var t := tags[|tags| - 1];
      if t in resolve then m[t := resolve[t]] else m
  }

  /** `get_commit_tag_map`. */
  method CommitTagMap(tags: seq<string>, resolve: map<string, string>)
    returns (c2t: map<string, string>, t2c: map<string, string>)
    ensures c2t == CommitToTag(tags, resolve) && t2c == TagToCommit(tags, resolve)
  {
    c2t, t2c := map[], map[];
    var i := 0;
    while i < |tags|
      invariant i <= |tags|
      invariant c2t == CommitToTag(tags[..i], resolve) && t2c == TagToCommit(tags[..i], resolve)
    {
      assert tags[..i + 1][..i] == tags[..i];
      var tag := tags[i];
      if tag in resolve {
        var commit := resolve[tag];
        c2t := c2t[commit := tag];
        t2c := t2c[tag := commit];
      }
      i := i + 1;
    }
    assert tags[..i] == tags;
  }

  /** `t2c` holds exactly the listed tags that resolve, each mapped to its
      commit. */
  lemma {:induction false} TagToCommitSpec(tags: seq<string>, resolve: map<string, string>)
    ensures forall t :: t in TagToCommit(tags, resolve) <==> t in tags && t in resolve
    ensures forall t | t in TagToCommit(tags, resolve) :: TagToCommit(tags, resolve)[t] == resolve[t]
  {
    if tags != [] {
      var init := tags[..|tags| - 1];
      TagToCommitSpec(init, resolve);
      assert tags == init + [tags[|tags| - 1]];
    }
  }

  /** The index of the last listed tag that resolves to `c`, if any. */
  function LastTagFor(tags: seq<string>, resolve: map<string, string>, c: string): (r: Option<nat>)
    ensures r.Some? ==> r.value < |tags| && tags[r.value] in resolve && resolve[tags[r.value]] == c
    ensures r.Some? ==> forall j | r.value < j < |tags| :: !(tags[j] in resolve && resolve[tags[j]] == c)
    ensures r.None? ==> forall j | 0 <= j < |tags| :: !(tags[j] in resolve && resolve[tags[j]] == c)
  {
    if tags == [] then None
    else
      var t := tags[|tags| - 1];
      if t in resolve && resolve[t] == c then Some(|tags| - 1)
      else LastTagFor(tags[..|tags| - 1], resolve, c)
  }

  /** A commit is in `c2t` exactly when some listed tag resolves to it, and it
      then holds the last such tag: later inserts win. */
  lemma {:induction false} CommitToTagLastWins(tags: seq<string>, resolve: map<string, string>, c: string)
    ensures c in CommitToTag(tags, resolve) <==> LastTagFor(tags, resolve, c).Some?
    ensures c in CommitToTag(tags, resolve) ==>
              CommitToTag(tags, resolve)[c] == tags[LastTagFor(tags, resolve, c).value]
  {
    if tags != [] {
      CommitToTagLastWins(tags[..|tags| - 1], resolve, c);
    }
  }

  /** The two maps agree: the tag `c2t` records for a commit maps back to that
      commit in `t2c`. */
  lemma CommitTagConsistent(tags: seq<string>, resolve: map<string, string>, c: string)
    requires c in CommitToTag(tags, resolve)
    ensures CommitToTag(tags, resolve)[c] in TagToCommit(tags, resolve)
    ensures TagToCommit(tags, resolve)[CommitToTag(tags, resolve)[c]] == c
  {
    CommitToTagLastWins(tags, resolve, c);
    TagToCommitSpec(tags, resolve);
  }
}
