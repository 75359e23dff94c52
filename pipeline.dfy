/** `gitt` after the repository checks: the boundary list, the remote's
    location and base URL, the segmentation, and one changelog text per unit.
    The listing pages, the commits of the local walk, the remote URL and the
    tag maps are inputs; the changelogs are returned instead of printed. */
module Pipeline {
  import opened Text
  import opened Entities
  import Range
  import Tags
  import Remote
  import opened PageLoop
  import Naming
  import Render
  import Organize

  /** How `gitt` ends: the printed changelogs, an error it returns, or a
      panic. */
  datatype Outcome = Printed(changelogs: seq<string>) | Failed(msg: string) | Panicked

  /** `t` occurs in `s` (`str::contains`). */
  function Contains(s: string, t: string): bool
    decreases |s|
  {
    (|t| <= |s| && s[..|t|] == t) || (|s| > 0 && Contains(s[1..], t))
  }

  /** The link prefix for commits and comparisons. */
  function BaseUrl(loc: Option<Remote.Location>): string {
    match loc
    case None => ""
    case Some(l) => "https://" + l.host + "/" + l.scope + "/" + l.repo + "/commit"
  }

  /** One unit's text, named by `get_name`. */
  function UnitText(u: Unit, baseurl: string, prefix: string, c2t: map<string, string>): string {
    var names := Naming.GetName(u.fromCommit, u.toCommit, prefix, u.hasBreaking, u.commitMap, c2t);
    Render.Changelog(baseurl, names.1, names.0, u.commitMap, u.contributors)
  }

  /** `f` applied to each element, in order. */
  function MapSeq<A, B>(s: seq<A>, f: A -> B): seq<B> {
    if s == [] then [] else MapSeq(s[..|s| - 1], f) + [f(s[|s| - 1])]
  }

  lemma {:induction false} MapSeqSpec<A, B>(s: seq<A>, f: A -> B)
    ensures |MapSeq(s, f)| == |s|
    ensures forall k | 0 <= k < |s| :: MapSeq(s, f)[k] == f(s[k])
  {
    if s != [] {
      var n := |s| - 1;
      MapSeqSpec(s[..n], f);
      forall k | 0 <= k < n ensures MapSeq(s, f)[k] == f(s[k]) {
        assert MapSeq(s, f)[k] == MapSeq(s[..n], f)[k];
      }
    }
  }

  /** Extending the input by its next element extends the result by that
      element's image. */
  lemma MapSeqNext<A, B>(s: seq<A>, k: nat, f: A -> B)
    requires k < |s|
    ensures MapSeq(s[..k + 1], f) == MapSeq(s[..k], f) + [f(s[k])]
  {
    assert s[..k + 1][..k] == s[..k];
  }

  /** The texts of `units`, in order. */
  function Texts(units: seq<Unit>, baseurl: string, prefix: string, c2t: map<string, string>): seq<string> {
    MapSeq(units, u => UnitText(u, baseurl, prefix, c2t))
  }

  /** `gitt` from the boundary list on. On GitHub the listing is segmented
      and its units rendered; otherwise `organize_commit` walks the local
      commits `localWalk` of `range[1]..range[0]`, whose results are
      discarded, but which panics on a commit with an empty message. */
  function GittOf(
    range: Range.Result<seq<string>>, remoteUrl: Option<string>, pages: seq<seq<Record>>,
    localWalk: seq<Organize.LocalCommit>, prefix: string, c2t: map<string, string>): Outcome
  {
    if range.Err? then Failed(range.msg)
    else if remoteUrl.Some? && Remote.ParseGitUrlAsWritten(remoteUrl.value).None? then Panicked
    else if |range.value| < 2 then Panicked
    else
      var loc := if remoteUrl.Some? then Remote.ParseGitUrlAsWritten(remoteUrl.value) else None;
      var host := if loc.Some? then loc.value.host else "";
      if Contains(host, "github") then
        var st := RunPages(Init(range.value), pages, range.value);
        if st.panicked then Panicked else Printed(Texts(st.units, BaseUrl(loc), prefix, c2t))
      else if !Organize.AllReadable(localWalk) then Panicked
      else Printed([])
  }

  /** A whole run from the tag names on: `list_tags`, `get_commit_tag_map`,
      `get_range` (whose `from` and `to` lookups may panic) and then the
      boundary list's use. `toCommit` is what `revparse_single(to)` finds. */
  function GittRunOf(
    names: seq<string>, resolve: map<string, string>, from: Option<string>,
    headWalk: seq<string>, head: string, matching: seq<string>, revparse: map<string, string>,
    toCommit: Option<string>, walk: seq<string>, remoteUrl: Option<string>,
    pages: seq<seq<Record>>, localWalk: seq<Organize.LocalCommit>, prefix: string): Outcome
  {
    var tags := Tags.Reversed(Tags.SemVerNames(names));
    var c2t := Tags.CommitToTag(tags, resolve);
    var fromCommit := Range.FromOf(from, headWalk, head, tags, matching, resolve, revparse);
    if fromCommit.None? || toCommit.None? then Panicked
    else GittOf(Range.RangeOf(fromCommit.value, toCommit.value, walk, c2t), remoteUrl, pages, localWalk, prefix, c2t)
  }

  /** The loop that renders the units. */
  method RenderUnits(units: seq<Unit>, baseurl: string, prefix: string, c2t: map<string, string>)
    returns (texts: seq<string>)
    ensures texts == Texts(units, baseurl, prefix, c2t)
  {
    texts := [];
    var k := 0;
    while k < |units|
      invariant k <= |units|
      invariant texts == Texts(units[..k], baseurl, prefix, c2t)
    {
      var u := units[k];
      MapSeqNext(units, k, u => UnitText(u, baseurl, prefix, c2t));
      var names := Naming.GetName(u.fromCommit, u.toCommit, prefix, u.hasBreaking, u.commitMap, c2t);
      var changelog := Render.GetChangelogString(baseurl, names.1, names.0, u.commitMap, u.contributors);
      texts := texts + [changelog];
      k := k + 1;
    }
    assert units[..k] == units;
  }

  /** `gitt`; `handles` stands for the username service `organize_commit`
      asks. */
  method Gitt(
    range: Range.Result<seq<string>>, remoteUrl: Option<string>, pages: seq<seq<Record>>,
    localWalk: seq<Organize.LocalCommit>, handles: map<string, string>,
    prefix: string, c2t: map<string, string>)
    returns (out: Outcome)
    ensures out == GittOf(range, remoteUrl, pages, localWalk, prefix, c2t)
  {
    if range.Err? {
      return Failed(range.msg);
    }
    var loc: Option<Remote.Location> := None;
    if remoteUrl.Some? {
      var parsed := Remote.ParseGitUrlAsWritten(remoteUrl.value);
      if parsed.None? {
        return Panicked;
      }
      loc := parsed;
    }
    var baseurl := BaseUrl(loc);
    var host := if loc.Some? then loc.value.host else "";
    if |range.value| < 2 {
      return Panicked;
    }
    var units: seq<Unit> := [];
    if Contains(host, "github") {
      var segmented := SegmentListing(range.value, pages);
      if segmented.None? {
        return Panicked;
      }
      units := segmented.value;
    } else {
      if !Organize.AllReadable(localWalk) {
        return Panicked;
      }
      var hasBreaking, contributors, commitMap := Organize.OrganizeCommit(localWalk, handles);
    }
    var texts := RenderUnits(units, baseurl, prefix, c2t);
    out := Printed(texts);
  }

  /** `gitt` from `list_tags` on, composed of the operations above. */
  method GittRun(
    names: seq<string>, resolve: map<string, string>, from: Option<string>,
    headWalk: seq<string>, head: string, matching: seq<string>, revparse: map<string, string>,
    toCommit: Option<string>, walk: seq<string>, remoteUrl: Option<string>,
    pages: seq<seq<Record>>, localWalk: seq<Organize.LocalCommit>, handles: map<string, string>,
    prefix: string)
    returns (out: Outcome)
    ensures out == GittRunOf(names, resolve, from, headWalk, head, matching, revparse,
                             toCommit, walk, remoteUrl, pages, localWalk, prefix)
  {
    var tags := Tags.ListTags(names);
    var c2t, t2c := Tags.CommitTagMap(tags, resolve);
    var fromCommit := Range.FromCommit(from, headWalk, head, tags, matching, resolve, revparse);
    if fromCommit.None? || toCommit.None? {
      return Panicked;
    }
    var range := Range.GetRange(fromCommit.value, toCommit.value, walk, c2t);
    out := Gitt(range, remoteUrl, pages, localWalk, handles, prefix, c2t);
  }

  // ---------------------------------------------------------------------
  // Properties

  /** A remote that is not on GitHub, or no remote, yields no changelog at
      all once the range is usable, whatever the listing: the local walk
      only decides whether `organize_commit` panics. */
  lemma NonGithubPrintsNothing(
    range: seq<string>, remoteUrl: Option<string>, pages: seq<seq<Record>>,
    localWalk: seq<Organize.LocalCommit>, prefix: string, c2t: map<string, string>)
    requires |range| >= 2
    requires remoteUrl.None? || (Remote.ParseGitUrlAsWritten(remoteUrl.value).Some?
                                 && !Contains(Remote.ParseGitUrlAsWritten(remoteUrl.value).value.host, "github"))
    ensures GittOf(Range.Ok(range), remoteUrl, pages, localWalk, prefix, c2t)
            == if Organize.AllReadable(localWalk) then Printed([]) else Panicked
  {
  }

  /** On GitHub, whatever the local walk, a panic exactly when the page loop
      reads an empty message, and otherwise one text per unit of the listing,
      in order, each opening with the unit's `to` heading and its compare
      link, which sits under the base URL and so under its `/commit` path. */
  lemma GithubTextPerUnit(
    range: seq<string>, url: string, pages: seq<seq<Record>>, localWalk: seq<Organize.LocalCommit>,
    prefix: string, c2t: map<string, string>)
    requires |range| >= 2
    requires Remote.ParseGitUrlAsWritten(url).Some? && Contains(Remote.ParseGitUrlAsWritten(url).value.host, "github")
    ensures var st := RunPages(Init(range), pages, range);
            GittOf(Range.Ok(range), Some(url), pages, localWalk, prefix, c2t).Panicked? <==> st.panicked
    ensures var out := GittOf(Range.Ok(range), Some(url), pages, localWalk, prefix, c2t);
            var st := RunPages(Init(range), pages, range);
            var units := st.units;
            var l := Remote.ParseGitUrlAsWritten(url).value;
            !st.panicked ==>
            && out.Printed? && |out.changelogs| == |units|
            && forall k | 0 <= k < |units| ::
                 var names := Naming.GetName(units[k].fromCommit, units[k].toCommit, prefix,
                                             units[k].hasBreaking, units[k].commitMap, c2t);
                 StartsWith(out.changelogs[k],
                   Render.Heading(names.1)
                   + ("[compare changes](" + BaseUrl(Some(l)) + "/compare/" + names.0 + "..." + names.1 + ")\n"))
  {
    var l := Remote.ParseGitUrlAsWritten(url).value;
    var st := RunPages(Init(range), pages, range);
    if st.panicked {
      return;
    }
    var units := st.units;
    var baseurl := BaseUrl(Some(l));
    var f := u => UnitText(u, baseurl, prefix, c2t);
    var out := GittOf(Range.Ok(range), Some(url), pages, localWalk, prefix, c2t);
    assert out == Printed(MapSeq(units, f));
    MapSeqSpec(units, f);
    forall k | 0 <= k < |units|
      ensures var names := Naming.GetName(units[k].fromCommit, units[k].toCommit, prefix,
                                          units[k].hasBreaking, units[k].commitMap, c2t);
              StartsWith(out.changelogs[k],
                Render.Heading(names.1)
                + ("[compare changes](" + baseurl + "/compare/" + names.0 + "..." + names.1 + ")\n"))
    {
      var u := units[k];
      var names := Naming.GetName(u.fromCommit, u.toCommit, prefix, u.hasBreaking, u.commitMap, c2t);
      assert out.changelogs[k] == UnitText(u, baseurl, prefix, c2t);
      Render.ChangelogFrame(baseurl, names.1, names.0, u.commitMap, u.contributors);
    }
  }

  /** A boundary list with a single commit (the default `from` with nothing
      tagged in between) ends in a panic, whatever the remote. */
  lemma SingleBoundaryPanics(
    range: seq<string>, remoteUrl: Option<string>, pages: seq<seq<Record>>,
    localWalk: seq<Organize.LocalCommit>, prefix: string, c2t: map<string, string>)
    requires |range| < 2
    ensures GittOf(Range.Ok(range), remoteUrl, pages, localWalk, prefix, c2t) == Panicked
  {
  }
}
