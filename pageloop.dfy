/** The segmentation loop `gitt` runs over the GitHub commit listing when the
    remote is hosted on GitHub: it walks the listing page by page, buckets
    each classifiable commit into the current unit, records each author's and
    committer's login, and snapshots the unit one record after the record of
    its `to` commit, moving on to the next pair of boundaries while there is
    one. The listing is a sequence of pages of records; the `gh` call and the
    JSON decoding are not part of this model. */
module PageLoop {
  import opened Text
  import opened Entities
  import opened Subject
  import opened Trailer
  import opened Contributors

  /** One element of the listing, reduced to the fields the loop reads; an
      absent `author`/`committer` account has the empty login. */
  datatype Record = Record(
    sha: string, authorName: string, authorMail: string, authorLogin: string,
    committerMail: string, committerLogin: string, message: string)

  /** The `per_page` the listing is requested with: a shorter page is the last. */
  const PageSize: nat := 100

  /** The loop's mutable state: `idx`, `should_summary`, `over`,
      `changelog_unit`, `changelog_units` and `mail_to_login`; `panicked`
      records that the loop read a record whose message has no first line,
      where the source panics. */
  datatype LoopState = LoopState(
    idx: nat, shouldSummary: bool, over: bool, unit: Unit, units: seq<Unit>,
    mailToLogin: map<string, string>, panicked: bool)

  /** The boundary list has a first pair and `idx` names a pair of it. */
  predicate Inv(st: LoopState, range: seq<string>) {
    |range| >= 2 && st.idx <= |range| - 2
  }

  /** `message.lines().next().unwrap()` needs a nonempty message. */
  predicate Readable(r: Record) { r.message != "" }

  function Init(range: seq<string>): (st: LoopState)
    requires |range| >= 2
    ensures Inv(st, range)
  {
    LoopState(0, false, false, NewUnit(range[1], range[0]), [], map[], false)
  }

  /** The commit a record contributes: its author first, then the co-authors
      of its message, classified by the first line; `None` when the first
      line does not parse. */
  function Classify(r: Record): Option<Commit>
    requires Readable(r)
  {
    var authors := [Author(r.authorName, r.authorMail, r.authorLogin)] + CoAuthorsOf(Lines(r.message));
    match ParseFirstLine(Lines(r.message)[0])
    case None => None
    case Some(p) => Some(Commit(r.sha, p.emoji, p.kind, p.scope, p.description, p.isBreaking, authors))
  }

  /** Appending a commit to its type's bucket; a breaking commit marks the
      unit. */
  function AddCommit(u: Unit, c: Commit): Unit {
    u.(commitMap := Insert(u.commitMap, c), hasBreaking := u.hasBreaking || c.isBreaking)
  }

  /** The flush at the start of an iteration after the `to` commit: the unit,
      with its contributors merged, is pushed, and the next unit starts when
      `idx < range.len() - 2`; otherwise the current unit carries on. */
  function Flush(st: LoopState, range: seq<string>): (st': LoopState)
    requires Inv(st, range)
    ensures Inv(st', range)
  {
    var snapshot := Merged(st.unit, st.mailToLogin);
    var units := st.units + [snapshot];
    if st.idx < |range| - 2 then
      LoopState(st.idx + 1, false, st.over, NewUnit(range[st.idx + 2], range[st.idx + 1]), units, st.mailToLogin, st.panicked)
    else
      LoopState(st.idx, false, st.over, snapshot, units, st.mailToLogin, st.panicked)
  }

  /** The rest of an iteration once `over` is known to be false. */
  function Absorb(st: LoopState, r: Record, range: seq<string>): (st': LoopState)
    requires Inv(st, range) && Readable(r)
    ensures Inv(st', range)
  {
    var logins := st.mailToLogin[r.committerMail := r.committerLogin][r.authorMail := r.authorLogin];
    var unit := match Classify(r) case None => st.unit case Some(c) => AddCommit(st.unit, c);
    LoopState(
      st.idx, st.shouldSummary || r.sha == st.unit.toCommit, st.over || r.sha == range[|range| - 1],
      unit, st.units, logins, st.panicked)
  }

  /** One iteration of the record loop; the flag says whether it broke out.
      Past the `over` check the message's first line is taken, which panics
      on an empty message. */
  function Step(st: LoopState, r: Record, range: seq<string>): (res: (LoopState, bool))
    requires Inv(st, range)
    ensures Inv(res.0, range)
    ensures res.0.panicked <==> st.panicked || (!st.over && !Readable(r))
  {
    var st1 := if st.shouldSummary then Flush(st, range) else st;
    if st1.over then (st1, true)
    else if !Readable(r) then (st1.(panicked := true), true)
    else (Absorb(st1, r, range), false)
  }

  predicate AllReadable(page: seq<Record>) {
    forall i | 0 <= i < |page| :: Readable(page[i])
  }

  /** The record loop over one page. It panics only on a record it reads,
      and so never on a page of readable records. */
  function RunPage(st: LoopState, page: seq<Record>, range: seq<string>): (st': LoopState)
    requires Inv(st, range)
    ensures Inv(st', range)
    ensures st'.panicked ==> st.panicked || exists i | 0 <= i < |page| :: !Readable(page[i])
    decreases |page|
  {
    if page == [] then st
    else
      var res := Step(st, page[0], range);
      if res.1 then res.0
      else
        var st' := RunPage(res.0, page[1..], range);
        assert st'.panicked ==> st.panicked || exists i | 0 <= i < |page| :: !Readable(page[i]) by {
          if st'.panicked && !st.panicked {
            var i :| 0 <= i < |page| - 1 && !Readable(page[1..][i]);
            assert page[1..][i] == page[i + 1];
          }
        }
        st'
  }

  predicate AllPagesReadable(pages: seq<seq<Record>>) {
    forall p | 0 <= p < |pages| :: AllReadable(pages[p])
  }

  /** The page loop: it stops after a short page, once `over` is set, or at
      a panic. */
  function RunPages(st: LoopState, pages: seq<seq<Record>>, range: seq<string>): (st': LoopState)
    requires Inv(st, range)
    ensures Inv(st', range)
    ensures st'.panicked ==> st.panicked || !AllPagesReadable(pages)
    decreases |pages|
  {
    if pages == [] then st
    else
      var st1 := RunPage(st, pages[0], range);
      if |pages[0]| < PageSize || st1.over || st1.panicked then st1
      else
        var st' := RunPages(st1, pages[1..], range);
        assert st'.panicked ==> st.panicked || !AllPagesReadable(pages) by {
          if st'.panicked && !st.panicked && !st1.panicked {
            var p :| 0 <= p < |pages| - 1 && !AllReadable(pages[1..][p]);
            assert pages[1..][p] == pages[p + 1];
          }
        }
        st'
  }

  // ---------------------------------------------------------------------
  // The loop as the source writes it

  /** The head of an iteration: the flush, when one is due. */
  method FlushIfDue(st: LoopState, range: seq<string>) returns (st': LoopState)
    requires Inv(st, range)
    ensures st' == if st.shouldSummary then Flush(st, range) else st
  {
    st' := st;
    if st'.shouldSummary {
      st' := st'.(shouldSummary := false);
      var unit := MergeContributors(st'.unit, st'.mailToLogin);
      st' := st'.(units := st'.units + [unit], unit := unit);
      if st'.idx < |range| - 2 {
        st' := st'.(idx := st'.idx + 1);
        st' := st'.(unit := NewUnit(range[st'.idx + 1], range[st'.idx]));
      }
    }
  }

  /** The body of an iteration after the `over` check. */
  method AbsorbRecord(st: LoopState, record: Record, range: seq<string>) returns (st': LoopState)
    requires Inv(st, range) && Readable(record)
    ensures st' == Absorb(st, record, range)
  {
    var shouldSummary, over := st.shouldSummary, st.over;
    if record.sha == st.unit.toCommit {
      shouldSummary := true;
    }
    if record.sha == range[|range| - 1] {
      over := true;
    }
    var mailToLogin := st.mailToLogin[record.committerMail := record.committerLogin];
    mailToLogin := mailToLogin[record.authorMail := record.authorLogin];
    var authors := ParseAuthorFromBody(record.message, [Author(record.authorName, record.authorMail, record.authorLogin)]);
    var unit := st.unit;
    var parsed := ParseFirstLine(Lines(record.message)[0]);
    if parsed.Some? {
      var p := parsed.value;
      var commit := Commit(record.sha, p.emoji, p.kind, p.scope, p.description, p.isBreaking, authors);
      assert Classify(record) == Some(commit);
      unit := unit.(commitMap := Insert(unit.commitMap, commit));
      if commit.isBreaking {
        unit := unit.(hasBreaking := true);
      }
    }
    st' := st.(shouldSummary := shouldSummary, over := over, unit := unit, mailToLogin := mailToLogin);
  }

  /** The record loop of one page; a panic sets `panicked` and ends it. */
  method ProcessPage(st0: LoopState, page: seq<Record>, range: seq<string>) returns (st: LoopState)
    requires Inv(st0, range)
    ensures st == RunPage(st0, page, range)
  {
    st := st0;
    var i := 0;
    while i < |page|
      invariant i <= |page|
      invariant Inv(st, range)
      invariant RunPage(st, page[i..], range) == RunPage(st0, page, range)
    {
      assert page[i..][0] == page[i] && page[i..][1..] == page[i + 1..];
      st := FlushIfDue(st, range);
      if st.over {
        break;
      }
      if page[i].message == "" {
        st := st.(panicked := true);
        break;
      }
      st := AbsorbRecord(st, page[i], range);
      i := i + 1;
    }
  }

  /** The page loop of `gitt`; returns `changelog_units`, or `None` when it
      panics. */
  method SegmentListing(range: seq<string>, pages: seq<seq<Record>>) returns (units: Option<seq<Unit>>)
    requires |range| >= 2
    ensures var st := RunPages(Init(range), pages, range);
            units == if st.panicked then None else Some(st.units)
  {
    var st := Init(range);
    var p := 0;
    while p < |pages|
      invariant p <= |pages|
      invariant Inv(st, range)
      invariant RunPages(st, pages[p..], range) == RunPages(Init(range), pages, range)
    {
      assert pages[p..][0] == pages[p] && pages[p..][1..] == pages[p + 1..];
      var page := pages[p];
      st := ProcessPage(st, page, range);
      if |page| < PageSize {
        break;
      }
      if st.over {
        break;
      }
      if st.panicked {
        break;
      }
      p := p + 1;
    }
    units := if st.panicked then None else Some(st.units);
  }
}
