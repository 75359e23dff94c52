/** What the segmentation loop guarantees: when units are pushed and what
    they hold, how `idx` moves, what one record does to the state, and when
    the loop stops. */
module PageLoopFacts {
  import opened Text
  import opened Entities
  import opened Subject
  import opened Trailer
  import opened Contributors
  import opened PageLoop

  function Min(a: nat, b: nat): nat { if a <= b then a else b }

  // ---------------------------------------------------------------------
  // One iteration

  /** A unit is pushed exactly on the iteration after the one that saw its
      `to` commit (the one that set `should_summary`), and what is pushed is
      the unit with its contributors merged; the iteration breaks out exactly
      when `over` was already set or, at a panic, when the record it reads
      has an empty message. */
  lemma StepPushes(st: LoopState, r: Record, range: seq<string>)
    requires Inv(st, range)
    ensures st.shouldSummary ==> Step(st, r, range).0.units == st.units + [Merged(st.unit, st.mailToLogin)]
    ensures !st.shouldSummary ==> Step(st, r, range).0.units == st.units
    ensures Step(st, r, range).1 <==> st.over || !Readable(r)
  {
  }

  /** `idx` advances only while it is below `range.len() - 2`; past that the
      unit is not reset and keeps collecting commits. */
  lemma FlushAdvances(st: LoopState, range: seq<string>)
    requires Inv(st, range)
    ensures Flush(st, range).idx == if st.idx < |range| - 2 then st.idx + 1 else st.idx
    ensures !Flush(st, range).shouldSummary
    ensures st.idx < |range| - 2 ==>
              Flush(st, range).unit == NewUnit(range[st.idx + 2], range[st.idx + 1])
    ensures st.idx == |range| - 2 ==> Flush(st, range).unit == Merged(st.unit, st.mailToLogin)
  {
  }

  /** What one record does once `over` is false: it sets `should_summary`
      when it is the unit's `to` commit and `over` when it is the last
      boundary; it records the committer's and then the author's login, so
      the author's wins for a shared mail, whether or not the subject parses;
      and it appends the commit to its type's bucket only when the subject
      parses, marking the unit breaking when the commit is. The boundaries,
      the contributors and the pushed units are untouched. */
  lemma AbsorbSpec(st: LoopState, r: Record, range: seq<string>, kind: string, mail: string)
    requires Inv(st, range) && Readable(r)
    ensures var st' := Absorb(st, r, range);
            && (st'.shouldSummary <==> st.shouldSummary || r.sha == st.unit.toCommit)
            && (st'.over <==> st.over || r.sha == range[|range| - 1])
            && Login(st'.mailToLogin, mail)
               == (if mail == r.authorMail then r.authorLogin
                   else if mail == r.committerMail then r.committerLogin
                   else Login(st.mailToLogin, mail))
            && Lookup(st'.unit.commitMap, kind)
               == (match Classify(r)
                   case None => Lookup(st.unit.commitMap, kind)
                   case Some(c) =>
                     if kind == c.kind then Some(CommitsOf(st.unit.commitMap, kind) + [c])
                     else Lookup(st.unit.commitMap, kind))
            && (st'.unit.hasBreaking
                <==> st.unit.hasBreaking || (Classify(r).Some? && Classify(r).value.isBreaking))
            && st'.unit.fromCommit == st.unit.fromCommit && st'.unit.toCommit == st.unit.toCommit
            && st'.unit.contributors == st.unit.contributors
            && st'.units == st.units && st'.idx == st.idx
  {
    AbsorbLogins(st, r, range, mail);
    AbsorbUnit(st, r, range, kind);
  }

  lemma AbsorbLogins(st: LoopState, r: Record, range: seq<string>, mail: string)
    requires Inv(st, range) && Readable(r)
    ensures Login(Absorb(st, r, range).mailToLogin, mail)
            == (if mail == r.authorMail then r.authorLogin
                else if mail == r.committerMail then r.committerLogin
                else Login(st.mailToLogin, mail))
  {
  }

  lemma AbsorbUnit(st: LoopState, r: Record, range: seq<string>, kind: string)
    requires Inv(st, range) && Readable(r)
    ensures var u := Absorb(st, r, range).unit;
            && Lookup(u.commitMap, kind)
               == (match Classify(r)
                   case None => Lookup(st.unit.commitMap, kind)
                   case Some(c) =>
                     if kind == c.kind then Some(CommitsOf(st.unit.commitMap, kind) + [c])
                     else Lookup(st.unit.commitMap, kind))
            && (u.hasBreaking <==> st.unit.hasBreaking || (Classify(r).Some? && Classify(r).value.isBreaking))
            && u.fromCommit == st.unit.fromCommit && u.toCommit == st.unit.toCommit
            && u.contributors == st.unit.contributors
  {
    if Classify(r).Some? {
      InsertLookup(st.unit.commitMap, Classify(r).value, kind);
    }
  }

  /** A record's commit lists the record's author, with the login the listing
      gives, ahead of one co-author per trailer line; it exists exactly when
      the first line of the message parses. */
  lemma ClassifySpec(r: Record)
    requires Readable(r)
    ensures Classify(r).None? <==> ParseFirstLine(Lines(r.message)[0]).None?
    ensures Classify(r).Some? ==>
              var c := Classify(r).value;
              && c.hash == r.sha
              && |c.authors| == 1 + TrailerLineCount(Lines(r.message))
              && c.authors[0] == Author(r.authorName, r.authorMail, r.authorLogin)
              && (forall j | 1 <= j < |c.authors| :: c.authors[j].username == "")
  {
    var head := [Author(r.authorName, r.authorMail, r.authorLogin)];
    CoAuthorsAppended(head, Lines(r.message));
  }

  // ---------------------------------------------------------------------
  // The chain of units

  /** The state invariant: `idx` counts the pushed units up to the cap, the
      current unit spans boundaries `idx + 1 .. idx`, the `k`-th pushed unit
      spans boundaries `min(k, len - 2) + 1 .. min(k, len - 2)`, and every unit
      keeps one bucket per type and one contributor per mail. */
  predicate Chain(st: LoopState, range: seq<string>) {
    && Inv(st, range)
    && st.idx == Min(|st.units|, |range| - 2)
    && Spans(st.unit, range, st.idx)
    && forall k | 0 <= k < |st.units| :: Spans(st.units[k], range, Min(k, |range| - 2))
  }

  /** `u` runs from boundary `i + 1` to boundary `i`, with one bucket per type
      and one contributor per mail. */
  predicate Spans(u: Unit, range: seq<string>, i: nat) {
    && i + 1 < |range|
    && u.toCommit == range[i] && u.fromCommit == range[i + 1]
    && DistinctKinds(u.commitMap) && DistinctMails(u.contributors)
  }

  lemma ChainInit(range: seq<string>)
    requires |range| >= 2
    ensures Chain(Init(range), range)
  {
  }

  lemma MergedKeepsChain(u: Unit, logins: map<string, string>)
    requires DistinctMails(u.contributors)
    ensures DistinctMails(Merged(u, logins).contributors)
    ensures Merged(u, logins).commitMap == u.commitMap
    ensures Merged(u, logins).toCommit == u.toCommit && Merged(u, logins).fromCommit == u.fromCommit
  {
    MergeAuthorsSpec(u.contributors, BucketAuthors(u.commitMap), logins);
  }

  lemma FlushKeepsChain(st: LoopState, range: seq<string>)
    requires Chain(st, range)
    ensures Chain(Flush(st, range), range)
  {
    var st1 := Flush(st, range);
    var n := |st.units|;
    MergedKeepsChain(st.unit, st.mailToLogin);
    assert Spans(st1.units[n], range, Min(n, |range| - 2));
    forall k | 0 <= k < n + 1 ensures Spans(st1.units[k], range, Min(k, |range| - 2)) {
      if k < n {
        assert st1.units[k] == st.units[k];
      }
    }
    if st.idx < |range| - 2 {
      assert Spans(st1.unit, range, st1.idx);
    }
  }

  lemma AbsorbKeepsChain(st: LoopState, r: Record, range: seq<string>)
    requires Chain(st, range) && Readable(r)
    ensures Chain(Absorb(st, r, range), range)
  {
    AbsorbSpec(st, r, range, "", "");
    if Classify(r).Some? {
      InsertKinds(st.unit.commitMap, Classify(r).value);
    }
  }

  lemma ChainStep(st: LoopState, r: Record, range: seq<string>)
    requires Chain(st, range) && Readable(r)
    ensures Chain(Step(st, r, range).0, range)
  {
    var st1 := if st.shouldSummary then Flush(st, range) else st;
    if st.shouldSummary {
      FlushKeepsChain(st, range);
    }
    if !st1.over {
      AbsorbKeepsChain(st1, r, range);
    }
  }

  lemma {:induction false} ChainRunPage(st: LoopState, page: seq<Record>, range: seq<string>)
    requires Chain(st, range) && AllReadable(page)
    ensures Chain(RunPage(st, page, range), range)
    decreases |page|
  {
    if page != [] {
      ChainStep(st, page[0], range);
      var res := Step(st, page[0], range);
      if !res.1 {
        assert AllReadable(page[1..]) by {
          forall i | 0 <= i < |page| - 1 ensures Readable(page[1..][i]) {
            assert page[1..][i] == page[i + 1];
          }
        }
        ChainRunPage(res.0, page[1..], range);
      }
    }
  }

  lemma {:induction false} ChainRunPages(st: LoopState, pages: seq<seq<Record>>, range: seq<string>)
    requires Chain(st, range) && AllPagesReadable(pages)
    ensures Chain(RunPages(st, pages, range), range)
    decreases |pages|
  {
    if pages != [] {
      ChainRunPage(st, pages[0], range);
      var st1 := RunPage(st, pages[0], range);
      if !(|pages[0]| < PageSize || st1.over || st1.panicked) {
        assert AllPagesReadable(pages[1..]) by {
          forall p | 0 <= p < |pages| - 1 ensures AllReadable(pages[1..][p]) {
            assert pages[1..][p] == pages[p + 1];
          }
        }
        ChainRunPages(st1, pages[1..], range);
      }
    }
  }

  /** The units the loop produces: the `k`-th runs from boundary
      `min(k, len - 2) + 1` to boundary `min(k, len - 2)` (consecutive pairs of
      the boundary list, the last pair repeated once `idx` is capped), each
      with one bucket per type and one contributor per mail. */
  lemma SegmentsChain(range: seq<string>, pages: seq<seq<Record>>)
    requires |range| >= 2 && AllPagesReadable(pages)
    ensures var units := RunPages(Init(range), pages, range).units;
            forall k | 0 <= k < |units| ::
              && units[k].toCommit == range[Min(k, |range| - 2)]
              && units[k].fromCommit == range[Min(k, |range| - 2) + 1]
              && DistinctKinds(units[k].commitMap) && DistinctMails(units[k].contributors)
  {
    ChainInit(range);
    ChainRunPages(Init(range), pages, range);
    var units := RunPages(Init(range), pages, range).units;
    forall k | 0 <= k < |units|
      ensures && units[k].toCommit == range[Min(k, |range| - 2)]
              && units[k].fromCommit == range[Min(k, |range| - 2) + 1]
              && DistinctKinds(units[k].commitMap) && DistinctMails(units[k].contributors)
    {
      assert Spans(units[k], range, Min(k, |range| - 2));
    }
  }

  // ---------------------------------------------------------------------
  // Stopping

  /** Pushed units are never altered or dropped: later records only append. */
  lemma {:induction false} UnitsKeptOnPage(st: LoopState, page: seq<Record>, range: seq<string>, prefix: seq<Unit>)
    requires Inv(st, range) && AllReadable(page)
    requires |st.units| >= |prefix| && st.units[..|prefix|] == prefix
    ensures |RunPage(st, page, range).units| >= |prefix|
    ensures RunPage(st, page, range).units[..|prefix|] == prefix
    decreases |page|
  {
    if page != [] {
      var res := Step(st, page[0], range);
      assert res.0.units[..|prefix|] == prefix by {
        if st.shouldSummary {
          assert (st.units + [Merged(st.unit, st.mailToLogin)])[..|prefix|] == st.units[..|prefix|];
        }
      }
      if !res.1 {
        assert AllReadable(page[1..]) by {
          forall i | 0 <= i < |page| - 1 ensures Readable(page[1..][i]) {
            assert page[1..][i] == page[i + 1];
          }
        }
        UnitsKeptOnPage(res.0, page[1..], range, prefix);
      }
    }
  }

  lemma {:induction false} UnitsKept(st: LoopState, pages: seq<seq<Record>>, range: seq<string>)
    requires Inv(st, range) && AllPagesReadable(pages)
    ensures |RunPages(st, pages, range).units| >= |st.units|
    ensures RunPages(st, pages, range).units[..|st.units|] == st.units
    decreases |pages|
  {
    if pages != [] {
      UnitsKeptOnPage(st, pages[0], range, st.units);
      var st1 := RunPage(st, pages[0], range);
      if !(|pages[0]| < PageSize || st1.over || st1.panicked) {
        assert AllPagesReadable(pages[1..]) by {
          forall p | 0 <= p < |pages| - 1 ensures AllReadable(pages[1..][p]) {
            assert pages[1..][p] == pages[p + 1];
          }
        }
        UnitsKept(st1, pages[1..], range);
        assert st1.units[..|st.units|] == st.units;
        assert RunPages(st, pages, range).units[..|st.units|] == RunPages(st1, pages[1..], range).units[..|st1.units|][..|st.units|];
      }
    } else {
      assert st.units[..|st.units|] == st.units;
    }
  }

  /** Once `over` is set, the next record only completes a pending flush and
      the record loop breaks; the page loop then stops. The records from
      there on are never read, so their messages cannot make it panic. */
  lemma OverStops(st: LoopState, pages: seq<seq<Record>>, range: seq<string>)
    requires Inv(st, range) && st.over && pages != []
    ensures pages[0] != [] ==>
              RunPage(st, pages[0], range) == if st.shouldSummary then Flush(st, range) else st
    ensures RunPages(st, pages, range) == RunPage(st, pages[0], range)
    ensures RunPages(st, pages, range).panicked == st.panicked
  {
  }

  /** The record of the last boundary ends the reading: after it, whatever
      the messages of the records that follow on its page, the loop only
      completes a pending flush and does not panic. */
  lemma LastBoundaryEndsReading(st: LoopState, r: Record, rest: seq<Record>, range: seq<string>)
    requires Inv(st, range) && !st.over && !st.panicked && Readable(r) && r.sha == range[|range| - 1]
    requires rest != []
    ensures var st1 := Step(st, r, range).0;
            && st1.over && !Step(st, r, range).1
            && RunPage(st, [r] + rest, range) == (if st1.shouldSummary then Flush(st1, range) else st1)
            && !RunPage(st, [r] + rest, range).panicked
  {
    var res := Step(st, r, range);
    var st1 := if st.shouldSummary then Flush(st, range) else st;
    assert res == (Absorb(st1, r, range), false);
    assert ([r] + rest)[0] == r && ([r] + rest)[1..] == rest;
    assert Step(res.0, rest[0], range).1;
  }

  /** A page shorter than `per_page` is the last one read. */
  lemma ShortPageStops(st: LoopState, pages: seq<seq<Record>>, range: seq<string>)
    requires Inv(st, range) && pages != [] && |pages[0]| < PageSize
    ensures RunPages(st, pages, range) == RunPage(st, pages[0], range)
  {
  }

  /** The record of the last boundary is still bucketed, and sets `over`. */
  lemma LastBoundaryProcessed(st: LoopState, r: Record, range: seq<string>)
    requires Inv(st, range) && Readable(r) && !st.over && !st.shouldSummary
    requires r.sha == range[|range| - 1] && Classify(r).Some?
    ensures !Step(st, r, range).1 && Step(st, r, range).0.over
    ensures Classify(r).value in CommitsOf(Step(st, r, range).0.unit.commitMap, Classify(r).value.kind)
  {
    var c := Classify(r).value;
    AbsorbSpec(st, r, range, c.kind, "");
    assert CommitsOf(Step(st, r, range).0.unit.commitMap, c.kind) == CommitsOf(st.unit.commitMap, c.kind) + [c];
  }

  /** A unit whose `to` commit is the last record read is never pushed: the
      push waits for a following record. */
  lemma PendingUnitLost(st: LoopState, r: Record, range: seq<string>)
    requires Inv(st, range) && Readable(r) && !st.over && !st.shouldSummary
    requires r.sha == st.unit.toCommit
    ensures RunPage(st, [r], range).units == st.units
    ensures RunPage(st, [r], range).shouldSummary
  {
    assert [r][1..] == [];
  }
}
