/** What the segmentation loop puts in each unit. The listing is cut into
    blocks: block `k` ends at the record of boundary `k` and starts just after
    the record of boundary `k - 1` (block 0 starts at the first record of the
    listing). Unit `k`, labelled from boundary `k + 1` to boundary `k`, holds
    the classified commits of block `k` and nothing else. */
module Segments {
  import opened Text
  import opened Entities
  import opened PageLoop
  import opened Contributors
  import opened PageLoopFacts

  lemma ReadableSuffix(rs: seq<Record>, i: nat)
    requires AllReadable(rs) && i <= |rs|
    ensures AllReadable(rs[i..])
  {
    forall j | 0 <= j < |rs| - i ensures Readable(rs[i..][j]) {
      assert rs[i..][j] == rs[i + j];
    }
  }

  lemma ReadableConcat(p: seq<Record>, q: seq<Record>)
    ensures AllReadable(p + q) <==> AllReadable(p) && AllReadable(q)
  {
    if AllReadable(p + q) {
      forall j | 0 <= j < |p| ensures Readable(p[j]) {
        assert (p + q)[j] == p[j];
      }
      forall j | 0 <= j < |q| ensures Readable(q[j]) {
        assert (p + q)[|p| + j] == q[j];
      }
    }
    if AllReadable(p) && AllReadable(q) {
      forall j | 0 <= j < |p + q| ensures Readable((p + q)[j]) {
        if j < |p| { assert (p + q)[j] == p[j]; } else { assert (p + q)[j] == q[j - |p|]; }
      }
    }
  }

  /** The records of the pages (or blocks) one after the other. */
  function Concat(ss: seq<seq<Record>>): seq<Record> {
    if ss == [] then [] else ss[0] + Concat(ss[1..])
  }

  lemma {:induction false} ConcatReadable(ss: seq<seq<Record>>)
    requires AllPagesReadable(ss)
    ensures AllReadable(Concat(ss))
  {
    if ss != [] {
      assert AllPagesReadable(ss[1..]) by {
        forall p | 0 <= p < |ss| - 1 ensures AllReadable(ss[1..][p]) {
          assert ss[1..][p] == ss[p + 1];
        }
      }
      ConcatReadable(ss[1..]);
      ReadableConcat(ss[0], Concat(ss[1..]));
    }
  }

  /** The buckets after one record: its commit appended when its subject
      parses. */
  function Bucketed(m: seq<Bucket>, r: Record): seq<Bucket>
    requires Readable(r)
  {
    match Classify(r) case None => m case Some(c) => Insert(m, c)
  }

  /** The record's commit when its subject parses and its type is `kind`. */
  function ClassifiedOne(r: Record, kind: string): seq<Commit>
    requires Readable(r)
  {
    match Classify(r) case None => [] case Some(c) => if c.kind == kind then [c] else []
  }

  /** The buckets `m` becomes when the records `rs` are bucketed in order. */
  function Fill(m: seq<Bucket>, rs: seq<Record>): seq<Bucket>
    requires AllReadable(rs)
    decreases |rs|
  {
    if rs == [] then m
    else
      ReadableSuffix(rs, 1);
      Fill(Bucketed(m, rs[0]), rs[1..])
  }

  /** The commits of `rs` whose subject parses and whose type is `kind`, in
      listing order. */
  function Classified(rs: seq<Record>, kind: string): seq<Commit>
    requires AllReadable(rs)
    decreases |rs|
  {
    if rs == [] then []
    else
      ReadableSuffix(rs, 1);
      ClassifiedOne(rs[0], kind) + Classified(rs[1..], kind)
  }

  lemma BucketedCommits(m: seq<Bucket>, r: Record, kind: string)
    requires Readable(r)
    ensures CommitsOf(Bucketed(m, r), kind) == CommitsOf(m, kind) + ClassifiedOne(r, kind)
  {
    if Classify(r).Some? {
      InsertLookup(m, Classify(r).value, kind);
    }
  }

  lemma Regroup(a: seq<Commit>, b: seq<Commit>, c: seq<Commit>)
    ensures (a + b) + c == a + (b + c)
  {
  }

  /** Bucketing records appends each type's classified commits to its bucket. */
  lemma {:induction false} FillCommits(m: seq<Bucket>, rs: seq<Record>, kind: string)
    requires AllReadable(rs)
    ensures CommitsOf(Fill(m, rs), kind) == CommitsOf(m, kind) + Classified(rs, kind)
    decreases |rs|
  {
    if rs != [] {
      ReadableSuffix(rs, 1);
      var m' := Bucketed(m, rs[0]);
      BucketedCommits(m, rs[0], kind);
      FillCommits(m', rs[1..], kind);
      Regroup(CommitsOf(m, kind), ClassifiedOne(rs[0], kind), Classified(rs[1..], kind));
    }
  }

  /** No record of `rs` is the last boundary, so none sets `over`. */
  predicate NoLastBoundary(rs: seq<Record>, range: seq<string>)
    requires |range| > 0
  {
    forall j | 0 <= j < |rs| :: rs[j].sha != range[|range| - 1]
  }

  /** `b` is the stretch of the listing that unit `k` collects: it ends at the
      record of boundary `k`, holds no earlier record of it, and no record of
      the last boundary. */
  predicate Block(b: seq<Record>, range: seq<string>, k: nat)
    requires k < |range|
  {
    && b != [] && AllReadable(b)
    && b[|b| - 1].sha == range[k]
    && (forall j | 0 <= j < |b| - 1 :: b[j].sha != range[k])
    && NoLastBoundary(b, range)
  }

  /** Consecutive blocks for the units `i`, `i + 1`, ... */
  predicate Blocks(blocks: seq<seq<Record>>, range: seq<string>, i: nat)
    decreases |blocks|
  {
    && i + |blocks| < |range|
    && (blocks != [] ==> Block(blocks[0], range, i) && Blocks(blocks[1..], range, i + 1))
  }

  lemma {:induction false} BlocksReadable(blocks: seq<seq<Record>>, range: seq<string>, i: nat)
    requires Blocks(blocks, range, i)
    ensures AllPagesReadable(blocks)
    decreases |blocks|
  {
    if blocks != [] {
      BlocksReadable(blocks[1..], range, i + 1);
      forall p | 1 <= p < |blocks| ensures AllReadable(blocks[p]) {
        assert blocks[p] == blocks[1..][p - 1];
      }
    }
  }

  // ---------------------------------------------------------------------
  // Steps

  /** Records before the last boundary's never end the loop, so running two
      stretches of records is running one after the other. */
  lemma {:induction false} RunPageAppend(st: LoopState, p: seq<Record>, q: seq<Record>, range: seq<string>)
    requires Inv(st, range) && AllReadable(p) && AllReadable(q) && !st.over
    requires NoLastBoundary(p, range)
    ensures AllReadable(p + q)
    ensures !RunPage(st, p, range).over
    ensures RunPage(st, p + q, range) == RunPage(RunPage(st, p, range), q, range)
    decreases |p|
  {
    ReadableConcat(p, q);
    if p == [] {
      assert p + q == q;
    } else {
      var res := Step(st, p[0], range);
      assert !res.1 && !res.0.over;
      assert (p + q)[0] == p[0];
      assert (p + q)[1..] == p[1..] + q;
      ReadableSuffix(p, 1);
      RunPageAppend(res.0, p[1..], q, range);
    }
  }

  /** A pending flush happens before the next record whoever runs it. */
  lemma FlushFirst(st: LoopState, rs: seq<Record>, range: seq<string>)
    requires Inv(st, range) && AllReadable(rs) && rs != [] && st.shouldSummary && !st.over
    ensures RunPage(st, rs, range) == RunPage(Flush(st, range), rs, range)
  {
    assert Step(st, rs[0], range) == Step(Flush(st, range), rs[0], range);
  }

  /** A block fills the current unit with its classified commits and leaves
      the unit's flush pending. */
  lemma {:induction false} BlockRun(st: LoopState, b: seq<Record>, range: seq<string>, k: nat)
    requires Inv(st, range) && !st.over && !st.shouldSummary
    requires k < |range| && st.unit.toCommit == range[k] && Block(b, range, k)
    ensures var st' := RunPage(st, b, range);
            && st'.units == st.units && st'.idx == st.idx && !st'.over && st'.shouldSummary
            && st'.unit.toCommit == st.unit.toCommit
            && st'.unit.commitMap == Fill(st.unit.commitMap, b)
    decreases |b|
  {
    ReadableSuffix(b, 1);
    var next := Absorb(st, b[0], range);
    assert Step(st, b[0], range) == (next, false);
    if |b| > 1 {
      assert Block(b[1..], range, k) by {
        forall j | 0 <= j < |b| - 2 ensures b[1..][j].sha != range[k] {
          assert b[1..][j] == b[j + 1];
        }
        assert b[1..][|b| - 2] == b[|b| - 1];
      }
      BlockRun(next, b[1..], range, k);
    }
  }

  /** A fresh unit's block, then one more record: the unit is pushed holding
      the block's commits, and the next unit starts fresh when there is one. */
  lemma FirstBlockPushed(st: LoopState, b: seq<Record>, rest: seq<Record>, range: seq<string>)
    returns (fl: LoopState)
    requires Inv(st, range) && !st.over && !st.shouldSummary
    requires st.unit.toCommit == range[st.idx] && st.unit.commitMap == []
    requires Block(b, range, st.idx) && AllReadable(rest) && rest != []
    ensures AllReadable(b + rest) && Inv(fl, range)
    ensures && RunPage(st, b + rest, range) == RunPage(fl, rest, range)
            && |fl.units| == |st.units| + 1
            && |RunPage(fl, rest, range).units| > |st.units|
            && RunPage(fl, rest, range).units[|st.units|].commitMap == Fill([], b)
            && !fl.over && !fl.shouldSummary
            && (st.idx < |range| - 2 ==>
                  fl.idx == st.idx + 1 && fl.unit.toCommit == range[fl.idx] && fl.unit.commitMap == [])
  {
    RunPageAppend(st, b, rest, range);
    BlockRun(st, b, range, st.idx);
    var pending := RunPage(st, b, range);
    FlushFirst(pending, rest, range);
    FlushFresh(pending, range);
    fl := Flush(pending, range);
    UnitsKeptOnPage(fl, rest, range, fl.units);
    var units := RunPage(fl, rest, range).units;
    assert units[|st.units|] == units[..|fl.units|][|st.units|];
  }

  /** A flush pushes the unit with its buckets and, while there is a next
      pair of boundaries, starts an empty unit for it. */
  lemma FlushFresh(p: LoopState, range: seq<string>)
    requires Inv(p, range) && !p.over
    ensures var fl := Flush(p, range);
            && |fl.units| == |p.units| + 1 && fl.units[..|p.units|] == p.units
            && fl.units[|p.units|].commitMap == p.unit.commitMap
            && !fl.over && !fl.shouldSummary
            && (p.idx < |range| - 2 ==>
                  fl.idx == p.idx + 1 && fl.unit.toCommit == range[fl.idx] && fl.unit.commitMap == [])
  {
    var fl := Flush(p, range);
    assert fl.units == p.units + [Merged(p.unit, p.mailToLogin)];
    assert fl.units[..|p.units|] == p.units;
  }

  /** The units from `off` on hold the blocks' commits, one block each. */
  predicate HoldsBlocks(units: seq<Unit>, off: nat, blocks: seq<seq<Record>>)
    requires AllPagesReadable(blocks)
  {
    && off + |blocks| <= |units|
    && forall k | 0 <= k < |blocks| :: units[off + k].commitMap == Fill([], blocks[k])
  }

  lemma HoldsBlocksCons(units: seq<Unit>, off: nat, blocks: seq<seq<Record>>)
    requires AllPagesReadable(blocks) && blocks != [] && off < |units|
    requires units[off].commitMap == Fill([], blocks[0])
    requires AllPagesReadable(blocks[1..]) && HoldsBlocks(units, off + 1, blocks[1..])
    ensures HoldsBlocks(units, off, blocks)
  {
    forall k | 1 <= k < |blocks| ensures units[off + k].commitMap == Fill([], blocks[k]) {
      assert blocks[1..][k - 1] == blocks[k];
      assert off + k == (off + 1) + (k - 1);
    }
  }

  lemma BlocksSplit(blocks: seq<seq<Record>>, tail: seq<Record>, range: seq<string>, i: nat)
    requires Blocks(blocks, range, i) && blocks != [] && AllReadable(tail) && tail != []
    ensures Blocks(blocks[1..], range, i + 1)
    ensures AllPagesReadable(blocks[1..]) && AllReadable(Concat(blocks[1..]) + tail)
    ensures Concat(blocks) + tail == blocks[0] + (Concat(blocks[1..]) + tail)
    ensures Concat(blocks[1..]) + tail != []
  {
    BlocksReadable(blocks[1..], range, i + 1);
    ConcatReadable(blocks[1..]);
    ReadableConcat(Concat(blocks[1..]), tail);
  }

  /** From a fresh unit for boundary `idx`, blocks for the units `idx`,
      `idx + 1`, ... followed by at least one more record push units holding
      exactly those blocks' commits. */
  lemma {:induction false} BlocksRun(st: LoopState, blocks: seq<seq<Record>>, tail: seq<Record>, range: seq<string>)
    requires Inv(st, range) && !st.over && !st.shouldSummary
    requires st.unit.toCommit == range[st.idx] && st.unit.commitMap == []
    requires Blocks(blocks, range, st.idx) && AllReadable(tail) && (blocks != [] ==> tail != [])
    ensures AllPagesReadable(blocks) && AllReadable(Concat(blocks) + tail)
    ensures HoldsBlocks(RunPage(st, Concat(blocks) + tail, range).units, |st.units|, blocks)
    decreases |blocks|
  {
    BlocksReadable(blocks, range, st.idx);
    ConcatReadable(blocks);
    ReadableConcat(Concat(blocks), tail);
    if blocks == [] {
      assert Concat(blocks) + tail == tail;
      UnitsKeptOnPage(st, tail, range, st.units);
    } else {
      var rest := Concat(blocks[1..]) + tail;
      BlocksSplit(blocks, tail, range, st.idx);
      var fl := FirstBlockPushed(st, blocks[0], rest, range);
      if blocks[1..] != [] {
        assert st.idx < |range| - 2 by { assert |blocks| >= 2; }
        BlocksRun(fl, blocks[1..], tail, range);
      }
      HoldsBlocksCons(RunPage(fl, rest, range).units, |st.units|, blocks);
    }
  }

  /** Pages before the last are full and hold no record of the last boundary,
      so the page loop runs their records as one stretch. */
  predicate FullPages(pages: seq<seq<Record>>, range: seq<string>)
    requires |range| > 0
  {
    forall p | 0 <= p < |pages| - 1 :: |pages[p]| >= PageSize && NoLastBoundary(pages[p], range)
  }

  lemma {:induction false} RunPagesFlat(st: LoopState, pages: seq<seq<Record>>, range: seq<string>)
    requires Inv(st, range) && AllPagesReadable(pages) && !st.over && !st.panicked && FullPages(pages, range)
    ensures AllReadable(Concat(pages))
    ensures RunPages(st, pages, range) == RunPage(st, Concat(pages), range)
    decreases |pages|
  {
    ConcatReadable(pages);
    if |pages| == 1 {
      assert pages[1..] == [] && Concat(pages[1..]) == [];
      assert Concat(pages) == pages[0] + [] == pages[0];
      var st1 := RunPage(st, pages[0], range);
      assert RunPages(st1, pages[1..], range) == st1;
    } else if |pages| > 1 {
      assert AllPagesReadable(pages[1..]) && FullPages(pages[1..], range) by {
        forall p | 0 <= p < |pages| - 1 ensures pages[1..][p] == pages[p + 1] { }
      }
      ConcatReadable(pages[1..]);
      RunPageAppend(st, pages[0], Concat(pages[1..]), range);
      assert !RunPage(st, pages[0], range).panicked;
      RunPagesFlat(RunPage(st, pages[0], range), pages[1..], range);
    }
  }

  // ---------------------------------------------------------------------
  // The whole run

  /** Over the whole listing: when it is cut into blocks for the units `0`,
      `1`, ... followed by at least one record, unit `k` runs from boundary
      `k + 1` to boundary `k` and its buckets hold exactly the classified
      commits of block `k` — the records after boundary `k - 1`'s record up
      to and including boundary `k`'s record — in listing order. */
  lemma SegmentContents(range: seq<string>, pages: seq<seq<Record>>, blocks: seq<seq<Record>>, tail: seq<Record>, kind: string)
    requires |range| >= 2 && AllPagesReadable(pages) && FullPages(pages, range)
    requires Blocks(blocks, range, 0) && (blocks != [] ==> tail != [])
    requires Concat(pages) == Concat(blocks) + tail
    ensures AllPagesReadable(blocks)
    ensures var units := RunPages(Init(range), pages, range).units;
            && |units| >= |blocks|
            && forall k | 0 <= k < |blocks| ::
                 && units[k].toCommit == range[k] && units[k].fromCommit == range[k + 1]
                 && units[k].commitMap == Fill([], blocks[k])
                 && CommitsOf(units[k].commitMap, kind) == Classified(blocks[k], kind)
  {
    ListingHoldsBlocks(range, pages, blocks, tail);
    ChainInit(range);
    ChainRunPages(Init(range), pages, range);
    var units := RunPages(Init(range), pages, range).units;
    forall k | 0 <= k < |blocks|
      ensures && units[k].toCommit == range[k] && units[k].fromCommit == range[k + 1]
              && CommitsOf(units[k].commitMap, kind) == Classified(blocks[k], kind)
    {
      assert k < |units| && Min(k, |range| - 2) == k;
      assert Spans(units[k], range, k);
      FillCommits([], blocks[k], kind);
    }
  }

  /** The page loop over the whole listing pushes units holding the blocks. */
  lemma ListingHoldsBlocks(range: seq<string>, pages: seq<seq<Record>>, blocks: seq<seq<Record>>, tail: seq<Record>)
    requires |range| >= 2 && AllPagesReadable(pages) && FullPages(pages, range)
    requires Blocks(blocks, range, 0) && (blocks != [] ==> tail != [])
    requires Concat(pages) == Concat(blocks) + tail
    ensures AllPagesReadable(blocks)
    ensures HoldsBlocks(RunPages(Init(range), pages, range).units, 0, blocks)
  {
    var st := Init(range);
    RunPagesFlat(st, pages, range);
    BlocksReadable(blocks, range, 0);
    ConcatReadable(blocks);
    ReadableConcat(Concat(blocks), tail);
    BlocksRun(st, blocks, tail, range);
  }

  /** The listing starts at the record of boundary 0, so the first unit
      holds that record's commit and nothing else, while its `from`..`to`
      labels name the stretch of history before it. */
  lemma FirstUnitOnlyItsTo(range: seq<string>, pages: seq<seq<Record>>, kind: string)
    requires |range| >= 2 && AllPagesReadable(pages) && FullPages(pages, range)
    requires |Concat(pages)| >= 2 && Concat(pages)[0].sha == range[0]
    requires range[0] != range[|range| - 1]
    ensures AllReadable(Concat(pages)[..1])
    ensures var units := RunPages(Init(range), pages, range).units;
            && |units| >= 1
            && CommitsOf(units[0].commitMap, kind) == Classified(Concat(pages)[..1], kind)
  {
    var all := Concat(pages);
    ConcatReadable(pages);
    var first := all[..1];
    assert Concat([first]) == first + [];
    assert all == Concat([first]) + all[1..];
    assert [first][1..] == [];
    assert Blocks([first], range, 0);
    ReadableSuffix(all, 1);
    SegmentContents(range, pages, [first], all[1..], kind);
  }
}
