/** The records the engine builds: authors, classified commits, the per-type
    commit buckets of a changelog unit, and the unit itself. */
module Entities {
  import opened Text

  /** A contributor; `mail` identifies them, `username` is their handle on the
      hosting service or empty when unknown. */
  datatype Author = Author(name: string, mail: string, username: string)

  /** A classified commit (`Commit` in the source; `kind` is its `type_`). */
  datatype Commit = Commit(
    hash: string, emoji: string, kind: string, scope: string,
    description: string, isBreaking: bool, authors: seq<Author>)

  /** One entry of `commit_map`: the commits of one type, in traversal order. */
  datatype Bucket = Bucket(kind: string, commits: seq<Commit>)

  /** `ChangelogUnit`: the commits between two boundary commits, bucketed by
      type, with the breaking flag and the contributors keyed by mail. The
      source's hash maps are sequences here, in first-insertion order. */
  datatype Unit = Unit(
    fromCommit: string, toCommit: string, hasBreaking: bool,
    commitMap: seq<Bucket>, contributors: seq<Author>)

  /** `ChangelogUnit::new`. */
  function NewUnit(fromCommit: string, toCommit: string): (u: Unit)
    ensures u.fromCommit == fromCommit && u.toCommit == toCommit
    ensures !u.hasBreaking && u.commitMap == [] && u.contributors == []
  {
    Unit(fromCommit, toCommit, false, [], [])
  }

  // ---------------------------------------------------------------------
  // commit_map

  /** The types that have a bucket. */
  function Kinds(m: seq<Bucket>): set<string> {
    if m == [] then {} else {m[0].kind} + Kinds(m[1..])
  }

  /** One bucket per type, as in a map. */
  predicate DistinctKinds(m: seq<Bucket>) {
    m == [] || (m[0].kind !in Kinds(m[1..]) && DistinctKinds(m[1..]))
  }

  /** `commit_map.get(kind)`. */
  function Lookup(m: seq<Bucket>, kind: string): (r: Option<seq<Commit>>)
    ensures r.Some? <==> kind in Kinds(m)
  {
    if m == [] then None
    else if m[0].kind == kind then Some(m[0].commits)
    else Lookup(m[1..], kind)
  }

  /** The commits `commit_map` holds under `kind`, empty when there are none. */
  function CommitsOf(m: seq<Bucket>, kind: string): seq<Commit> {
    match Lookup(m, kind)
    case None => []
    case Some(cs) => cs
  }

  /** `commit_map.entry(c.type_).or_insert(Vec::new()).push(c)`. */
  function Insert(m: seq<Bucket>, c: Commit): (r: seq<Bucket>)
    decreases |m|
  {
    if m == [] then [Bucket(c.kind, [c])]
    else if m[0].kind == c.kind then [Bucket(c.kind, m[0].commits + [c])] + m[1..]
    else [m[0]] + Insert(m[1..], c)
  }

  /** Inserting appends `c` to its own type's bucket and leaves every other
      type's bucket as it was. */
  lemma {:induction false} InsertLookup(m: seq<Bucket>, c: Commit, kind: string)
    ensures Lookup(Insert(m, c), kind)
         == if kind == c.kind then Some(CommitsOf(m, kind) + [c]) else Lookup(m, kind)
    decreases |m|
  {
    var r := Insert(m, c);
    if m == [] {
      assert r[1..] == [];
      assert CommitsOf(m, kind) == [];
      assert [] + [c] == [c];
    } else if m[0].kind == c.kind {
      assert r[1..] == m[1..];
    } else {
      InsertLookup(m[1..], c, kind);
      assert r[1..] == Insert(m[1..], c);
    }
  }

  /** Inserting adds the commit's type to the types present, and keeps one
      bucket per type. */
  lemma {:induction false} InsertKinds(m: seq<Bucket>, c: Commit)
    ensures Kinds(Insert(m, c)) == Kinds(m) + {c.kind}
    ensures DistinctKinds(m) ==> DistinctKinds(Insert(m, c))
    decreases |m|
  {
    var r := Insert(m, c);
    if m == [] {
    } else if m[0].kind == c.kind {
      assert r[1..] == m[1..];
    } else {
      InsertKinds(m[1..], c);
      assert r[1..] == Insert(m[1..], c);
    }
  }

  // ---------------------------------------------------------------------
  // contributors

  /** The mails `contributors` is keyed by. */
  function Mails(cs: seq<Author>): set<string> {
    if cs == [] then {} else Mails(cs[..|cs| - 1]) + {cs[|cs| - 1].mail}
  }

  /** At most one entry per mail, as in a map keyed by mail. */
  predicate DistinctMails(cs: seq<Author>) {
    cs == [] || (DistinctMails(cs[..|cs| - 1]) && cs[|cs| - 1].mail !in Mails(cs[..|cs| - 1]))
  }
}
