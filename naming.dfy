/** `get_name`: the heading names of a changelog unit. A boundary commit is
    named by its tag, or by the first seven characters of its id when it has
    none; when neither boundary is tagged the `to` name becomes a version
    bumped from 0.0.0 behind the configured prefix. */
module Naming {
  import opened Text
  import opened Entities
  import opened SemVer

  /** `semver::Version` with an empty pre-release and build part. */
  datatype Version = Version(major: nat, minor: nat, patch: nat)

  /** The `Display` text of a version: `major.minor.patch`. */
  function VersionText(v: Version): string {
    NatToString(v.major) + "." + NatToString(v.minor) + "." + NatToString(v.patch)
  }

  /** The bump `get_name` applies: major for a breaking change, else minor when
      there is a `feat` bucket, else patch; lower parts reset to zero. */
  function Bump(v: Version, hasBreaking: bool, hasFeature: bool): Version {
    if hasBreaking then Version(v.major + 1, 0, 0)
    else if hasFeature then Version(v.major, v.minor + 1, 0)
    else Version(v.major, v.minor, v.patch + 1)
  }

  /** Version precedence on the three numbers (section 11 of Semantic
      Versioning 2.0.0). */
  predicate Precedes(a: Version, b: Version) {
    a.major < b.major
    || (a.major == b.major && a.minor < b.minor)
    || (a.major == b.major && a.minor == b.minor && a.patch < b.patch)
  }

  /** The name of a boundary commit: its tag, or its seven-character id. */
  function CommitName(id: string, c2t: map<string, string>): string {
    if id in c2t then c2t[id] else Take(id, 7)
  }

  /** `get_name`: `(from_name, to_name)`. A name counts as untagged when it is
      equal to the seven-character id, whether or not a tag produced it. */
  function GetName(
    fromId: string, toId: string, prefix: string, hasBreaking: bool,
    commitMap: seq<Bucket>, c2t: map<string, string>): (string, string)
  {
    var fromName := CommitName(fromId, c2t);
    var toName := CommitName(toId, c2t);
    if fromName != Take(fromId, 7) && toName != Take(toId, 7) then (fromName, toName)
    else if fromName == Take(fromId, 7) && toName == Take(toId, 7) then
      (fromName, prefix + VersionText(Bump(Version(0, 0, 0), hasBreaking, Lookup(commitMap, "feat").Some?)))
    else (fromName, toName)
  }

  // ---------------------------------------------------------------------
  // Properties

  /** A bump always moves to a later version, and resets the parts below the
      one it raises. */
  lemma BumpSpec(v: Version, hasBreaking: bool, hasFeature: bool)
    ensures Precedes(v, Bump(v, hasBreaking, hasFeature))
    ensures hasBreaking ==> Bump(v, hasBreaking, hasFeature).minor == 0
    ensures (hasBreaking || hasFeature) ==> Bump(v, hasBreaking, hasFeature).patch == 0
    ensures !hasBreaking ==> Bump(v, hasBreaking, hasFeature).major == v.major
  {
  }

  /** The `from` name is always the tag or the short id; the `to` name is too,
      unless both names are short ids, in which case it is the bumped
      version: 1.0.0 for a breaking unit, 0.1.0 for one with features, 0.0.1
      otherwise. */
  lemma GetNameSpec(
    fromId: string, toId: string, prefix: string, hasBreaking: bool,
    commitMap: seq<Bucket>, c2t: map<string, string>)
    ensures GetName(fromId, toId, prefix, hasBreaking, commitMap, c2t).0 == CommitName(fromId, c2t)
    ensures var untagged := CommitName(fromId, c2t) == Take(fromId, 7) && CommitName(toId, c2t) == Take(toId, 7);
            var toName := GetName(fromId, toId, prefix, hasBreaking, commitMap, c2t).1;
            && (!untagged ==> toName == CommitName(toId, c2t))
            && (untagged && hasBreaking ==> toName == prefix + "1.0.0")
            && (untagged && !hasBreaking && "feat" in Kinds(commitMap) ==> toName == prefix + "0.1.0")
            && (untagged && !hasBreaking && "feat" !in Kinds(commitMap) ==> toName == prefix + "0.0.1")
  {
    assert NatToString(0) == "0" && NatToString(1) == "1";
  }

  /** A tag on either boundary keeps both names as they are: only a unit
      between two untagged commits is given a version. */
  lemma TaggedKeepsNames(
    fromId: string, toId: string, prefix: string, hasBreaking: bool,
    commitMap: seq<Bucket>, c2t: map<string, string>)
    requires (fromId in c2t && c2t[fromId] != Take(fromId, 7)) || (toId in c2t && c2t[toId] != Take(toId, 7))
    ensures GetName(fromId, toId, prefix, hasBreaking, commitMap, c2t)
         == (CommitName(fromId, c2t), CommitName(toId, c2t))
  {
  }

  lemma NatToStringNumeric(n: nat)
    ensures NumericId(NatToString(n))
  {
  }

  /** A version behind a `v`, `ver` or empty prefix is a tag name the tag
      filter accepts, and it parses back to its three numbers. */
  lemma VersionNameIsTag(prefix: string, v: Version)
    requires IsPrefix(prefix)
    ensures ParseTag(prefix + VersionText(v))
         == Some(TagName(prefix, [NatToString(v.major), NatToString(v.minor), NatToString(v.patch)], [], []))
  {
    var t := TagName(prefix, [NatToString(v.major), NatToString(v.minor), NatToString(v.patch)], [], []);
    NatToStringNumeric(v.major);
    NatToStringNumeric(v.minor);
    NatToStringNumeric(v.patch);
    assert ValidTag(t);
    assert Join(t.core, '.') == VersionText(v) by {
      var a, b, c := NatToString(v.major), NatToString(v.minor), NatToString(v.patch);
      assert t.core[1..] == [b, c] && [b, c][1..] == [c];
      assert Join([c], '.') == c;
      assert Join([b, c], '.') == b + "." + c;
      assert Join(t.core, '.') == a + "." + (b + "." + c);
    }
    assert Render(t) == prefix + VersionText(v);
    RenderThenParse(t);
  }

  /** The name given to an untagged unit is a semantic-version tag name. */
  lemma BumpedNameIsTag(
    fromId: string, toId: string, prefix: string, hasBreaking: bool,
    commitMap: seq<Bucket>, c2t: map<string, string>)
    requires IsPrefix(prefix)
    requires CommitName(fromId, c2t) == Take(fromId, 7) && CommitName(toId, c2t) == Take(toId, 7)
    ensures IsSemVerTag(GetName(fromId, toId, prefix, hasBreaking, commitMap, c2t).1)
  {
    VersionNameIsTag(prefix, Bump(Version(0, 0, 0), hasBreaking, Lookup(commitMap, "feat").Some?));
  }
}
