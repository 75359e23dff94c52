/** The tag-name grammar `list_tags` filters with: Semantic Versioning 2.0.0
    (sections 2, 9 and 10) behind an optional `v` or `ver` prefix. */
module SemVer {
  import opened Text

  /** `0|[1-9]\d*`: digits only, no leading zero. */
  predicate NumericId(x: string) {
    |x| >= 1 && (forall k | 0 <= k < |x| :: IsDigit(x[k])) && (x[0] == '0' ==> |x| == 1)
  }

  predicate IdentChars(x: string) {
    |x| >= 1 && forall k | 0 <= k < |x| :: IsIdentChar(x[k])
  }

  /** A pre-release identifier: numeric without a leading zero, or
      `\d*[a-zA-Z-][0-9a-zA-Z-]*`, i.e. identifier characters with at least
      one non-digit. */
  predicate PreId(x: string) {
    NumericId(x) || (IdentChars(x) && exists k | 0 <= k < |x| :: !IsDigit(x[k]))
  }

  /** A build-metadata identifier: `[0-9a-zA-Z-]+`. */
  predicate BuildId(x: string) { IdentChars(x) }

  predicate IsPrefix(p: string) { p == "" || p == "v" || p == "ver" }

  /** A tag name split into its parts; an empty `pre` or `build` means the
      part is absent. */
  datatype TagName = TagName(prefix: string, core: seq<string>, pre: seq<string>, build: seq<string>)

  predicate ValidTag(t: TagName) {
    && IsPrefix(t.prefix)
    && |t.core| == 3 && (forall k | 0 <= k < 3 :: NumericId(t.core[k]))
    && (forall k | 0 <= k < |t.pre| :: PreId(t.pre[k]))
    && (forall k | 0 <= k < |t.build| :: BuildId(t.build[k]))
  }

  /** `c` followed by the parts joined with dots, or nothing when there are
      no parts. */
  function Part(c: char, parts: seq<string>): string {
    if parts == [] then "" else [c] + Join(parts, '.')
  }

  /** The text of a tag name. */
  function Render(t: TagName): string
    requires |t.core| >= 1
  {
    t.prefix + Join(t.core, '.') + Part('-', t.pre) + Part('+', t.build)
  }

  function PrefixOf(s: string): (p: string)
    ensures IsPrefix(p) && |p| <= |s| && s[..|p|] == p
  {
    if |s| >= 3 && s[..3] == "ver" then "ver"
    else if |s| >= 1 && s[0] == 'v' then "v"
    else ""
  }

  /** Splits `s` at its first `c`: the text before it, and the dot-separated
      parts after it (none when there is no `c`). */
  function CutAt(s: string, c: char): (string, seq<string>) {
    var k := IndexOf(s, c);
    (s[..k], if k < |s| then Split(s[k + 1..], '.') else [])
  }

  /** A part holding a whole dot-split text renders back to that text. */
  lemma PartOfSplit(c: char, x: string)
    ensures Part(c, Split(x, '.')) == [c] + x
  {
    JoinSplit(x, '.');
  }

  lemma CutAtRejoins(s: string, c: char)
    ensures s == CutAt(s, c).0 + Part(c, CutAt(s, c).1)
  {
    var k := IndexOf(s, c);
    if k < |s| {
      PartOfSplit(c, s[k + 1..]);
      assert s == s[..k] + ([c] + s[k + 1..]);
    } else {
      assert s == s[..k] + "";
    }
  }

  lemma CutAtOfPart(a: string, c: char, parts: seq<string>)
    requires c !in a && c != '.'
    requires forall k | 0 <= k < |parts| :: '.' !in parts[k]
    ensures CutAt(a + Part(c, parts), c) == (a, parts)
  {
    var s := a + Part(c, parts);
    IndexOfConcat(a, Part(c, parts), c);
    assert s[..|a|] == a;
    if parts != [] {
      assert s[|a| + 1..] == Join(parts, '.');
      SplitJoin(parts, '.');
    }
  }

  /** The candidate decomposition of `s`: the prefix, the text up to the
      first `+` cut at its first `-`, the core split at dots. */
  function Decompose(s: string): (t: TagName)
    ensures |t.core| >= 1
  {
    var prefix := PrefixOf(s);
    var (main, build) := CutAt(s[|prefix|..], '+');
    var (coreText, pre) := CutAt(main, '-');
    TagName(prefix, Split(coreText, '.'), pre, build)
  }

  /** The anchored match of the tag pattern: the decomposition, when every
      part is well formed. */
  function ParseTag(s: string): (r: Option<TagName>)
    ensures r.Some? ==> ValidTag(r.value)
  {
    var t := Decompose(s);
    if ValidTag(t) then Some(t) else None
  }

  /** `re.is_match(tag)` for the tag pattern of `list_tags`. */
  predicate IsSemVerTag(s: string) { ParseTag(s).Some? }

  lemma DecomposeRejoins(s: string)
    ensures Render(Decompose(s)) == s
  {
    var t := Decompose(s);
    var rest := s[|t.prefix|..];
    var (main, build) := CutAt(rest, '+');
    var (coreText, pre) := CutAt(main, '-');
    assert t == TagName(t.prefix, Split(coreText, '.'), pre, build);
    CutAtRejoins(rest, '+');
    CutAtRejoins(main, '-');
    JoinSplit(coreText, '.');
    RenderParts(t, coreText, main, rest);
    assert s == t.prefix + rest;
  }

  /** `Render` in the nesting the decomposition cuts in. */
  lemma RenderParts(t: TagName, coreText: string, main: string, rest: string)
    requires |t.core| >= 1 && Join(t.core, '.') == coreText
    requires main == coreText + Part('-', t.pre) && rest == main + Part('+', t.build)
    ensures Render(t) == t.prefix + rest
  {
  }

  /** What the parser accepts is exactly the rendering of what it returns. */
  lemma ParseThenRender(s: string)
    requires ParseTag(s).Some?
    ensures Render(ParseTag(s).value) == s
  {
    DecomposeRejoins(s);
  }

  lemma IdentCharsNoPlus(x: string)
    requires PreId(x) || BuildId(x)
    ensures '+' !in x && '.' !in x
  {
    if '+' in x {
      var k :| 0 <= k < |x| && x[k] == '+';
      assert IsIdentChar(x[k]);
    }
    if '.' in x {
      var k :| 0 <= k < |x| && x[k] == '.';
      assert IsIdentChar(x[k]);
    }
  }

  lemma NumericNoSeparator(x: string)
    requires NumericId(x)
    ensures '+' !in x && '.' !in x && '-' !in x && 'v' !in x
  {
  }

  /** No `+` in a joined list of identifiers without one. */
  lemma JoinNoChar(parts: seq<string>, x: char)
    requires |parts| >= 1 && x != '.'
    requires forall k | 0 <= k < |parts| :: x !in parts[k]
    ensures x !in Join(parts, '.')
  {
    if x in Join(parts, '.') {
      JoinChars(parts, '.', x);
    }
  }

  /** The separators the decomposition cuts at do not occur inside the
      parts they delimit. */
  lemma SeparatorsOutside(t: TagName)
    requires ValidTag(t)
    ensures '+' !in Join(t.core, '.') + Part('-', t.pre)
    ensures '-' !in Join(t.core, '.')
    ensures forall k | 0 <= k < |t.core| :: '.' !in t.core[k]
    ensures forall k | 0 <= k < |t.pre| :: '.' !in t.pre[k]
    ensures forall k | 0 <= k < |t.build| :: '.' !in t.build[k] && '+' !in t.build[k]
  {
    forall k | 0 <= k < 3 ensures '+' !in t.core[k] && '-' !in t.core[k] && '.' !in t.core[k] {
      NumericNoSeparator(t.core[k]);
    }
    forall k | 0 <= k < |t.pre| ensures '+' !in t.pre[k] && '.' !in t.pre[k] {
      IdentCharsNoPlus(t.pre[k]);
    }
    forall k | 0 <= k < |t.build| ensures '.' !in t.build[k] && '+' !in t.build[k] {
      IdentCharsNoPlus(t.build[k]);
    }
    JoinNoChar(t.core, '+');
    JoinNoChar(t.core, '-');
    if t.pre != [] {
      JoinNoChar(t.pre, '+');
    }
  }

  lemma PrefixOfRender(t: TagName)
    requires ValidTag(t)
    ensures PrefixOf(Render(t)) == t.prefix
  {
    var s := Render(t);
    assert IsDigit(t.core[0][0]);
    assert s == t.prefix + (t.core[0] + (Render(t)[|t.prefix| + |t.core[0]|..]));
    assert s[|t.prefix|] == t.core[0][0];
  }

  /** Every well-formed tag name is accepted and parsed back to itself. */
  lemma RenderThenParse(t: TagName)
    requires ValidTag(t)
    ensures ParseTag(Render(t)) == Some(t)
  {
    var s := Render(t);
    var coreText := Join(t.core, '.');
    var main := coreText + Part('-', t.pre);
    var rest := main + Part('+', t.build);
    assert s == t.prefix + rest;
    PrefixOfRender(t);
    assert s[|t.prefix|..] == rest;
    SeparatorsOutside(t);
    CutAtOfPart(main, '+', t.build);
    CutAtOfPart(coreText, '-', t.pre);
    SplitJoin(t.core, '.');
    assert Decompose(s) == t;
  }
}
