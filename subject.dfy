/** The conventional-commit subject classifier, `parse_first_line`.

    The source matches the subject line against the unanchored pattern

      (emoji)? ( *)? (type)( "(" scope ")" )? (!)? ": " (description)

    where `emoji` is `:.+:`, one of two literal three-character sequences
    (the first glyph, a hyphen and the last glyph of an emoji block), or one
    character of the range U+2600..U+2B55; `type` is `[a-z]+`; `scope` and
    `description` are `.+`. The regex engine returns the leftmost match, and
    at that start position the first match in priority order (every `?` and
    `+` greedy, alternatives left to right).

    `ValidDecomp` says when a decomposition of the line is a match at all;
    `Match` is the deterministic leftmost-first matcher; the lemmas prove
    that `Match` finds a match exactly when one exists, that it is the
    leftmost one, and what the captured fields look like. */
module Subject {
  import opened Text

  /** Where each part of a match sits in the line. `emojiEnd == start` when
      the emoji group is absent; `scopeClose` is the index of the `)` closing
      the scope when `hasScope` (0 otherwise); `colon` is the index of the `:` of `": "`. */
  datatype Decomp = Decomp(
    start: nat, emojiEnd: nat, typeStart: nat, typeEnd: nat,
    hasScope: bool, scopeClose: nat, bang: bool, colon: nat)

  /** The fields `parse_first_line` returns on a match. */
  datatype ParsedLine = ParsedLine(
    emoji: string, scope: string, description: string, kind: string, isBreaking: bool)

  predicate ColonEmojiAt(s: string, i: nat, j: nat) {
    i + 3 <= j <= |s| && s[i] == ':' && s[j - 1] == ':'
  }

  predicate SeqEmojiAt(s: string, i: nat, first: char, last: char) {
    i + 3 <= |s| && s[i] == first && s[i + 1] == '-' && s[i + 2] == last
  }

  predicate RangeEmojiAt(s: string, i: nat) {
    i < |s| && '☀' <= s[i] <= '⭕'
  }

  /** `s[i..j]` is matched by one alternative of the emoji group. */
  predicate EmojiAt(s: string, i: nat, j: nat) {
    || ColonEmojiAt(s, i, j)
    || (j == i + 3 && SeqEmojiAt(s, i, '\U{1F300}', '\U{1F3FF}'))
    || (j == i + 3 && SeqEmojiAt(s, i, '\U{1F400}', '\U{1F64F}'))
    || (j == i + 1 && RangeEmojiAt(s, i))
  }

  /** `": "` at `v`, followed by at least one character of description. */
  predicate ColonAt(s: string, v: nat) {
    v + 2 < |s| && s[v] == ':' && s[v + 1] == ' '
  }

  function AfterScope(d: Decomp): nat {
    if d.hasScope then d.scopeClose + 1 else d.typeEnd
  }

  /** `d` is a way for the subject pattern to match `s`. */
  predicate ValidDecomp(s: string, d: Decomp) {
    && d.start <= d.emojiEnd <= d.typeStart < d.typeEnd < |s|
    && (d.emojiEnd == d.start || EmojiAt(s, d.start, d.emojiEnd))
    && (forall k | d.emojiEnd <= k < d.typeStart :: s[k] == ' ')
    && (forall k | d.typeStart <= k < d.typeEnd :: IsLower(s[k]))
    && (d.hasScope ==> d.typeEnd + 1 < d.scopeClose < |s| && s[d.typeEnd] == '(' && s[d.scopeClose] == ')')
    && (!d.hasScope ==> d.scopeClose == 0)
    && (d.bang ==> AfterScope(d) < |s| && s[AfterScope(d)] == '!')
    && d.colon == (if d.bang then AfterScope(d) + 1 else AfterScope(d))
    && ColonAt(s, d.colon)
  }

  /** The captures of a match; the description runs to the end of the line
      because `.+` is greedy and the line holds no line feed. */
  function Fields(s: string, d: Decomp): ParsedLine
    requires ValidDecomp(s, d)
  {
    ParsedLine(
      s[d.start..d.emojiEnd],
      if d.hasScope then s[d.typeEnd + 1..d.scopeClose] else "",
      s[d.colon + 2..],
      s[d.typeStart..d.typeEnd],
      d.bang)
  }

  // ---------------------------------------------------------------------
  // The deterministic matcher

  /** First index at or after `j` that is not a space (`( *)?` is greedy). */
  function SkipSpaces(s: string, j: nat): (p: nat)
    requires j <= |s|
    ensures j <= p <= |s|
    ensures forall k | j <= k < p :: s[k] == ' '
    ensures p < |s| ==> s[p] != ' '
    decreases |s| - j
  {
    if j < |s| && s[j] == ' ' then SkipSpaces(s, j + 1) else j
  }

  /** End of the run of `[a-z]` starting at `p` (`[a-z]+` is greedy). */
  function SkipLower(s: string, p: nat): (q: nat)
    requires p <= |s|
    ensures p <= q <= |s|
    ensures forall k | p <= k < q :: IsLower(s[k])
    ensures q < |s| ==> !IsLower(s[q])
    decreases |s| - p
  {
    if p < |s| && IsLower(s[p]) then SkipLower(s, p + 1) else p
  }

  /** `(!)?: ` from `u` on: returns the breaking flag and the colon index. */
  function TailAt(s: string, u: nat): (r: Option<(bool, nat)>)
    ensures r.Some? ==> ColonAt(s, r.value.1)
    ensures r.Some? && r.value.0 ==> u < |s| && s[u] == '!' && r.value.1 == u + 1
    ensures r.Some? && !r.value.0 ==> r.value.1 == u
  {
    if u < |s| && s[u] == '!' then
      (if ColonAt(s, u + 1) then Some((true, u + 1)) else None)
    else if ColonAt(s, u) then Some((false, u))
    else None
  }

  lemma TailAtComplete(s: string, u: nat, bang: bool, colon: nat)
    requires bang ==> u < |s| && s[u] == '!'
    requires colon == (if bang then u + 1 else u)
    requires ColonAt(s, colon)
    ensures TailAt(s, u) == Some((bang, colon))
  {
  }

  /** The greedy scope `\((.+)\)`: tries closing parentheses at `r`, `r - 1`,
      ... down to `q + 2`, each followed by the tail. */
  function ScopeFrom(s: string, q: nat, r: int): (res: Option<(nat, bool, nat)>)
    ensures res.Some? ==> q + 1 < res.value.0 <= r && res.value.0 < |s| && s[res.value.0] == ')'
                          && TailAt(s, res.value.0 + 1) == Some((res.value.1, res.value.2))
    decreases r
  {
    if r <= q + 1 then None
    else if r < |s| && s[r] == ')' && TailAt(s, r + 1).Some? then
      Some((r as nat, TailAt(s, r + 1).value.0, TailAt(s, r + 1).value.1))
    else ScopeFrom(s, q, r - 1)
  }

  lemma {:induction false} ScopeFromComplete(s: string, q: nat, r: int, r0: nat)
    requires q + 1 < r0 <= r && r0 < |s| && s[r0] == ')' && TailAt(s, r0 + 1).Some?
    ensures ScopeFrom(s, q, r).Some? && ScopeFrom(s, q, r).value.0 >= r0
    decreases r
  {
    if r < |s| && s[r] == ')' && TailAt(s, r + 1).Some? {
    } else {
      assert r != r0;
      ScopeFromComplete(s, q, r - 1, r0);
    }
  }

  /** The rest of the pattern once the emoji group (if any) ends at `j`. */
  function RestAt(s: string, i: nat, j: nat): (r: Option<Decomp>)
    requires i <= j <= |s|
    ensures r.Some? ==> r.value.start == i && r.value.emojiEnd == j
  {
    var p := SkipSpaces(s, j);
    var q := SkipLower(s, p);
    if q == p then None
    else if q < |s| && s[q] == '(' then
      match ScopeFrom(s, q, |s| - 1)
      case None => None
      case Some((close, bang, colon)) => Some(Decomp(i, j, p, q, true, close, bang, colon))
    else
      match TailAt(s, q)
      case None => None
      case Some((bang, colon)) => Some(Decomp(i, j, p, q, false, 0, bang, colon))
  }

  lemma RestAtSound(s: string, i: nat, j: nat)
    requires i <= j <= |s|
    requires j == i || EmojiAt(s, i, j)
    requires RestAt(s, i, j).Some?
    ensures ValidDecomp(s, RestAt(s, i, j).value)
  {
    var p := SkipSpaces(s, j);
    var q := SkipLower(s, p);
    if q < |s| && s[q] == '(' {
      var close := ScopeFrom(s, q, |s| - 1).value.0;
      var d := RestAt(s, i, j).value;
      assert d.scopeClose == close && AfterScope(d) == close + 1;
    }
  }

  /** On a match, the spaces end where the type starts and the type's run of
      letters ends where the type ends. */
  lemma TypeRun(s: string, d: Decomp)
    requires ValidDecomp(s, d)
    ensures SkipSpaces(s, d.emojiEnd) == d.typeStart && SkipLower(s, d.typeStart) == d.typeEnd
  {
    assert IsLower(s[d.typeStart]);
    assert s[d.typeEnd] == '(' || s[d.typeEnd] == '!' || s[d.typeEnd] == ':';
  }

  lemma RestAtComplete(s: string, d: Decomp)
    requires ValidDecomp(s, d)
    ensures RestAt(s, d.start, d.emojiEnd).Some?
  {
    TypeRun(s, d);
    var q := d.typeEnd;
    if s[q] == '(' {
      assert d.hasScope;
      TailAtComplete(s, d.scopeClose + 1, d.bang, d.colon);
      ScopeFromComplete(s, q, |s| - 1, d.scopeClose);
    } else {
      assert !d.hasScope;
      TailAtComplete(s, q, d.bang, d.colon);
    }
  }

  /** The greedy `:.+:` alternative: closing colons at `k`, `k - 1`, ... */
  function ColonEmojiFrom(s: string, i: nat, k: int): (r: Option<Decomp>)
    requires i < |s| && k < |s| && s[i] == ':'
    ensures r.Some? ==> r.value.start == i && ColonEmojiAt(s, i, r.value.emojiEnd)
                        && r == RestAt(s, i, r.value.emojiEnd)
    decreases k
  {
    if k < i + 2 then None
    else if s[k] == ':' && RestAt(s, i, k + 1).Some? then RestAt(s, i, k + 1)
    else ColonEmojiFrom(s, i, k - 1)
  }

  lemma {:induction false} ColonEmojiFromComplete(s: string, i: nat, k: int, k0: nat)
    requires i < |s| && k < |s| && s[i] == ':'
    requires i + 2 <= k0 <= k && s[k0] == ':' && RestAt(s, i, k0 + 1).Some?
    ensures ColonEmojiFrom(s, i, k).Some? && ColonEmojiFrom(s, i, k).value.emojiEnd >= k0 + 1
    decreases k
  {
    if !(s[k] == ':' && RestAt(s, i, k + 1).Some?) {
      ColonEmojiFromComplete(s, i, k - 1, k0);
    }
  }

  /** The first match, in priority order, that starts at `i`. */
  function MatchAt(s: string, i: nat): (r: Option<Decomp>)
    requires i < |s|
    ensures r.Some? ==> r.value.start == i
  {
    var colon := if s[i] == ':' then ColonEmojiFrom(s, i, |s| - 1) else None;
    if colon.Some? then colon
    else if SeqEmojiAt(s, i, '\U{1F300}', '\U{1F3FF}') && RestAt(s, i, i + 3).Some? then RestAt(s, i, i + 3)
    else if SeqEmojiAt(s, i, '\U{1F400}', '\U{1F64F}') && RestAt(s, i, i + 3).Some? then RestAt(s, i, i + 3)
    else if RangeEmojiAt(s, i) && RestAt(s, i, i + 1).Some? then RestAt(s, i, i + 1)
    else RestAt(s, i, i)
  }

  lemma MatchAtSound(s: string, i: nat)
    requires i < |s| && MatchAt(s, i).Some?
    ensures ValidDecomp(s, MatchAt(s, i).value)
  {
    var colon := if s[i] == ':' then ColonEmojiFrom(s, i, |s| - 1) else None;
    if colon.Some? {
      RestAtSound(s, i, colon.value.emojiEnd);
    } else if SeqEmojiAt(s, i, '\U{1F300}', '\U{1F3FF}') && RestAt(s, i, i + 3).Some? {
      RestAtSound(s, i, i + 3);
    } else if SeqEmojiAt(s, i, '\U{1F400}', '\U{1F64F}') && RestAt(s, i, i + 3).Some? {
      RestAtSound(s, i, i + 3);
    } else if RangeEmojiAt(s, i) && RestAt(s, i, i + 1).Some? {
      RestAtSound(s, i, i + 1);
    } else {
      RestAtSound(s, i, i);
    }
  }

  /** Whenever the rest of the pattern matches after a possible emoji group
      ending at `e`, some alternative of the emoji group is taken at `i`. */
  lemma MatchAtFrom(s: string, i: nat, e: nat)
    requires i < |s| && i <= e <= |s|
    requires e == i || EmojiAt(s, i, e)
    requires RestAt(s, i, e).Some?
    ensures MatchAt(s, i).Some?
  {
    if e != i && ColonEmojiAt(s, i, e) {
      ColonEmojiFromComplete(s, i, |s| - 1, e - 1);
    } else {
      MatchAtOther(s, i, e);
    }
  }

  /** The alternatives of `MatchAt` after the `:.+:` one. */
  lemma MatchAtOther(s: string, i: nat, e: nat)
    requires i < |s| && i <= e <= |s| && RestAt(s, i, e).Some?
    requires || e == i
             || (e == i + 3 && SeqEmojiAt(s, i, '\U{1F300}', '\U{1F3FF}'))
             || (e == i + 3 && SeqEmojiAt(s, i, '\U{1F400}', '\U{1F64F}'))
             || (e == i + 1 && RangeEmojiAt(s, i))
    ensures MatchAt(s, i).Some?
  {
  }

  lemma MatchAtComplete(s: string, d: Decomp)
    requires ValidDecomp(s, d)
    ensures MatchAt(s, d.start).Some?
  {
    RestAtComplete(s, d);
    MatchAtFrom(s, d.start, d.emojiEnd);
  }

  /** Once the emoji group ends at `d.emojiEnd`, the rest of the pattern
      matches, and its greedy scope closes no earlier than `d`'s. */
  lemma RestAtGreedy(s: string, d: Decomp)
    requires ValidDecomp(s, d)
    ensures RestAt(s, d.start, d.emojiEnd).Some?
    ensures d.hasScope ==> RestAt(s, d.start, d.emojiEnd).value.hasScope
                           && RestAt(s, d.start, d.emojiEnd).value.scopeClose >= d.scopeClose
  {
    RestAtComplete(s, d);
    TypeRun(s, d);
    if d.hasScope {
      TailAtComplete(s, d.scopeClose + 1, d.bang, d.colon);
      ScopeFromComplete(s, d.typeEnd, |s| - 1, d.scopeClose);
    }
  }

  /** At a start position, the match taken has the longest emoji group of
      any match there and, for that emoji group, the longest scope: the
      alternatives of the emoji group begin with distinct characters, and
      `:.+:` and the scope's `.+` are tried longest first. */
  lemma MatchAtGreedy(s: string, d: Decomp)
    requires ValidDecomp(s, d)
    ensures MatchAt(s, d.start).Some?
    ensures var m := MatchAt(s, d.start).value;
            && d.emojiEnd <= m.emojiEnd
            && (d.emojiEnd == m.emojiEnd && d.hasScope ==> m.hasScope && d.scopeClose <= m.scopeClose)
  {
    RestAtGreedy(s, d);
    MatchAtEmoji(s, d);
  }

  /** The emoji group taken at `d.start` ends no earlier than `d`'s, and
      when it ends where `d`'s does the rest is matched from there. */
  lemma MatchAtEmoji(s: string, d: Decomp)
    requires ValidDecomp(s, d)
    ensures MatchAt(s, d.start).Some? && MatchAt(s, d.start).value.emojiEnd >= d.emojiEnd
    ensures MatchAt(s, d.start).value.emojiEnd == d.emojiEnd ==>
              MatchAt(s, d.start) == RestAt(s, d.start, d.emojiEnd)
  {
    var i, e := d.start, d.emojiEnd;
    RestAtComplete(s, d);
    if e == i {
      MatchAtNoEmoji(s, i);
    } else if ColonEmojiAt(s, i, e) {
      ColonEmojiFromComplete(s, i, |s| - 1, e - 1);
    } else {
      MatchAtOtherEmoji(s, i, e);
    }
  }

  /** Whenever the rest matches without an emoji group, some match is taken
      at `i`, and the one taken has no emoji group only when it is that. */
  lemma MatchAtNoEmoji(s: string, i: nat)
    requires i < |s| && RestAt(s, i, i).Some?
    ensures MatchAt(s, i).Some? && MatchAt(s, i).value.emojiEnd >= i
    ensures MatchAt(s, i).value.emojiEnd == i ==> MatchAt(s, i) == RestAt(s, i, i)
  {
    MatchAtOther(s, i, i);
  }

  /** An emoji group of the three-character or the single-character kinds
      is the only one that can start at `i`, so it is taken. */
  lemma MatchAtOtherEmoji(s: string, i: nat, e: nat)
    requires i < e <= |s| && EmojiAt(s, i, e) && !ColonEmojiAt(s, i, e) && RestAt(s, i, e).Some?
    ensures MatchAt(s, i) == RestAt(s, i, e)
  {
    assert s[i] != ':';
  }

  /** Leftmost search: the first start position from `i` on with a match. */
  function MatchFrom(s: string, i: nat): (r: Option<Decomp>)
    ensures r.Some? ==> i <= r.value.start < |s| && r == MatchAt(s, r.value.start)
    ensures r.Some? ==> forall k | i <= k < r.value.start :: MatchAt(s, k).None?
    ensures r.None? ==> forall k | i <= k < |s| :: MatchAt(s, k).None?
    decreases |s| - i
  {
    if i >= |s| then None
    else if MatchAt(s, i).Some? then MatchAt(s, i)
    else MatchFrom(s, i + 1)
  }

  lemma MatchFromProperties(s: string)
    ensures MatchFrom(s, 0).Some? ==> ValidDecomp(s, MatchFrom(s, 0).value)
    ensures forall d | ValidDecomp(s, d) :: MatchFrom(s, 0).Some? && MatchFrom(s, 0).value.start <= d.start
  {
    var r := MatchFrom(s, 0);
    if r.Some? { MatchAtSound(s, r.value.start); }
    forall d | ValidDecomp(s, d)
      ensures r.Some? && r.value.start <= d.start
    {
      MatchAtComplete(s, d);
    }
  }

  /** The regex engine's match of the subject pattern against `s`: the
      leftmost start, then the longest emoji group, then the longest scope. */
  function Match(s: string): (r: Option<Decomp>)
    ensures r.Some? ==> ValidDecomp(s, r.value)
    ensures r.None? <==> forall d :: !ValidDecomp(s, d)
    ensures r.Some? ==> forall d | ValidDecomp(s, d) :: r.value.start <= d.start
    ensures r.Some? ==> forall d | ValidDecomp(s, d) && d.start == r.value.start ::
                          && d.emojiEnd <= r.value.emojiEnd
                          && (d.emojiEnd == r.value.emojiEnd && d.hasScope ==>
                                r.value.hasScope && d.scopeClose <= r.value.scopeClose)
  {
    MatchFromProperties(s);
    MatchFromGreedy(s);
    MatchFrom(s, 0)
  }

  lemma MatchFromGreedy(s: string)
    ensures var r := MatchFrom(s, 0);
            r.Some? ==> forall d | ValidDecomp(s, d) && d.start == r.value.start ::
                          && d.emojiEnd <= r.value.emojiEnd
                          && (d.emojiEnd == r.value.emojiEnd && d.hasScope ==>
                                r.value.hasScope && d.scopeClose <= r.value.scopeClose)
  {
    var r := MatchFrom(s, 0);
    if r.Some? {
      forall d | ValidDecomp(s, d) && d.start == r.value.start
        ensures && d.emojiEnd <= r.value.emojiEnd
                && (d.emojiEnd == r.value.emojiEnd && d.hasScope ==>
                      r.value.hasScope && d.scopeClose <= r.value.scopeClose)
      {
        MatchAtGreedy(s, d);
      }
    }
  }

  /** `parse_first_line`: `None` stands for the source's `Err(None)`. */
  function ParseFirstLine(line: string): (r: Option<ParsedLine>)
    requires NoNewline(line)
    ensures r.None? <==> forall d :: !ValidDecomp(line, d)
    ensures r.Some? ==> exists d :: ValidDecomp(line, d) && r.value == Fields(line, d)
    ensures r.Some? ==> Match(line).Some? && r.value == Fields(line, Match(line).value)
  {
    match Match(line)
    case None => None
    case Some(d) => Some(Fields(line, d))
  }
}

/** What the parsed fields of a subject line say about the line. */
module SubjectFacts {
  import opened Text
  import opened Subject

  /** `type(scope)!: description`, the conventional-commit subject the fields
      describe; the scope part is written only when the scope is nonempty. */
  function Header(p: ParsedLine): string {
    p.kind
    + (if p.scope != "" then "(" + p.scope + ")" else "")
    + (if p.isBreaking then "!" else "")
    + ": " + p.description
  }

  /** A line without `": "` followed by a character never matches. */
  lemma NoColonSpaceNoMatch(line: string)
    requires NoNewline(line)
    requires forall k | 0 <= k < |line| - 2 :: !(line[k] == ':' && line[k + 1] == ' ')
    ensures ParseFirstLine(line) == None
  {
  }

  /** The header rebuilt from the captures of a match is the line from the
      type on. */
  lemma HeaderOfMatch(line: string, d: Decomp)
    requires ValidDecomp(line, d)
    ensures line[d.typeStart..] == Header(Fields(line, d))
  {
    HeaderOfSlices(line, Fields(line, d).emoji, d.typeStart, d.typeEnd, d.hasScope, d.scopeClose,
                   AfterScope(d), d.bang, d.colon);
  }

  /** `HeaderOfMatch` on the positions alone. */
  lemma HeaderOfSlices(line: string, emoji: string, ts: nat, te: nat, hasScope: bool, close: nat,
                       after: nat, bang: bool, colon: nat)
    requires ts <= te <= after <= colon && colon + 2 <= |line|
    requires hasScope ==> te + 1 < close && after == close + 1 && line[te] == '(' && line[close] == ')'
    requires !hasScope ==> after == te
    requires bang ==> colon == after + 1 && line[after] == '!'
    requires !bang ==> colon == after
    requires line[colon] == ':' && line[colon + 1] == ' '
    ensures line[ts..] == Header(ParsedLine(emoji, if hasScope then line[te + 1..close] else "",
                                            line[colon + 2..], line[ts..te], bang))
  {
    var p := ParsedLine(emoji, if hasScope then line[te + 1..close] else "", line[colon + 2..], line[ts..te], bang);
    var sc := if p.scope != "" then "(" + p.scope + ")" else "";
    var bg := if bang then "!" else "";
    if hasScope {
      Bracketed(line, te, close);
    }
    if bang {
      Slice1(line, after);
    }
    Slice2(line, colon);
    ConcatOfSlices(line, ts, te, after, colon, p.kind, sc, bg, p.description);
  }

  lemma Bracketed(s: string, a: nat, b: nat)
    requires a < b < |s|
    ensures s[a..b + 1] == [s[a]] + s[a + 1..b] + [s[b]]
  {
  }

  lemma Slice1(s: string, a: nat)
    requires a < |s|
    ensures s[a..a + 1] == [s[a]]
  {
  }

  lemma Slice2(s: string, a: nat)
    requires a + 1 < |s|
    ensures s[a..a + 2] == [s[a], s[a + 1]]
  {
  }

  lemma ConcatOfSlices(s: string, a: nat, b: nat, c: nat, e: nat,
                       kind: string, sc: string, bg: string, desc: string)
    requires a <= b <= c <= e && e + 2 <= |s|
    requires s[a..b] == kind && s[b..c] == sc && s[c..e] == bg
    requires s[e..e + 2] == ": " && s[e + 2..] == desc
    ensures s[a..] == kind + sc + bg + ": " + desc
  {
    assert s[a..] == s[a..b] + s[b..c] + s[c..e] + s[e..e + 2] + s[e + 2..];
  }

  /** Without a `!`, the character before `": "` closes the scope or ends the
      type, so it is never `!`. */
  lemma BangBeforeColon(line: string, d: Decomp)
    requires ValidDecomp(line, d)
    ensures 0 < d.colon && (d.bang <==> line[d.colon - 1] == '!')
  {
    if !d.bang {
      if d.hasScope { assert line[d.colon - 1] == ')'; }
      else { assert IsLower(line[d.colon - 1]); }
    }
  }

  lemma FieldsShape(line: string, d: Decomp)
    requires ValidDecomp(line, d)
    ensures var p := Fields(line, d);
            && |p.kind| > 0 && (forall k | 0 <= k < |p.kind| :: IsLower(p.kind[k]))
            && (p.scope == "" <==> !d.hasScope)
            && 0 < d.colon && (p.isBreaking <==> line[d.colon - 1] == '!')
            && |p.description| > 0 && IsSuffix(p.description, line)
            && line[d.typeStart..] == Header(p)
  {
    var p := Fields(line, d);
    forall k | 0 <= k < |p.kind| ensures IsLower(p.kind[k]) {
      assert p.kind[k] == line[d.typeStart + k];
    }
    HeaderOfMatch(line, d);
    BangBeforeColon(line, d);
  }

  /** On a match: the type is a nonempty run of `a`-`z`; the scope is empty
      exactly when there is no parenthesised group; `isBreaking` holds exactly
      when `!` stands right before `": "`; and the header rebuilt from the
      fields is the suffix of the line from the type on, so the description is
      a nonempty suffix of the line. */
  lemma ParsedShape(line: string)
    requires NoNewline(line)
    requires Match(line).Some?
    ensures var d := Match(line).value;
            var p := ParseFirstLine(line).value;
            && |p.kind| > 0 && (forall k | 0 <= k < |p.kind| :: IsLower(p.kind[k]))
            && (p.scope == "" <==> !d.hasScope)
            && 0 < d.colon && (p.isBreaking <==> line[d.colon - 1] == '!')
            && |p.description| > 0 && IsSuffix(p.description, line)
            && line[d.typeStart..] == Header(p)
  {
    FieldsShape(line, Match(line).value);
  }

  /** Fields that a subject line can carry and get back unchanged: no emoji, a
      nonempty lower-case type, a nonempty description, no line feed, and no
      `)` in the description when there is a scope (the greedy scope would
      otherwise swallow the description up to that parenthesis). */
  predicate Reparsable(p: ParsedLine) {
    && p.emoji == ""
    && |p.kind| > 0 && (forall k | 0 <= k < |p.kind| :: IsLower(p.kind[k]))
    && |p.description| > 0
    && NoNewline(p.scope) && NoNewline(p.description)
    && (p.scope != "" ==> forall k | 0 <= k < |p.description| :: p.description[k] != ')')
  }

  lemma {:induction false} ScopeFromSkip(s: string, q: nat, r: int, r0: nat)
    requires q + 1 < r0 <= r < |s|
    requires forall k | r0 < k <= r :: s[k] != ')'
    ensures ScopeFrom(s, q, r) == ScopeFrom(s, q, r0)
    decreases r
  {
    if r > r0 {
      ScopeFromSkip(s, q, r - 1, r0);
    }
  }

  /** Where the pieces of `Header(p)` sit. */
  function HeaderDecomp(p: ParsedLine): Decomp {
    var K := |p.kind|;
    var after := if p.scope != "" then K + |p.scope| + 2 else K;
    Decomp(0, 0, 0, K, p.scope != "", if p.scope != "" then after - 1 else 0,
           p.isBreaking, if p.isBreaking then after + 1 else after)
  }

  lemma HeaderLayout(p: ParsedLine)
    requires Reparsable(p)
    ensures var s := Header(p); var d := HeaderDecomp(p);
            && |s| == d.colon + 2 + |p.description|
            && s[..d.typeEnd] == p.kind
            && (p.scope != "" ==> s[d.typeEnd] == '(' && s[d.typeEnd + 1..d.scopeClose] == p.scope && s[d.scopeClose] == ')')
            && (p.isBreaking ==> s[AfterScope(d)] == '!')
            && s[d.colon] == ':' && s[d.colon + 1] == ' '
            && s[d.colon + 2..] == p.description
  {
    var s := Header(p);
    var sc := if p.scope != "" then "(" + p.scope + ")" else "";
    var bg := if p.isBreaking then "!" else "";
    assert s == p.kind + sc + bg + ": " + p.description;
  }

  lemma HeaderNoNewline(p: ParsedLine)
    requires Reparsable(p)
    ensures NoNewline(Header(p))
  {
    var s := Header(p);
    var d := HeaderDecomp(p);
    HeaderLayout(p);
    forall k | 0 <= k < |s| ensures s[k] != '\n' {
      if k < d.typeEnd {
        assert s[k] == p.kind[k] && IsLower(p.kind[k]);
      } else if p.scope != "" && d.typeEnd < k < d.scopeClose {
        assert s[k] == p.scope[k - d.typeEnd - 1];
      } else if k >= d.colon + 2 {
        assert s[k] == p.description[k - d.colon - 2];
      }
    }
  }

  /** When no `)` follows the scope, the matcher picks exactly `d`. */
  lemma RestAtExact(s: string, d: Decomp)
    requires ValidDecomp(s, d)
    requires d.hasScope ==> forall k | d.scopeClose < k < |s| :: s[k] != ')'
    ensures RestAt(s, d.start, d.emojiEnd) == Some(d)
  {
    TypeRun(s, d);
    TailAtComplete(s, AfterScope(d), d.bang, d.colon);
    if d.hasScope {
      ScopeFromSkip(s, d.typeEnd, |s| - 1, d.scopeClose);
      ScopeFromAt(s, d.typeEnd, d.scopeClose);
      RestAtScoped(s, d.start, d.emojiEnd, d.typeStart, d.typeEnd, d.scopeClose, d.bang, d.colon);
    } else {
      RestAtUnscoped(s, d.start, d.emojiEnd, d.typeStart, d.typeEnd, d.bang, d.colon);
    }
  }

  /** A closing parenthesis at `r` followed by the tail ends the scope at
      `r` when the search starts there. */
  lemma ScopeFromAt(s: string, q: nat, r: nat)
    requires q + 1 < r < |s| && s[r] == ')' && TailAt(s, r + 1).Some?
    ensures ScopeFrom(s, q, r) == Some((r, TailAt(s, r + 1).value.0, TailAt(s, r + 1).value.1))
  {
  }

  lemma RestAtScoped(s: string, i: nat, j: nat, p: nat, q: nat, close: nat, bang: bool, colon: nat)
    requires i <= j <= p < q < |s| && s[q] == '('
    requires SkipSpaces(s, j) == p && SkipLower(s, p) == q
    requires ScopeFrom(s, q, |s| - 1) == Some((close, bang, colon))
    ensures RestAt(s, i, j) == Some(Decomp(i, j, p, q, true, close, bang, colon))
  {
  }

  lemma RestAtUnscoped(s: string, i: nat, j: nat, p: nat, q: nat, bang: bool, colon: nat)
    requires i <= j <= p < q < |s| && s[q] != '('
    requires SkipSpaces(s, j) == p && SkipLower(s, p) == q
    requires TailAt(s, q) == Some((bang, colon))
    ensures RestAt(s, i, j) == Some(Decomp(i, j, p, q, false, 0, bang, colon))
  {
  }

  lemma HeaderValid(p: ParsedLine)
    requires Reparsable(p)
    ensures ValidDecomp(Header(p), HeaderDecomp(p))
    ensures p.scope != "" ==> forall k | HeaderDecomp(p).scopeClose < k < |Header(p)| :: Header(p)[k] != ')'
  {
    var s := Header(p);
    var d := HeaderDecomp(p);
    HeaderLayout(p);
    forall k | 0 <= k < d.typeEnd ensures IsLower(s[k]) {
      assert s[k] == p.kind[k];
    }
    if p.scope != "" {
      forall k | d.scopeClose < k < |s| ensures s[k] != ')' {
        if k >= d.colon + 2 { assert s[k] == p.description[k - d.colon - 2]; }
      }
    }
  }

  /** Classification round-trips: parsing the rebuilt header gives back the
      fields. */
  lemma RoundTrip(p: ParsedLine)
    requires Reparsable(p)
    ensures NoNewline(Header(p))
    ensures ParseFirstLine(Header(p)) == Some(p)
  {
    var s := Header(p);
    var d := HeaderDecomp(p);
    HeaderNoNewline(p);
    HeaderLayout(p);
    HeaderValid(p);
    RestAtExact(s, d);
    assert IsLower(s[0]);
    assert MatchAt(s, 0) == Some(d);
    assert MatchFrom(s, 0) == Some(d);
    assert Fields(s, d) == p;
  }

  /** A gitmoji subject whose description holds `": "` loses its type to
      the greedy `:.+:`: the emoji group runs to the last colon after which
      the rest still matches, so the word after the real type is taken as
      the type. */
  lemma GreedyEmojiTakesType()
    ensures ParseFirstLine(":sparkles: feat: note: x")
            == Some(ParsedLine(":sparkles: feat:", "", "x", "note", false))
  {
    var s := ":sparkles: feat: note: x";
    var d := Decomp(0, 16, 17, 21, false, 0, false, 21);
    GreedyEmojiMatch(s, d);
    GreedyEmojiFields(s, d);
  }

  /** The match of that subject: the emoji group ends at its second colon. */
  lemma GreedyEmojiMatch(s: string, d: Decomp)
    requires s == ":sparkles: feat: note: x" && d == Decomp(0, 16, 17, 21, false, 0, false, 21)
    ensures ValidDecomp(s, d) && Match(s) == Some(d)
  {
    assert ValidDecomp(s, d);
    var r := Match(s).value;
    assert r.start == 0 && r.emojiEnd >= 16;
    assert s[15] == ':' && s[21] == ':' && forall k | 16 <= k < |s| && k != 21 :: s[k] != ':';
    assert r.emojiEnd == 16 || r.emojiEnd == 22;
    assert s[22] == ' ' && |s| == 24;
    assert r.emojiEnd == 16;
    assert s[16] == ' ' && IsLower(s[17]) && !IsLower(s[21]);
    assert r.typeStart == 17;
    assert r.typeEnd == 21;
  }

  /** The captures of that match. */
  lemma GreedyEmojiFields(s: string, d: Decomp)
    requires s == ":sparkles: feat: note: x" && d == Decomp(0, 16, 17, 21, false, 0, false, 21)
    requires ValidDecomp(s, d)
    ensures Fields(s, d) == ParsedLine(":sparkles: feat:", "", "x", "note", false)
  {
    assert s[0..16] == ":sparkles: feat:";
    assert s[17..21] == "note";
    assert s[23..] == "x";
  }
}
