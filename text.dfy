/** Strings and the small pieces of the Rust standard library the engine relies on:
    `Option`, `str::lines`, `chars().take(n)` and decimal rendering of numbers. */
module Text {

  datatype Option<+T> = None | Some(value: T)

  predicate IsLower(c: char) { 'a' <= c <= 'z' }

  predicate IsDigit(c: char) { '0' <= c <= '9' }

  predicate IsAlpha(c: char) { 'a' <= c <= 'z' || 'A' <= c <= 'Z' }

  /** A character of a SemVer identifier: `[0-9A-Za-z-]`. */
  predicate IsIdentChar(c: char) { IsDigit(c) || IsAlpha(c) || c == '-' }

  predicate NoNewline(s: string) { forall k | 0 <= k < |s| :: s[k] != '\n' }

  /** `s` starts with `p`. */
  predicate StartsWith(s: string, p: string) {
    |p| <= |s| && s[..|p|] == p
  }

  lemma StartsWithExtend(s: string, p: string, r: string)
    requires StartsWith(s, p)
    ensures StartsWith(s + r, p)
  {
    assert (s + r)[..|p|] == s[..|p|];
  }

  lemma StartsWithShorter(s: string, p: string, q: string)
    requires StartsWith(s, p + q)
    ensures StartsWith(s, p)
  {
    assert s[..|p|] == (p + q)[..|p|];
  }

  lemma IsSuffixAppend(a: string, b: string)
    ensures IsSuffix(b, a + b)
  {
    assert (a + b)[|a + b| - |b|..] == b;
  }

  predicate IsSuffix(suffix: string, s: string) {
    |suffix| <= |s| && s[|s| - |suffix|..] == suffix
  }

  /** `s.chars().take(n).collect::<String>()`. */
  function Take(s: string, n: nat): (r: string)
    ensures |r| == if |s| <= n then |s| else n
    ensures r == s[..|r|]
  {
    if |s| <= n then s else s[..n]
  }

  /** Index of the first `c` in `s`, or `|s|` when there is none. */
  function IndexOf(s: string, c: char): (k: nat)
    ensures k <= |s|
    ensures forall j | 0 <= j < k :: s[j] != c
    ensures k < |s| ==> s[k] == c
  {
    if s == [] then 0
    else if s[0] == c then 0
    else 1 + IndexOf(s[1..], c)
  }

  /** A line that `str::lines` ends at a line feed loses one carriage return
      before it. */
  function StripCR(line: string): string {
    if |line| > 0 && line[|line| - 1] == '\r' then line[..|line| - 1] else line
  }

  /** `str::lines`: split at each line feed; a final line feed does not start an
      empty last line, and the empty string has no lines. A last line without
      a line feed keeps a trailing carriage return. */
  function Lines(s: string): (lines: seq<string>)
    ensures forall k | 0 <= k < |lines| :: NoNewline(lines[k])
    ensures lines == [] <==> s == []
    decreases |s|
  {
    if s == [] then []
    else
      var k := IndexOf(s, '\n');
      if k == |s| then [s]
      else [StripCR(s[..k])] + Lines(s[k + 1..])
  }

  lemma {:induction false} LinesOfLine(line: string)
    requires line != [] && NoNewline(line)
    ensures Lines(line) == [line]
  {
    var k := IndexOf(line, '\n');
    assert k == |line|;
  }

  lemma {:induction false} LinesOfJoin(line: string, rest: string)
    requires NoNewline(line)
    ensures Lines(line + "\n" + rest) == [StripCR(line)] + Lines(rest)
  {
    var s := line + "\n" + rest;
    var k := IndexOf(s, '\n');
    assert s[|line|] == '\n';
    assert k == |line|;
    assert s[..k] == line;
    assert s[k + 1..] == rest;
  }

  function DigitChar(d: nat): (c: char)
    requires d < 10
    ensures IsDigit(c)
  {
    (48 + d) as char
  }

  /** Decimal rendering of a natural number, as Rust's `Display` for integers. */
  function NatToString(n: nat): (s: string)
    ensures |s| >= 1
    ensures forall k | 0 <= k < |s| :: IsDigit(s[k])
    ensures s[0] == '0' ==> n == 0 && s == "0"
    decreases n
  {
    if n < 10 then [DigitChar(n)]
    else NatToString(n / 10) + [DigitChar(n % 10)]
  }

  /** `c` does not occur in the first `|a|` characters, so the first `c` of
      `a + b` is the first `c` of `b`, shifted. */
  lemma {:induction false} IndexOfConcat(a: string, b: string, c: char)
    requires c !in a
    ensures IndexOf(a + b, c) == |a| + IndexOf(b, c)
    decreases |a|
  {
    if a != [] {
      assert (a + b)[1..] == a[1..] + b;
      assert a[0] in a;
      IndexOfConcat(a[1..], b, c);
    } else {
      assert a + b == b;
    }
  }

  /** Cutting `a + [c] + b` at its first `c` gives back `a` and `b` when `a`
      holds no `c`. */
  lemma CutAtFirst(a: string, c: char, b: string)
    requires c !in a
    ensures var s := a + [c] + b;
            IndexOf(s, c) == |a| && s[..|a|] == a && s[|a| + 1..] == b
  {
    IndexOfConcat(a, [c] + b, c);
    assert a + [c] + b == a + ([c] + b);
  }

  /** `s` is the text before position `k`, the character there, and the rest. */
  lemma RejoinAt(s: string, k: nat)
    requires k < |s|
    ensures s == s[..k] + [s[k]] + s[k + 1..]
  {
  }

  /** `s.split(c)`: the pieces between occurrences of `c`; never empty. */
  function Split(s: string, c: char): (parts: seq<string>)
    ensures |parts| >= 1
    ensures forall k | 0 <= k < |parts| :: c !in parts[k]
    decreases |s|
  {
    var k := IndexOf(s, c);
    if k == |s| then [s] else [s[..k]] + Split(s[k + 1..], c)
  }

  /** `parts.join(c)`. */
  function Join(parts: seq<string>, c: char): string
    requires |parts| >= 1
  {
    if |parts| == 1 then parts[0] else parts[0] + [c] + Join(parts[1..], c)
  }

  lemma {:induction false} JoinSplit(s: string, c: char)
    ensures Join(Split(s, c), c) == s
    decreases |s|
  {
    var k := IndexOf(s, c);
    if k < |s| {
      JoinSplit(s[k + 1..], c);
      JoinSplitStep(s, c);
    }
  }

  lemma JoinSplitStep(s: string, c: char)
    requires IndexOf(s, c) < |s|
    requires Join(Split(s[IndexOf(s, c) + 1..], c), c) == s[IndexOf(s, c) + 1..]
    ensures Join(Split(s, c), c) == s
  {
    var k := IndexOf(s, c);
    var parts, later := Split(s, c), Split(s[k + 1..], c);
    assert parts == [s[..k]] + later;
    assert parts[1..] == later;
    assert Join(parts, c) == s[..k] + [c] + Join(later, c);
    RejoinAt(s, k);
  }

  lemma {:induction false} SplitJoin(parts: seq<string>, c: char)
    requires |parts| >= 1
    requires forall k | 0 <= k < |parts| :: c !in parts[k]
    ensures Split(Join(parts, c), c) == parts
    decreases |parts|
  {
    if |parts| == 1 {
      IndexOfConcat(parts[0], [], c);
      assert parts[0] + [] == parts[0];
    } else {
      assert forall k | 0 <= k < |parts| - 1 :: parts[1..][k] == parts[k + 1];
      SplitJoin(parts[1..], c);
      SplitJoinStep(parts, c);
    }
  }

  lemma SplitJoinStep(parts: seq<string>, c: char)
    requires |parts| >= 2 && c !in parts[0]
    requires Split(Join(parts[1..], c), c) == parts[1..]
    ensures Split(Join(parts, c), c) == parts
  {
    var s, rest := Join(parts, c), Join(parts[1..], c);
    CutAtFirst(parts[0], c, rest);
    assert Split(s, c) == [parts[0]] + Split(rest, c);
    assert parts == [parts[0]] + parts[1..];
  }

  /** A character of `Join(parts, c)` is `c` or a character of some part. */
  lemma {:induction false} JoinChars(parts: seq<string>, c: char, x: char)
    requires |parts| >= 1
    requires x in Join(parts, c)
    ensures x == c || exists k | 0 <= k < |parts| :: x in parts[k]
    decreases |parts|
  {
    if |parts| > 1 {
      var rest := Join(parts[1..], c);
      assert Join(parts, c) == parts[0] + [c] + rest;
      if x in rest {
        JoinChars(parts[1..], c, x);
        if x != c {
          var k :| 0 <= k < |parts| - 1 && x in parts[1..][k];
          assert x in parts[k + 1];
        }
      }
    }
  }
}
