/** The co-author trailer parser: `parse_author_from_line` matches the
    unanchored pattern `Co-authored-by: (name) <(mail)>` with `name` and
    `mail` both `.+` (greedy), and `parse_author_from_body` collects one
    author per matching line of a commit message. */
module Trailer {
  import opened Text
  import opened Entities

  const Tag: string := "Co-authored-by: "

  predicate TagAt(s: string, i: nat) {
    i + |Tag| <= |s| && s[i..i + |Tag|] == Tag
  }

  /** A match: the tag at `i`, the `" <"` ending the name at `k`, the `>`
      ending the mail at `m`; name and mail nonempty. */
  predicate TrailerAt(s: string, i: nat, k: nat, m: nat) {
    TagAt(s, i) && i + |Tag| < k && k + 2 < m < |s| && s[k] == ' ' && s[k + 1] == '<' && s[m] == '>'
  }

  /** The last `>` at or before `hi`. */
  function LastGt(s: string, hi: int): (r: Option<nat>)
    requires hi < |s|
    ensures r.Some? ==> r.value <= hi && s[r.value] == '>'
    ensures r.Some? ==> forall j | r.value < j <= hi :: s[j] != '>'
    ensures r.None? ==> forall j | 0 <= j <= hi :: s[j] != '>'
    decreases hi
  {
    if hi < 0 then None
    else if s[hi] == '>' then Some(hi as nat)
    else LastGt(s, hi - 1)
  }

  /** The greedy name: the last `" <"` at or before `hi` that leaves the name
      nonempty. */
  function NameEnd(s: string, i: nat, hi: int): (r: Option<nat>)
    requires hi + 1 < |s|
    ensures r.Some? ==> i + |Tag| < r.value <= hi && s[r.value] == ' ' && s[r.value + 1] == '<'
    ensures r.Some? ==> forall j | r.value < j <= hi :: !(s[j] == ' ' && s[j + 1] == '<')
    ensures r.None? ==> forall j | i + |Tag| < j <= hi :: !(s[j] == ' ' && s[j + 1] == '<')
    decreases hi
  {
    if hi <= i + |Tag| then None
    else if s[hi] == ' ' && s[hi + 1] == '<' then Some(hi as nat)
    else NameEnd(s, i, hi - 1)
  }

  /** The first match in priority order starting at `i`: the mail runs to the
      last `>` of the line and the name to the last `" <"` before it. */
  function TrailerMatchAt(s: string, i: nat): (r: Option<(nat, nat)>)
    ensures r.Some? ==> TrailerAt(s, i, r.value.0, r.value.1)
    ensures r.Some? ==> forall k: nat, m: nat | TrailerAt(s, i, k, m) :: k <= r.value.0 && m <= r.value.1
    ensures r.None? ==> forall k: nat, m: nat :: !TrailerAt(s, i, k, m)
  {
    if !TagAt(s, i) then None
    else
      match LastGt(s, |s| - 1)
      case None => None
      case Some(m) =>
        if m < 3 then None
        else
          match NameEnd(s, i, m - 3)
          case None => None
          case Some(k) => Some((k, m))
  }

  /** Leftmost search over start positions from `i` on. */
  function TrailerFrom(s: string, i: nat): (r: Option<(nat, nat, nat)>)
    ensures r.Some? ==> i <= r.value.0 && TrailerMatchAt(s, r.value.0) == Some((r.value.1, r.value.2))
    ensures r.Some? ==> forall j | i <= j < r.value.0 :: TrailerMatchAt(s, j).None?
    ensures r.None? ==> forall j | i <= j < |s| :: TrailerMatchAt(s, j).None?
    decreases |s| - i
  {
    if i >= |s| then None
    else match TrailerMatchAt(s, i)
      case Some((k, m)) => Some((i, k, m))
      case None => TrailerFrom(s, i + 1)
  }

  /** The regex engine's match: leftmost start, then the longest name, then
      the longest mail. */
  function TrailerMatch(s: string): (r: Option<(nat, nat, nat)>)
    ensures r.Some? ==> TrailerAt(s, r.value.0, r.value.1, r.value.2)
    ensures r.None? <==> forall i: nat, k: nat, m: nat :: !TrailerAt(s, i, k, m)
    ensures r.Some? ==> forall i: nat, k: nat, m: nat | TrailerAt(s, i, k, m) ::
              r.value.0 <= i && (i == r.value.0 ==> k <= r.value.1 && m <= r.value.2)
  {
    TrailerFromLeftmost(s);
    TrailerFrom(s, 0)
  }

  lemma TrailerFromLeftmost(s: string)
    ensures var r := TrailerFrom(s, 0);
            && (r.None? <==> forall i: nat, k: nat, m: nat :: !TrailerAt(s, i, k, m))
            && (r.Some? ==> forall i: nat, k: nat, m: nat | TrailerAt(s, i, k, m) ::
                  r.value.0 <= i && (i == r.value.0 ==> k <= r.value.1 && m <= r.value.2))
  {
    var r := TrailerFrom(s, 0);
    forall i: nat, k: nat, m: nat | TrailerAt(s, i, k, m)
      ensures r.Some? && r.value.0 <= i && (i == r.value.0 ==> k <= r.value.1 && m <= r.value.2)
    {
      assert TrailerMatchAt(s, i).Some?;
    }
  }

  /** `parse_author_from_line`. */
  function ParseAuthorFromLine(line: string): (r: Option<Author>)
    requires NoNewline(line)
  {
    match TrailerMatch(line)
    case None => None
    case Some((i, k, m)) => Some(Author(line[i + |Tag|..k], line[k + 2..m], ""))
  }

  /** The trailer `Co-authored-by: name <mail>` for `a`. */
  function TrailerText(a: Author): string {
    Tag + a.name + " <" + a.mail + ">"
  }

  /** `t` occurs in `line` starting at `i`. */
  predicate OccursAt(t: string, line: string, i: nat) {
    i + |t| <= |line| && line[i..i + |t|] == t
  }

  /** A line yields an author exactly when it holds a trailer; the author has a
      nonempty name and mail, no username, and the trailer rebuilt from them
      stands in the line. */
  lemma ParseAuthorFromLineSpec(line: string)
    requires NoNewline(line)
    ensures ParseAuthorFromLine(line).None? <==> forall i: nat, k: nat, m: nat :: !TrailerAt(line, i, k, m)
    ensures ParseAuthorFromLine(line).Some? ==>
              var a := ParseAuthorFromLine(line).value;
              && a.name != "" && a.mail != "" && a.username == ""
              && exists i: nat :: OccursAt(TrailerText(a), line, i)
  {
    if TrailerMatch(line).Some? {
      var (i, k, m) := TrailerMatch(line).value;
      TrailerTextAt(line, i, k, m);
    }
  }

  /** The author read from a trailer match spells the trailer out again. */
  lemma TrailerTextAt(line: string, i: nat, k: nat, m: nat)
    requires TrailerAt(line, i, k, m)
    ensures OccursAt(TrailerText(Author(line[i + |Tag|..k], line[k + 2..m], "")), line, i)
  {
    var j := i + |Tag|;
    assert line[i..j] == Tag;
    assert line[k..k + 2] == " <";
    SliceSplit(line, i, j, k, m);
  }

  lemma SliceSplit(line: string, i: nat, j: nat, k: nat, m: nat)
    requires i <= j <= k && k + 2 <= m < |line|
    requires line[k..k + 2] == " <" && line[m] == '>'
    ensures line[i..m + 1] == line[i..j] + line[j..k] + " <" + line[k + 2..m] + ">"
  {
    assert line[m..m + 1] == ">";
    assert line[i..k] == line[i..j] + line[j..k];
    assert line[i..k + 2] == line[i..k] + line[k..k + 2];
    assert line[i..m] == line[i..k + 2] + line[k + 2..m];
    assert line[i..m + 1] == line[i..m] + line[m..m + 1];
  }

  /** The authors the trailer lines of `lines` yield, in line order. */
  function CoAuthorsOf(lines: seq<string>): (authors: seq<Author>)
    requires forall j | 0 <= j < |lines| :: NoNewline(lines[j])
  {
    if lines == [] then []
    else
      CoAuthorsOf(lines[..|lines| - 1])
      + match ParseAuthorFromLine(lines[|lines| - 1])
        case None => []
        case Some(a) => [a]
  }

  /** The number of lines that hold a trailer. */
  function TrailerLineCount(lines: seq<string>): nat
    requires forall j | 0 <= j < |lines| :: NoNewline(lines[j])
  {
    if lines == [] then 0
    else TrailerLineCount(lines[..|lines| - 1])
         + if ParseAuthorFromLine(lines[|lines| - 1]).Some? then 1 else 0
  }

  /** One author per trailer line, each with a nonempty name and mail and no
      username. */
  lemma {:induction false} CoAuthorsOfSpec(lines: seq<string>)
    requires forall j | 0 <= j < |lines| :: NoNewline(lines[j])
    ensures |CoAuthorsOf(lines)| == TrailerLineCount(lines)
    ensures forall j | 0 <= j < |CoAuthorsOf(lines)| ::
              var a := CoAuthorsOf(lines)[j]; a.name != "" && a.mail != "" && a.username == ""
  {
    if lines != [] {
      var init := lines[..|lines| - 1];
      CoAuthorsOfSpec(init);
      ParseAuthorFromLineSpec(lines[|lines| - 1]);
    }
  }

  /** `parse_author_from_body`: pushes onto the caller's vector one author per
      line of `body` that holds a trailer, in line order. */
  method ParseAuthorFromBody(body: string, authors: seq<Author>) returns (result: seq<Author>)
    ensures result == authors + CoAuthorsOf(Lines(body))
    ensures result[..|authors|] == authors
    ensures |result| == |authors| + TrailerLineCount(Lines(body))
    ensures forall j | |authors| <= j < |result| ::
              result[j].name != "" && result[j].mail != "" && result[j].username == ""
  {
    var lines := Lines(body);
    result := authors;
    var n := 0;
    while n < |lines|
      invariant n <= |lines|
      invariant result == authors + CoAuthorsOf(lines[..n])
    {
      var author := ParseAuthorFromLine(lines[n]);
      assert lines[..n + 1][..n] == lines[..n];
      if author.Some? {
        result := result + [author.value];
      }
      n := n + 1;
    }
    assert lines[..n] == lines;
    CoAuthorsAppended(authors, lines);
  }

  /** What appending the co-authors of `lines` to `authors` keeps and adds. */
  lemma CoAuthorsAppended(authors: seq<Author>, lines: seq<string>)
    requires forall j | 0 <= j < |lines| :: NoNewline(lines[j])
    ensures var result := authors + CoAuthorsOf(lines);
            && result[..|authors|] == authors
            && |result| == |authors| + TrailerLineCount(lines)
            && forall j | |authors| <= j < |result| ::
                 result[j].name != "" && result[j].mail != "" && result[j].username == ""
  {
    var result := authors + CoAuthorsOf(lines);
    CoAuthorsOfSpec(lines);
    assert result[..|authors|] == authors;
    forall j | |authors| <= j < |result|
      ensures result[j].name != "" && result[j].mail != "" && result[j].username == ""
    {
      assert result[j] == CoAuthorsOf(lines)[j - |authors|];
    }
  }
}
