/** `parse_git_url`: host, owner ("scope") and repository name of a remote
    URL, read with the SSH pattern `^git@([^:]+):([^/]+)/(.+).git$` first and
    the HTTP pattern `^https?://([^/]+)/([^/]+)/(.+)$` second. `[^:]` and
    `[^/]` match any other character, line feeds included; `.` matches any
    character but a line feed; `$` is the end of the text. Each pattern has
    exactly one way to match: the host ends at the first `:` (or `/`), the
    owner at the next `/`, and the SSH repository four characters before the
    end. */
module Remote {
  import opened Text

  datatype Location = Location(host: string, scope: string, repo: string)

  /** Host and owner as the two `[^…]+` groups of both patterns read them. */
  function HostAndScope(rest: string, sep: char): Option<(string, string, string)> {
    var p := IndexOf(rest, sep);
    if p == 0 || p == |rest| then None
    else
      var after := rest[p + 1..];
      var q := IndexOf(after, '/');
      if q == 0 || q == |after| then None
      else Some((rest[..p], after[..q], after[q + 1..]))
  }

  /** The SSH pattern's `(.+).git$` AS WRITTEN: its unescaped `.` accepts any
      character but a line feed before the final `git`. */
  function SshRepoAsWritten(tail: string): Option<string> {
    if |tail| < 5 || tail[|tail| - 3..] != "git" || '\n' in tail[..|tail| - 3] then None
    else Some(tail[..|tail| - 4])
  }

  /** `(.+)\.git$`: the dot escaped, so the text must end in `.git`. */
  function SshRepo(tail: string): Option<string> {
    if |tail| < 5 || tail[|tail| - 4..] != ".git" || '\n' in tail[..|tail| - 4] then None
    else Some(tail[..|tail| - 4])
  }

  /** The SSH pattern AS WRITTEN. */
  function ParseSshAsWritten(url: string): Option<Location> {
    if !StartsWith(url, "git@") then None
    else match HostAndScope(url[4..], ':')
      case None => None
      case Some((host, scope, tail)) =>
        match SshRepoAsWritten(tail)
        case None => None
        case Some(repo) => Some(Location(host, scope, repo))
  }

  /** The SSH pattern with the dot escaped. */
  function ParseSsh(url: string): Option<Location> {
    if !StartsWith(url, "git@") then None
    else match HostAndScope(url[4..], ':')
      case None => None
      case Some((host, scope, tail)) =>
        match SshRepo(tail)
        case None => None
        case Some(repo) => Some(Location(host, scope, repo))
  }

  /** The HTTP pattern; `https?` takes the `s` when there is one. */
  function ParseHttp(url: string): Option<Location> {
    var rest :=
      if StartsWith(url, "https://") then Some(url[8..])
      else if StartsWith(url, "http://") then Some(url[7..])
      else None;
    match rest
    case None => None
    case Some(rest) =>
      match HostAndScope(rest, '/')
      case None => None
      case Some((host, scope, repo)) =>
        if repo == "" || '\n' in repo then None else Some(Location(host, scope, repo))
  }

  /** `parse_git_url` as written. */
  function ParseGitUrlAsWritten(url: string): Option<Location> {
    match ParseSshAsWritten(url)
    case Some(l) => Some(l)
    case None => ParseHttp(url)
  }

  /** `parse_git_url` with the SSH pattern's dot escaped. */
  function ParseGitUrl(url: string): Option<Location> {
    match ParseSsh(url)
    case Some(l) => Some(l)
    case None => ParseHttp(url)
  }

  // ---------------------------------------------------------------------
  // What the patterns accept

  /** A host for the SSH form, an owner, and a repository name. */
  predicate SshParts(l: Location) {
    && l.host != "" && ':' !in l.host
    && l.scope != "" && '/' !in l.scope
    && l.repo != "" && '\n' !in l.repo
  }

  /** A host for the HTTP form, an owner, and a repository path. */
  predicate HttpParts(l: Location) {
    && l.host != "" && '/' !in l.host
    && l.scope != "" && '/' !in l.scope
    && l.repo != "" && '\n' !in l.repo
  }

  /** `a`, the separator, `b`, a slash and `c`. */
  function Joined(a: string, sep: char, b: string, c: string): string {
    a + [sep] + (b + ['/'] + c)
  }

  function SshUrl(l: Location): string {
    "git@" + Joined(l.host, ':', l.scope, l.repo + ".git")
  }

  function Scheme(secure: bool): string {
    if secure then "https://" else "http://"
  }

  function HttpUrl(secure: bool, l: Location): string {
    Scheme(secure) + Joined(l.host, '/', l.scope, l.repo)
  }

  /** The groups split a joined text back into its parts. */
  lemma HostAndScopeOf(a: string, sep: char, b: string, c: string)
    requires a != "" && sep !in a && b != "" && '/' !in b
    ensures HostAndScope(Joined(a, sep, b, c), sep) == Some((a, b, c))
  {
    CutAtFirst(a, sep, b + ['/'] + c);
    CutAtFirst(b, '/', c);
  }

  /** What the groups return rebuilds their input. */
  lemma HostAndScopeRejoins(rest: string, sep: char)
    requires HostAndScope(rest, sep).Some?
    ensures var (a, b, c) := HostAndScope(rest, sep).value;
            && rest == Joined(a, sep, b, c)
            && a != "" && sep !in a && b != "" && '/' !in b
  {
    var p := IndexOf(rest, sep);
    var after := rest[p + 1..];
    RejoinAt(after, IndexOf(after, '/'));
    RejoinAt(rest, p);
  }

  lemma SshRepoOf(repo: string)
    requires repo != "" && '\n' !in repo
    ensures SshRepo(repo + ".git") == Some(repo)
  {
    var tail := repo + ".git";
    assert tail[|tail| - 4..] == ".git";
    assert tail[..|tail| - 4] == repo;
  }

  lemma SshRepoRejoins(tail: string)
    requires SshRepo(tail).Some?
    ensures var repo := SshRepo(tail).value; repo != "" && '\n' !in repo && tail == repo + ".git"
  {
    assert tail == tail[..|tail| - 4] + tail[|tail| - 4..];
  }

  lemma StartsWithConcat(p: string, s: string)
    ensures StartsWith(p + s, p) && (p + s)[|p|..] == s
  {
    assert (p + s)[..|p|] == p;
  }

  /** Every SSH URL of well-formed parts is read back into those parts. */
  lemma SshRoundTrip(l: Location)
    requires SshParts(l)
    ensures ParseSsh(SshUrl(l)) == Some(l)
    ensures ParseGitUrl(SshUrl(l)) == Some(l)
  {
    StartsWithConcat("git@", Joined(l.host, ':', l.scope, l.repo + ".git"));
    HostAndScopeOf(l.host, ':', l.scope, l.repo + ".git");
    SshRepoOf(l.repo);
  }

  /** Whatever the SSH reading accepts is an SSH URL of well-formed parts. */
  lemma SshSound(url: string)
    requires ParseSsh(url).Some?
    ensures SshParts(ParseSsh(url).value) && url == SshUrl(ParseSsh(url).value)
  {
    var rest := url[4..];
    HostAndScopeRejoins(rest, ':');
    var (host, scope, tail) := HostAndScope(rest, ':').value;
    SshRepoRejoins(tail);
    assert url == url[..4] + rest;
  }

  /** After either scheme the HTTP reading is the groups' reading of the
      rest, and the SSH reading fails. */
  lemma SchemeRest(secure: bool, rest: string)
    ensures ParseSsh(Scheme(secure) + rest) == None
    ensures ParseHttp(Scheme(secure) + rest) == HttpOfRest(rest)
  {
    var url := Scheme(secure) + rest;
    StartsWithConcat(Scheme(secure), rest);
    assert url[0] == 'h';
    NotSsh(url);
    if !secure {
      assert url[4] == ':';
      assert !StartsWith(url, "https://");
    }
  }

  /** The HTTP pattern once its scheme is matched. */
  function HttpOfRest(rest: string): Option<Location> {
    match HostAndScope(rest, '/')
    case None => None
    case Some((host, scope, repo)) =>
      if repo == "" || '\n' in repo then None else Some(Location(host, scope, repo))
  }

  /** What the HTTP reading accepts starts with a scheme, and the rest is
      read by the groups. */
  lemma HttpScheme(url: string)
    requires ParseHttp(url).Some?
    ensures var secure := StartsWith(url, "https://");
            && url == Scheme(secure) + url[|Scheme(secure)|..]
            && ParseHttp(url) == HttpOfRest(url[|Scheme(secure)|..])
  {
    var secure := StartsWith(url, "https://");
    var n := |Scheme(secure)|;
    assert url == url[..n] + url[n..];
  }

  /** Every HTTP(S) URL of well-formed parts is read back into those parts;
      the SSH form does not claim it, as it starts differently. */
  lemma HttpRoundTrip(secure: bool, l: Location)
    requires HttpParts(l)
    ensures ParseHttp(HttpUrl(secure, l)) == Some(l)
    ensures ParseGitUrl(HttpUrl(secure, l)) == Some(l)
  {
    SchemeRest(secure, Joined(l.host, '/', l.scope, l.repo));
    HostAndScopeOf(l.host, '/', l.scope, l.repo);
  }

  /** Whatever the HTTP reading accepts is an HTTP(S) URL of well-formed
      parts. */
  lemma HttpSound(url: string)
    requires ParseHttp(url).Some?
    ensures HttpParts(ParseHttp(url).value)
    ensures url == HttpUrl(true, ParseHttp(url).value) || url == HttpUrl(false, ParseHttp(url).value)
  {
    var secure := StartsWith(url, "https://");
    HttpScheme(url);
    HostAndScopeRejoins(url[|Scheme(secure)|..], '/');
  }

  // ---------------------------------------------------------------------
  // The unescaped dot

  /** An SSH URL with `x` where `.git` has its dot. */
  function SshUrlWith(l: Location, x: char): string {
    "git@" + Joined(l.host, ':', l.scope, l.repo + [x] + "git")
  }

  /** As written, any character may stand where `.git` wants its dot. */
  lemma SshAsWrittenAnyDot(l: Location, x: char)
    requires SshParts(l) && x != '\n'
    ensures ParseSshAsWritten(SshUrlWith(l, x)) == Some(l)
  {
    var tail := l.repo + [x] + "git";
    StartsWithConcat("git@", Joined(l.host, ':', l.scope, tail));
    HostAndScopeOf(l.host, ':', l.scope, tail);
    assert tail[|tail| - 3..] == "git";
    assert tail[..|tail| - 3] == l.repo + [x];
    assert tail[..|tail| - 4] == l.repo;
  }

  lemma SshRepoAsWrittenRejoins(tail: string)
    requires SshRepoAsWritten(tail).Some?
    ensures var repo := SshRepoAsWritten(tail).value;
            repo != "" && '\n' !in repo && tail[|repo|] != '\n' && tail == repo + [tail[|repo|]] + "git"
  {
    assert tail == tail[..|tail| - 4] + [tail[|tail| - 4]] + tail[|tail| - 3..];
    assert tail[..|tail| - 3] == tail[..|tail| - 4] + [tail[|tail| - 4]];
  }

  /** Whatever the SSH pattern AS WRITTEN accepts is an SSH URL of
      well-formed parts, with some character other than a line feed where
      `.git` has its dot. */
  lemma SshAsWrittenSound(url: string)
    requires ParseSshAsWritten(url).Some?
    ensures var l := ParseSshAsWritten(url).value;
            SshParts(l) && exists x | x != '\n' :: url == SshUrlWith(l, x)
  {
    var rest := url[4..];
    HostAndScopeRejoins(rest, ':');
    var (host, scope, tail) := HostAndScope(rest, ':').value;
    SshRepoAsWrittenRejoins(tail);
    var repo := SshRepoAsWritten(tail).value;
    var x := tail[|repo|];
    assert url == url[..4] + rest;
    assert url == SshUrlWith(Location(host, scope, repo), x);
  }

  /** An SSH remote whose name ends in `git` without a dot before it (such as
      `git@github.com:owner/my-legit`) is read AS WRITTEN with its last four
      characters cut off (`my-l`), where the escaped pattern rejects it. */
  lemma SshAsWrittenTruncates(l: Location, x: char)
    requires SshParts(l) && x != '\n' && x != '.'
    ensures var url := SshUrlWith(l, x);
            && ParseGitUrlAsWritten(url) == Some(l)
            && ParseGitUrl(url) == None
  {
    var tail := l.repo + [x] + "git";
    var url := "git@" + Joined(l.host, ':', l.scope, tail);
    SshAsWrittenAnyDot(l, x);
    StartsWithConcat("git@", Joined(l.host, ':', l.scope, tail));
    HostAndScopeOf(l.host, ':', l.scope, tail);
    assert tail[|tail| - 4] == x;
    assert SshRepo(tail) == None;
    assert ParseSsh(url) == None;
    assert url[0] == 'g';
    NotHttp(url);
  }

  lemma NotSsh(url: string)
    requires |url| > 0 && url[0] != 'g'
    ensures ParseSsh(url) == None
  {
    assert !StartsWith(url, "git@") by {
      if |url| >= 4 { assert url[..4][0] == url[0]; }
    }
  }

  lemma NotHttp(url: string)
    requires |url| > 0 && url[0] != 'h'
    ensures ParseHttp(url) == None
  {
    assert !StartsWith(url, "https://") by {
      if |url| >= 8 { assert url[..8][0] == url[0]; }
    }
    assert !StartsWith(url, "http://") by {
      if |url| >= 7 { assert url[..7][0] == url[0]; }
    }
  }
}
