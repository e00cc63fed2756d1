/** `RemoteGitRepository` and the URL comparison of `GitRunner.is_same_repo`.
    A repository is named after the tail of its URL; two URLs name the same
    repository when they split into the same host, owner and path (a
    trailing `.git` ignored), or else when their absolute paths agree. */
module Remote {
  import opened Outcomes
  import opened Text

  datatype RemoteGitRepository = RemoteGitRepository(name: string, url: string, upstreamRef: Option<RemoteGitRepository>)

  /** `s.rfind(c)`, with `None` for -1. */
  function LastIndexOf(s: string, c: char): (r: Option<nat>)
    ensures r.Some? ==> r.value < |s| && s[r.value] == c && c !in s[r.value + 1..]
    ensures r.None? ==> c !in s
    decreases |s|
  {
    if s == [] then None
    else if s[|s| - 1] == c then Some(|s| - 1)
    else
      var r := LastIndexOf(s[..|s| - 1], c);
      assert s == s[..|s| - 1] + [s[|s| - 1]];
      if r.Some? then
        assert s[r.value + 1..] == s[..|s| - 1][r.value + 1..] + [s[|s| - 1]];
        r
      else r
  }

  /** `RemoteGitRepository.make_from_url(url, upstream_ref)`: the name is what
      follows the last `/`, or the whole url when it has none. */
  function MakeFromUrl(url: string, upstreamRef: Option<RemoteGitRepository>): (r: RemoteGitRepository)
    ensures r.url == url && r.upstreamRef == upstreamRef
    ensures '/' !in r.name && EndsWith(url, r.name)
    ensures r.name == url || (|r.name| < |url| && url[|url| - |r.name| - 1] == '/')
  {
    var name := match LastIndexOf(url, '/')
                case None => url
                case Some(i) => url[i + 1..];
    RemoteGitRepository(name, url, upstreamRef)
  }

  /** The `upstream_url` property. */
  function UpstreamUrl(r: RemoteGitRepository): (u: Option<string>)
    ensures u.None? <==> r.upstreamRef.None?
    ensures u.Some? ==> u.value == r.upstreamRef.value.url
  {
    match r.upstreamRef
    case None => None
    case Some(up) => Some(up.url)
  }

  /** A repository made with an upstream reports that upstream's url, and one
      made without reports none. */
  lemma UpstreamUrlOfMade(url: string, upstreamRef: Option<RemoteGitRepository>)
    ensures UpstreamUrl(MakeFromUrl(url, upstreamRef)) ==
            if upstreamRef.None? then None else Some(upstreamRef.value.url)
  {
    var r := MakeFromUrl(url, upstreamRef);
    assert r.upstreamRef == upstreamRef;
  }

  lemma {:induction false} LastIndexOfAfter(a: string, c: char, b: string)
    requires c !in b
    ensures LastIndexOf(a + [c] + b, c) == Some(|a|)
    decreases |b|
  {
    var s := a + [c] + b;
    if b != [] {
      var b' := b[..|b| - 1];
      assert s[..|s| - 1] == a + [c] + b';
      assert s[|s| - 1] == b[|b| - 1];
      LastIndexOfAfter(a, c, b');
    }
  }

  /** Naming round trip: the repository at `<prefix>/<name>` is called `name`. */
  lemma MakeFromUrlName(prefix: string, name: string, upstreamRef: Option<RemoteGitRepository>)
    requires '/' !in name
    ensures MakeFromUrl(prefix + "/" + name, upstreamRef).name == name
  {
    var url := prefix + "/" + name;
    assert url == prefix + ['/'] + name;
    LastIndexOfAfter(prefix, '/', name);
    assert url[|prefix| + 1..] == name;
  }

  // ---------------------------------------------------------------------
  // `__normalize_repo_url`.

  datatype NormalizedUrl =
    | Hosted(host: string, owner: string, path: string)   // the three regex groups
    | LocalPath(absolute: string)                         // `os.path.abspath(url)`

  /** The regex class `[a-z0-9]`. */
  predicate IsSchemeChar(c: char) {
    ('a' <= c <= 'z') || ('0' <= c <= '9')
  }

  /** The length of the longest prefix of scheme characters. */
  function SchemeRun(s: string): (n: nat)
    ensures n <= |s| && forall i :: 0 <= i < n ==> IsSchemeChar(s[i])
    ensures n < |s| ==> !IsSchemeChar(s[n])
    decreases |s|
  {
    if s != [] && IsSchemeChar(s[0]) then 1 + SchemeRun(s[1..]) else 0
  }

  /** The length of the longest prefix without `c`: what `[^c]+` (or `.+`
      for `c` a newline) consumes before the `c` that must follow it. */
  function RunWithout(s: string, c: char): (n: nat)
    ensures n <= |s| && c !in s[..n]
    ensures n < |s| ==> s[n] == c
    decreases |s|
  {
    if s == [] || s[0] == c then 0
    else
      var n := RunWithout(s[1..], c);
      assert s[..n + 1] == [s[0]] + s[1..][..n];
      n + 1
  }

  /** `[^c]+c` at the start of `s`: the group and the rest after `c`. */
  function UpTo(s: string, c: char): (r: Option<(string, string)>)
    ensures r.Some? ==> r.value.0 != [] && c !in r.value.0 && s == r.value.0 + [c] + r.value.1
  {
    var n := RunWithout(s, c);
    if n == 0 || n == |s| then None
    else
      assert s == s[..n] + [c] + s[n + 1..];
      Some((s[..n], s[n + 1..]))
  }

  /** `([^c]+)c([^/]+)/(.+)` at the start of `rest`, `c` being the character
      that ends the host: host and owner run up to their separators, the
      path is the non-empty rest of the line. */
  function HostedTail(rest: string, hostStop: char): (r: Option<(string, string, string)>)
    ensures r.Some? ==> HostedParts(r.value.0, r.value.1, r.value.2, hostStop) &&
                        StartsWith(rest, r.value.0 + [hostStop] + (r.value.1 + "/" + r.value.2))
  {
    match UpTo(rest, hostStop)
    case None => None
    case Some((host, rest1)) =>
      match UpTo(rest1, '/')
      case None => None
      case Some((owner, rest2)) =>
        var p := RunWithout(rest2, '\n');
        if p == 0 then None
        else
          assert rest1 == owner + "/" + rest2;
          assert rest == host + [hostStop] + (owner + "/" + rest2[..p]) + rest2[p..];
          Some((host, owner, rest2[..p]))
  }

  /** `re.match(r'[a-z0-9]+://([^/]+)/([^/]+)/(.+)', u)`. */
  function MatchSchemeUrl(u: string): (r: Option<(string, string, string)>)
    ensures r.Some? ==> HostedParts(r.value.0, r.value.1, r.value.2, '/')
  {
    var n := SchemeRun(u);
    if n == 0 || !OccursAt(u, "://", n) then None else HostedTail(u[n + 3..], '/')
  }

  /** `re.match(r'git@([^:]+):([^/]+)/(.+)', u)`. */
  function MatchSshUrl(u: string): (r: Option<(string, string, string)>)
    ensures r.Some? ==> StartsWith(u, "git@") && HostedParts(r.value.0, r.value.1, r.value.2, ':')
  {
    if !StartsWith(u, "git@") then None else HostedTail(u[4..], ':')
  }

  /** `url` without a trailing `.git`. */
  function Gitless(url: string): (r: string)
    ensures EndsWith(url, ".git") ==> r + ".git" == url
    ensures !EndsWith(url, ".git") ==> r == url
  {
    if EndsWith(url, ".git") then url[..|url| - 4] else url
  }

  /** `GitRunner.__normalize_repo_url(url)`; `absPath` stands for
      `os.path.abspath`, applied to the url as given. */
  function NormalizeRepoUrl(url: string, absPath: string -> string): (r: NormalizedUrl)
    ensures r.Hosted? ==> HostedParts(r.host, r.owner, r.path, '/') || HostedParts(r.host, r.owner, r.path, ':')
    ensures r.LocalPath? ==> r.absolute == absPath(url)
  {
    var gitless := Gitless(url);
    match MatchSchemeUrl(gitless)
    case Some((h, o, p)) => Hosted(h, o, p)
    case None =>
      match MatchSshUrl(gitless)
      case Some((h, o, p)) => Hosted(h, o, p)
      case None => LocalPath(absPath(url))
  }

  /** `GitRunner.is_same_repo(first, second)`. */
  function IsSameRepo(first: string, second: string, absPath: string -> string): (r: bool)
    ensures first == second ==> r
    ensures Gitless(first) == Gitless(second) && NormalizeRepoUrl(first, absPath).Hosted? ==> r
  {
    NormalizeRepoUrl(first, absPath) == NormalizeRepoUrl(second, absPath)
  }

  // ---------------------------------------------------------------------
  // Reading URLs back.

  lemma RunWithoutPrefix(a: string, c: char, b: string)
    requires c !in a
    ensures RunWithout(a + [c] + b, c) == |a|
    ensures UpTo(a + [c] + b, c) == if a == [] then None else Some((a, b))
  {
    var s := a + [c] + b;
    var n := RunWithout(s, c);
    assert forall i :: 0 <= i < |a| ==> s[i] == a[i];
    assert s[|a|] == c;
    assert forall m :: |a| < m <= |s| ==> s[..m][|a|] == c;
    assert s[..|a|] == a;
    assert s[|a| + 1..] == b;
  }

  lemma RunWithoutAbsent(a: string, c: char)
    requires c !in a
    ensures RunWithout(a, c) == |a|
  {
  }

  lemma SchemeRunPrefix(a: string, b: string)
    requires forall i :: 0 <= i < |a| ==> IsSchemeChar(a[i])
    requires b != [] && !IsSchemeChar(b[0])
    ensures SchemeRun(a + b) == |a|
  {
    var s := a + b;
    assert forall i :: 0 <= i < |a| ==> s[i] == a[i];
    assert s[|a|] == b[0];
  }

  /** A form the pattern's groups can be read back from. */
  predicate HostedParts(host: string, owner: string, path: string, hostStop: char) {
    host != [] && hostStop !in host && owner != [] && '/' !in owner && path != [] && '\n' !in path
  }

  lemma HostedTailParts(host: string, owner: string, path: string, hostStop: char)
    requires HostedParts(host, owner, path, hostStop)
    ensures HostedTail(host + [hostStop] + (owner + "/" + path), hostStop) == Some((host, owner, path))
  {
    var tail := owner + "/" + path;
    RunWithoutPrefix(host, hostStop, tail);
    assert tail == owner + ['/'] + path;
    RunWithoutPrefix(owner, '/', path);
    RunWithoutAbsent(path, '\n');
    assert path[..|path|] == path;
  }

  /** `<scheme>://<host>/<owner>/<path>` splits into its three parts. */
  lemma SchemeUrlParts(scheme: string, host: string, owner: string, path: string)
    requires scheme != [] && forall i :: 0 <= i < |scheme| ==> IsSchemeChar(scheme[i])
    requires HostedParts(host, owner, path, '/')
    ensures MatchSchemeUrl(scheme + "://" + host + "/" + owner + "/" + path) == Some((host, owner, path))
  {
    var rest := host + ['/'] + (owner + "/" + path);
    var u := scheme + "://" + host + "/" + owner + "/" + path;
    assert u == scheme + ("://" + rest);
    SchemeRunPrefix(scheme, "://" + rest);
    assert u[|scheme|..|scheme| + 3] == "://";
    assert u[|scheme| + 3..] == rest;
    HostedTailParts(host, owner, path, '/');
  }

  /** `git@<host>:<owner>/<path>` splits into its three parts. */
  lemma SshUrlParts(host: string, owner: string, path: string)
    requires HostedParts(host, owner, path, ':')
    ensures MatchSshUrl("git@" + host + ":" + owner + "/" + path) == Some((host, owner, path))
  {
    var rest := host + [':'] + (owner + "/" + path);
    var u := "git@" + host + ":" + owner + "/" + path;
    assert u == "git@" + rest;
    assert u[..4] == "git@" && u[4..] == rest;
    HostedTailParts(host, owner, path, ':');
  }

  /** An ssh form is never taken for a scheme form. */
  lemma SshIsNotScheme(rest: string)
    ensures MatchSchemeUrl("git@" + rest) == None
  {
    var u := "git@" + rest;
    assert u == "git" + ("@" + rest);
    assert forall i :: 0 <= i < 3 ==> IsSchemeChar("git"[i]);
    SchemeRunPrefix("git", "@" + rest);
    assert u[3] == '@';
    SchemeNeedsColon(u);
  }

  /** No scheme form unless `://` follows the scheme characters. */
  lemma SchemeNeedsColon(u: string)
    requires SchemeRun(u) < |u| && u[SchemeRun(u)] != ':'
    ensures MatchSchemeUrl(u) == None
  {
  }

  /** A `.git` suffix of a URL ending in `/<path>` belongs to the path. */
  lemma GitSuffixInPath(prefix: string, path: string)
    ensures EndsWith(prefix + "/" + path, ".git") ==> EndsWith(path, ".git")
  {
    var u := prefix + "/" + path;
    if EndsWith(u, ".git") {
      GitSuffixAfterSlash(prefix, path);
    }
  }

  lemma GitSuffixAfterSlash(prefix: string, path: string)
    requires EndsWith(prefix + "/" + path, ".git")
    ensures EndsWith(path, ".git")
  {
    var u := prefix + "/" + path;
    assert u[|prefix|] == '/';
    assert u[|u| - 4..] == ".git";
    assert forall i :: |u| - 4 <= i < |u| ==> u[i] == ".git"[i - (|u| - 4)];
    assert |prefix| < |u| - 4;
    assert u[|u| - 4..] == path[|path| - 4..];
  }

  /** The hosted forms normalise to their three parts, with or without a
      `.git` suffix, whatever the scheme. */
  lemma NormalizeHosted(scheme: string, host: string, owner: string, path: string, suffix: string, absPath: string -> string)
    requires scheme != [] && forall i :: 0 <= i < |scheme| ==> IsSchemeChar(scheme[i])
    requires HostedParts(host, owner, path, '/') && !EndsWith(path, ".git")
    requires suffix == "" || suffix == ".git"
    ensures NormalizeRepoUrl(scheme + "://" + host + "/" + owner + "/" + path + suffix, absPath) == Hosted(host, owner, path)
  {
    SchemeUrlParts(scheme, host, owner, path);
    GitlessOfSuffixed(scheme + "://" + host + "/" + owner, path, suffix);
  }

  /** Removing a `.git` suffix takes off exactly the suffix added to a path
      that has none of its own. */
  lemma GitlessOfSuffixed(prefix: string, path: string, suffix: string)
    requires !EndsWith(path, ".git") && (suffix == "" || suffix == ".git")
    ensures Gitless(prefix + "/" + path + suffix) == prefix + "/" + path
  {
    var bare := prefix + "/" + path;
    if suffix == "" {
      assert bare + suffix == bare;
      GitSuffixInPath(prefix, path);
    } else {
      var u := bare + suffix;
      assert u[|u| - 4..] == ".git";
      assert u[..|u| - 4] == bare;
    }
  }

  lemma NormalizeSsh(host: string, owner: string, path: string, suffix: string, absPath: string -> string)
    requires HostedParts(host, owner, path, ':') && !EndsWith(path, ".git")
    requires suffix == "" || suffix == ".git"
    ensures NormalizeRepoUrl("git@" + host + ":" + owner + "/" + path + suffix, absPath) == Hosted(host, owner, path)
  {
    SshUrlParts(host, owner, path);
    SshFormIsNotScheme(host, owner, path);
    GitlessOfSuffixed("git@" + host + ":" + owner, path, suffix);
  }

  lemma SshFormIsNotScheme(host: string, owner: string, path: string)
    ensures MatchSchemeUrl("git@" + host + ":" + owner + "/" + path) == None
  {
    assert "git@" + host + ":" + owner + "/" + path == "git@" + (host + ":" + owner + "/" + path);
    SshIsNotScheme(host + ":" + owner + "/" + path);
  }

  /** The https, ssh and `.git`-suffixed spellings of one hosted repository
      are the same repository. */
  lemma SameRepoAcrossForms(scheme: string, host: string, owner: string, path: string, absPath: string -> string)
    requires scheme != [] && forall i :: 0 <= i < |scheme| ==> IsSchemeChar(scheme[i])
    requires HostedParts(host, owner, path, '/') && ':' !in host && !EndsWith(path, ".git")
    ensures IsSameRepo(scheme + "://" + host + "/" + owner + "/" + path,
                       "git@" + host + ":" + owner + "/" + path + ".git", absPath)
  {
    NormalizeHosted(scheme, host, owner, path, "", absPath);
    assert scheme + "://" + host + "/" + owner + "/" + path + "" == scheme + "://" + host + "/" + owner + "/" + path;
    NormalizeSsh(host, owner, path, ".git", absPath);
  }

  lemma NoColonNoMatch(g: string)
    requires ':' !in g
    ensures MatchSchemeUrl(g) == None && MatchSshUrl(g) == None
  {
    var n := SchemeRun(g);
    if n + 3 <= |g| {
      assert g[n..n + 3][0] == g[n];
    }
    if |g| >= 4 {
      RunWithoutAbsent(g[4..], ':');
    }
  }

  /** A URL without `:` matches neither pattern and is compared as a local path. */
  lemma NoColonIsLocal(url: string, absPath: string -> string)
    requires ':' !in url
    ensures NormalizeRepoUrl(url, absPath) == LocalPath(absPath(url))
  {
    var g := Gitless(url);
    assert ':' !in g;
    NoColonNoMatch(g);
  }
}
