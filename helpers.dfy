/** The pure helpers of `update_readme.py` that `generate_html.py` also imports:
    `parse_github_url`, `calculate_completion` and `get_progress_bar`. */
module Helpers {
  import opened Basics
  import opened Fetch

  const Host := "github.com/"

  predicate NotSlash(c: char) {
    c != '/'
  }

  /** The class `[^/\s,]` of the repository name. */
  predicate InRepoName(c: char) {
    c != '/' && c != ',' && !IsSpace(c)
  }

  /** The pattern `github\.com/([^/]+)/([^/\s,]+)` matched at the start of `s`: the owner and
      repository it captures. Both classes are greedy; the owner run is followed by '/', so it
      is the longest run of non-'/' characters, and the repository is the longest run of
      `[^/\s,]` characters after that slash. */
  function UrlAt(s: string): Option<(string, string)> {
    if HasPrefix(s, Host) then
      var rest := s[|Host|..];
      var o := Run(rest, NotSlash);
      if 0 < o < |rest| then
        var tail := rest[o + 1..];
        var n := Run(tail, InRepoName);
        if n > 0 then Some((rest[..o], tail[..n])) else None
      else None
    else None
  }

  /** The declarative reading of the pattern at the start of `s`: the text is
      `github.com/` + owner + `/` + repo, the owner is non-empty without '/', the repository is
      non-empty without '/', whitespace or ',', and the repository is not followed by a
      character it could have taken in. */
  ghost predicate Captures(s: string, owner: string, repo: string) {
    HasPrefix(s, Host + owner + "/" + repo)
    && owner != [] && (forall i :: 0 <= i < |owner| ==> owner[i] != '/')
    && repo != [] && (forall i :: 0 <= i < |repo| ==> InRepoName(repo[i]))
    && var after := |Host| + |owner| + 1 + |repo|;
       (after == |s| || !InRepoName(s[after]))
  }

  /** The anchored matcher captures exactly what the pattern describes, in both directions. */
  lemma UrlAtCaptures(s: string, owner: string, repo: string)
    ensures UrlAt(s) == Some((owner, repo)) <==> Captures(s, owner, repo)
  {
    if UrlAt(s) == Some((owner, repo)) {
      UrlAtSound(s, owner, repo);
    }
    if Captures(s, owner, repo) {
      UrlAtComplete(s, owner, repo);
    }
  }

  lemma UrlAtSound(s: string, owner: string, repo: string)
    requires UrlAt(s) == Some((owner, repo))
    ensures Captures(s, owner, repo)
  {
    var h := |Host|;
    var rest := s[h..];
    var o := Run(rest, NotSlash);
    var tail := rest[o + 1..];
    assert owner == rest[..o] && |owner| == o;
    assert repo == tail[..Run(tail, InRepoName)];
    assert rest[o] == '/';
    var prefix := Host + owner + "/" + repo;
    assert s[..|prefix|] == prefix by {
      assert s[..h] == Host;
      assert s[h..h + o] == owner;
      assert s[h + o] == '/';
      assert s[h + o + 1..h + o + 1 + |repo|] == repo;
    }
  }

  lemma UrlAtComplete(s: string, owner: string, repo: string)
    requires Captures(s, owner, repo)
    ensures UrlAt(s) == Some((owner, repo))
  {
    var h, o, n := |Host|, |owner|, |repo|;
    CapturesAt(s, owner, repo);
    var rest := s[h..];
    forall i | 0 <= i < o ensures rest[i] == owner[i] {
      assert rest[i] == s[h + i];
    }
    assert rest[o] == s[h + o];
    RunExact(rest, o, NotSlash);
    var tail := rest[o + 1..];
    forall i | 0 <= i < n ensures tail[i] == repo[i] {
      assert tail[i] == s[h + o + 1 + i];
    }
    if n < |tail| {
      assert tail[n] == s[h + o + 1 + n];
    }
    RunExact(tail, n, InRepoName);
    assert rest[..o] == owner;
    assert tail[..n] == repo;
  }

  /** The captures, character by character. */
  lemma CapturesAt(s: string, owner: string, repo: string)
    requires Captures(s, owner, repo)
    ensures HasPrefix(s, Host)
    ensures forall i :: 0 <= i < |owner| ==> s[|Host| + i] == owner[i]
    ensures s[|Host| + |owner|] == '/'
    ensures forall i :: 0 <= i < |repo| ==> s[|Host| + |owner| + 1 + i] == repo[i]
  {
    var h, o := |Host|, |owner|;
    var prefix := Host + owner + "/" + repo;
    assert s[..|prefix|] == prefix;
    assert s[..h] == prefix[..h];
    forall i | 0 <= i < o ensures s[h + i] == owner[i] {
      assert s[h + i] == prefix[h + i];
    }
    assert s[h + o] == prefix[h + o];
    forall i | 0 <= i < |repo| ensures s[h + o + 1 + i] == repo[i] {
      assert s[h + o + 1 + i] == prefix[h + o + 1 + i];
    }
  }

  /** `parse_github_url`: `re.search` of the pattern, returning the two captures. */
  function ParseGithubUrl(url: string): Option<(string, string)> {
    Search(url, UrlAt)
  }

  /** `parse_github_url` returns the owner and repository captured at the leftmost position where
      the pattern matches, and None exactly when the pattern matches nowhere. */
  lemma ParseGithubUrlSpec(url: string)
    ensures var r := ParseGithubUrl(url);
            r.Some? ==> exists i :: 0 <= i <= |url| && Captures(url[i..], r.value.0, r.value.1)
                          && forall j :: 0 <= j < i ==> UrlAt(url[j..]).None?
    ensures ParseGithubUrl(url).None? <==>
              forall i, owner, repo :: 0 <= i <= |url| ==> !Captures(url[i..], owner, repo)
  {
    var r := ParseGithubUrl(url);
    FirstMatchSpec(url, UrlAt);
    if r.Some? {
      var i := FirstMatch(url, UrlAt).value;
      UrlAtCaptures(url[i..], r.value.0, r.value.1);
    } else {
      forall i, owner, repo | 0 <= i <= |url| ensures !Captures(url[i..], owner, repo) {
        UrlAtCaptures(url[i..], owner, repo);
      }
    }
  }

  /** The pieces `parse_github_url` returns are usable as a path: a non-empty owner without '/',
      and a non-empty repository name without '/', whitespace or ','. */
  lemma ParsedPartsWellFormed(url: string)
    requires ParseGithubUrl(url).Some?
    ensures var (owner, repo) := ParseGithubUrl(url).value;
            owner != [] && (forall i :: 0 <= i < |owner| ==> owner[i] != '/')
            && repo != [] && (forall i :: 0 <= i < |repo| ==> repo[i] != '/' && repo[i] != ',' && !IsSpace(repo[i]))
  {
    ParseGithubUrlSpec(url);
  }

  /** `calculate_completion`: the percentage of closed issues, 0.0 when there are none. */
  function CalculateCompletion(closed: int, total: int): (pct: real)
    ensures total == 0 ==> pct == 0.0
    ensures total != 0 ==> pct * (total as real) == (closed as real) * 100.0
    ensures 0 <= closed <= total ==> 0.0 <= pct <= 100.0
  {
    if total == 0 then 0.0 else (closed as real / total as real) * 100.0
  }

  /** `(ready / len(components)) * 100`, the overall completion both scripts compute: the ready
      share of the catalog as a percentage. */
  function OverallCompletion(ready: nat, total: nat): (overall: real)
    requires 0 < total && ready <= total
    ensures overall * (total as real) == (ready as real) * 100.0
    ensures 0.0 <= overall <= 100.0
  {
    var overall := (ready as real / total as real) * 100.0;
    assert overall == CalculateCompletion(ready, total);
    overall
  }

  /** More closed issues out of the same total never lower the completion. */
  lemma CompletionMonotone(closed1: int, closed2: int, total: nat)
    requires closed1 <= closed2
    ensures CalculateCompletion(closed1, total) <= CalculateCompletion(closed2, total)
  {
    if total != 0 {
      var t := total as real;
      assert closed2 as real / t - closed1 as real / t == (closed2 - closed1) as real / t;
    }
  }

  const FullBlock := '\U{2588}'
  const LightShade := '\U{2591}'

  /** Python's `int(x)` on a number: truncation toward zero. */
  function Truncate(x: real): (n: int)
    ensures 0.0 <= x ==> n as real <= x < n as real + 1.0
    ensures x < 0.0 ==> n as real - 1.0 < x <= n as real
  {
    if x >= 0.0 then x.Floor else -((-x).Floor)
  }

  /** `get_progress_bar(percentage, width)`: `int(percentage / 100 * width)` full blocks, then
      light shades up to `width`. */
  function ProgressBar(percentage: real, width: int): (bar: string)
    ensures 0.0 <= percentage <= 100.0 && 0 <= width ==>
              |bar| == width
              && forall i :: 0 <= i < width ==>
                   bar[i] == if i < (percentage * width as real / 100.0).Floor then FullBlock else LightShade
  {
    var filled := Truncate(percentage / 100.0 * width as real);
    assert 0.0 <= percentage <= 100.0 && 0 <= width ==>
             0 <= filled <= width && filled == (percentage * width as real / 100.0).Floor by {
      if 0.0 <= percentage <= 100.0 && 0 <= width {
        FilledBounds(percentage, width);
        assert percentage / 100.0 * width as real == percentage * width as real / 100.0;
      }
    }
    Repeat(FullBlock, filled) + Repeat(LightShade, width - filled)
  }

  lemma FilledBounds(percentage: real, width: int)
    requires 0.0 <= percentage <= 100.0 && 0 <= width
    ensures 0.0 <= percentage / 100.0 * width as real
    ensures 0 <= Truncate(percentage / 100.0 * width as real) <= width
  {
    var x := percentage / 100.0 * width as real;
    assert 0.0 <= x <= width as real by {
      MulBounds(percentage / 100.0, width as real);
    }
    FloorBounds(x, width);
  }

  /** Truncating a number between 0 and `n` gives an integer between 0 and `n`. */
  lemma FloorBounds(x: real, n: int)
    requires 0.0 <= x <= n as real
    ensures 0 <= Truncate(x) <= n
  {
  }

  /** A fraction of a non-negative number lies between 0 and that number. */
  lemma MulBounds(f: real, w: real)
    requires 0.0 <= f <= 1.0 && 0.0 <= w
    ensures 0.0 <= f * w <= w
  {
    assert w - f * w == (1.0 - f) * w;
  }

  /** The PyPI page both scripts link: `https://pypi.org/project/<name>/` when a package is named. */
  function PypiUrl(pypi: Option<string>): (url: Option<string>)
    ensures url.Some? <==> Truthy(pypi)
  {
    if Truthy(pypi) then Some("https://pypi.org/project/" + pypi.value + "/") else None
  }

  /** A GitHub answer is used when the entry has a GitHub URL, the URL parses and the lookup
      did not fail (a 404 answer is used: it says the repository does not exist). */
  predicate GithubAnswered(github: Option<string>, answer: Lookup<GithubStats>) {
    Truthy(github) && ParseGithubUrl(github.value).Some? && !answer.Unavailable?
  }

  /** A PyPI answer is used when the entry names a package and the lookup did not fail. */
  predicate PypiAnswered(pypi: Option<string>, answer: Lookup<string>) {
    Truthy(pypi) && !answer.Unavailable?
  }

  /** `github_stats.get('latest_version', '0.0.0')` of a GitHub answer. */
  function GithubVersion(answer: Lookup<GithubStats>): string {
    if answer.Found? then answer.data.latestVersion else DefaultVersion
  }

  /** `pypi_stats.get('version', '0.0.0')` of a PyPI answer. */
  function PypiVersion(answer: Lookup<string>): string {
    if answer.Found? then answer.data else DefaultVersion
  }
}
