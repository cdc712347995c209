/** The deterministic part of `fetch_github_stats` and `fetch_pypi_stats`: what the scripts make
    of the registries' answers. The HTTP requests themselves are not modelled; each answer the
    registries could give is a parameter instead. */
module Fetch {
  import opened Basics

  /** The version string both scripts use when nothing better is known. */
  const DefaultVersion := "0.0.0"

  /** The outcome of one registry lookup: the lookup failed for a reason other than a 404
      (the Python functions return None), the registry answered 404, or it returned data. */
  datatype Lookup<+T> = Unavailable | NotFound | Found(data: T)

  /** The record `fetch_github_stats` returns for an existing repository (the timestamps and
      default branch it also copies are not used by either generator and are left out). */
  datatype GithubStats = GithubStats(latestVersion: string, openIssues: nat, closedIssues: nat, totalIssues: nat)

  /** The counts `fetch_github_stats` produces are consistent: the closed issues are among the
      total, and a non-zero total is the sum of open and closed. */
  predicate WellFormed(g: GithubStats) {
    g.closedIssues <= g.totalIssues
    && (g.totalIssues == 0 || g.totalIssues == g.openIssues + g.closedIssues)
  }

  /** What both registries answered about one catalog entry. An answer is only consulted when the
      entry names a repository (or package) to look up. The PyPI record is its `version`. */
  datatype Answers = Answers(github: Lookup<GithubStats>, pypi: Lookup<string>)

  /** Python's `str.lstrip('v')`: every leading 'v' removed. */
  function StripLeadingV(tag: string): (r: string)
    ensures r == [] || r[0] != 'v'
    ensures |r| <= |tag| && tag == Repeat('v', |tag| - |r|) + r
    decreases |tag|
  {
    if tag != [] && tag[0] == 'v' then StripLeadingV(tag[1..]) else tag
  }

  /** Stripping is idempotent: a stripped version has nothing left to strip. */
  lemma StripLeadingVIdempotent(tag: string)
    ensures StripLeadingV(StripLeadingV(tag)) == StripLeadingV(tag)
  {
  }

  /** The version `fetch_github_stats` reports. `release` is None when the latest-release request
      failed (no release yet), Some(None) when the release has no `tag_name`, and
      Some(Some(t)) when its tag is `t`. */
  function ReleaseVersion(release: Option<Option<string>>): (v: string)
    ensures v == [] || v[0] != 'v'
    ensures release.None? ==> v == DefaultVersion
    ensures release.Some? && release.value.None? ==> v == DefaultVersion
    ensures release.Some? && release.value.Some? ==> v == StripLeadingV(release.value.value)
  {
    match release
    case None => DefaultVersion
    case Some(tag) => StripLeadingV(tag.GetOr(DefaultVersion))
  }

  const PagePrefix := "page="
  const LastRel := ">; rel=\"last\""

  /** The pattern `page=(\d+)>; rel="last"` matched at the start of `s`: the page number it
      captures. `\d+` is greedy and the next pattern character is not a digit, so the capture is
      the whole run of digits after `page=`. */
  function LastPageAt(s: string): (r: Option<nat>)
    ensures r.Some? ==> Contains(s, "last")
  {
    if HasPrefix(s, PagePrefix) then
      var d := Run(s[|PagePrefix|..], IsDigit);
      if d > 0 && HasPrefix(s[|PagePrefix| + d..], LastRel) then
        LastRelContainsLast(s, |PagePrefix| + d);
        Some(DecimalValue(s[|PagePrefix|..][..d]))
      else None
    else None
  }

  /** The word `last` sits eight characters into `>; rel="last"`. */
  lemma LastRelContainsLast(s: string, at: nat)
    requires at <= |s| && HasPrefix(s[at..], LastRel)
    ensures Contains(s, "last")
  {
    var w := s[at + 8..];
    forall i | 0 <= i < 4 ensures w[i] == "last"[i] {
      assert w[i] == s[at..][..|LastRel|][8 + i];
    }
    assert w[..4] == "last";
    ContainsAt(s, "last", at + 8);
  }

  /** The text the pattern describes at the start of `s`: `page=`, a non-empty run of digits
      `ds`, then `>; rel="last"` at the start of `rest`. */
  ghost predicate PageLink(s: string, ds: string, rest: string) {
    s == PagePrefix + ds + rest
    && ds != [] && (forall i :: 0 <= i < |ds| ==> IsDigit(ds[i]))
    && HasPrefix(rest, LastRel)
  }

  /** The anchored matcher reads the page number exactly when the text has the pattern's shape,
      and the number it reads is the value of the captured digits. */
  lemma LastPageAtSpec(s: string, n: nat)
    ensures LastPageAt(s) == Some(n) <==> exists ds, rest :: PageLink(s, ds, rest) && n == DecimalValue(ds)
  {
    var h := |PagePrefix|;
    if LastPageAt(s) == Some(n) {
      var d := Run(s[h..], IsDigit);
      var ds, rest := s[h..][..d], s[h + d..];
      assert s == PagePrefix + ds + rest by {
        assert s[..h] == PagePrefix;
        assert s[h..][..d] == s[h..h + d];
      }
      assert PageLink(s, ds, rest);
    }
    if exists ds, rest :: PageLink(s, ds, rest) && n == DecimalValue(ds) {
      var ds, rest :| PageLink(s, ds, rest) && n == DecimalValue(ds);
      LastPageAtReads(s, ds, rest);
    }
  }

  /** `page=` + digits + `>; rel="last"...` yields the value of the digits. */
  lemma LastPageAtReads(s: string, ds: string, rest: string)
    requires PageLink(s, ds, rest)
    ensures LastPageAt(s) == Some(DecimalValue(ds))
  {
    var h, d := |PagePrefix|, |ds|;
    var tail := s[h..];
    assert HasPrefix(s, PagePrefix) by {
      assert s[..h] == PagePrefix;
    }
    assert tail == ds + rest;
    assert rest[0] == '>' by {
      assert rest[0] == rest[..|LastRel|][0];
    }
    RunOfPrefix(ds, rest, IsDigit);
    assert Run(tail, IsDigit) == d;
    assert s[h + d..] == rest;
    assert HasPrefix(s[h + d..], LastRel);
    assert tail[..d] == ds;
  }

  /** `re.search(r'page=(\d+)>; rel="last"', header)`, converted with `int`. */
  function LastPageNumber(header: string): (r: Option<nat>)
    ensures r.Some? ==> exists i :: 0 <= i <= |header| && LastPageAt(header[i..]) == r
                          && forall j :: 0 <= j < i ==> LastPageAt(header[j..]).None?
    ensures r.None? ==> forall i :: 0 <= i <= |header| ==> LastPageAt(header[i..]).None?
  {
    FirstMatchSpec(header, LastPageAt);
    Search(header, LastPageAt)
  }

  /** A `Link` header that yields a last page always contains the word `last`. */
  lemma LastPageNeedsLast(header: string)
    ensures LastPageNumber(header).Some? ==> Contains(header, "last")
  {
    var i := FirstMatch(header, LastPageAt);
    if i.Some? {
      assert LastPageAt(header[i.value..]).Some?;
      ContainsSuffix(header, "last", i.value);
    }
  }

  lemma {:induction false} ContainsSuffix(s: string, p: string, i: nat)
    requires i <= |s| && Contains(s[i..], p)
    ensures Contains(s, p)
    decreases i
  {
    if i > 0 {
      assert s[1..][i - 1..] == s[i..];
      ContainsSuffix(s[1..], p, i - 1);
    }
  }

  /** One `per_page=1` issue listing: its `Link` header ('' when absent) and the number of
      issues in its JSON body. */
  datatype IssuesPage = IssuesPage(linkHeader: string, items: nat)

  /** The count one listing yields: the last page number when the header carries one, nothing
      (0) when the header mentions `last` without the pattern, and otherwise the issues on the
      single page. */
  function PageCount(p: IssuesPage): nat {
    match LastPageNumber(p.linkHeader)
    case Some(n) => n
    case None => if Contains(p.linkHeader, "last") then 0 else p.items
  }

  /** The issue counting of `fetch_github_stats`. A page is None when its request (or the
      decoding of its body) raised; the `except` clause then keeps whatever was assigned so far. */
  method FetchIssueCounts(openPage: Option<IssuesPage>, closedPage: Option<IssuesPage>)
    returns (open: nat, closed: nat, total: nat)
    ensures openPage.None? ==> open == 0
    ensures openPage.Some? ==> open == PageCount(openPage.value)
    ensures closed == if openPage.Some? && closedPage.Some? then PageCount(closedPage.value) else 0
    ensures total == if openPage.Some? && closedPage.Some? then open + closed else 0
  {
    open, closed, total := 0, 0, 0;
    if openPage.None? {
      return;
    }
    var header := openPage.value.linkHeader;
    LastPageNeedsLast(header);
    if Contains(header, "last") {
      var m := LastPageNumber(header);
      if m.Some? {
        open := m.value;
      }
    } else {
      open := openPage.value.items;
    }
    if closedPage.None? {
      return;
    }
    header := closedPage.value.linkHeader;
    LastPageNeedsLast(header);
    if Contains(header, "last") {
      var m := LastPageNumber(header);
      if m.Some? {
        closed := m.value;
      }
    } else {
      closed := closedPage.value.items;
    }
    total := open + closed;
  }

  /** The first request of `fetch_github_stats`: the repository exists, is missing (404), or the
      request failed otherwise (another HTTP status, a transport or a JSON error). */
  datatype Reply = Ok | Missing | Failed

  /** `fetch_github_stats` on the answers the registry gives to its four requests. */
  method FetchGithubStats(repo: Reply, release: Option<Option<string>>,
                          openPage: Option<IssuesPage>, closedPage: Option<IssuesPage>)
    returns (r: Lookup<GithubStats>)
    ensures r.NotFound? <==> repo == Missing
    ensures r.Unavailable? <==> repo == Failed
    ensures r.Found? ==> WellFormed(r.data)
    ensures r.Found? ==> r.data.latestVersion == ReleaseVersion(release)
    ensures r.Found? && openPage.None? ==> r.data.openIssues == 0
    ensures r.Found? && !(openPage.Some? && closedPage.Some?) ==> r.data.closedIssues == 0 && r.data.totalIssues == 0
    ensures r.Found? && openPage.Some? ==> r.data.openIssues == PageCount(openPage.value)
    ensures r.Found? && openPage.Some? && closedPage.Some? ==>
              r.data.closedIssues == PageCount(closedPage.value)
              && r.data.totalIssues == r.data.openIssues + r.data.closedIssues
  {
    if repo == Missing {
      return NotFound;
    } else if repo == Failed {
      return Unavailable;
    }
    var latestVersion := ReleaseVersion(release);
    var open, closed, total := FetchIssueCounts(openPage, closedPage);
    r := Found(GithubStats(latestVersion, open, closed, total));
  }

  /** `fetch_pypi_stats`: `info.version` (default "0.0.0") of an existing package. */
  function PypiLookup(reply: Reply, version: Option<string>): (r: Lookup<string>)
    ensures r.NotFound? <==> reply == Missing
    ensures r.Unavailable? <==> reply == Failed
    ensures r.Found? ==> (version.Some? ==> r.data == version.value) && (version.None? ==> r.data == DefaultVersion)
  {
    match reply
    case Ok => Found(version.GetOr(DefaultVersion))
    case Missing => NotFound
    case Failed => Unavailable
  }
}
