/** The loop of `generate_html`: each catalog entry is merged with the registries' answers by a
    chain of overwrites, ready components are counted, one card per component is rendered, and
    the cards and the generation time are spliced into the existing page. */
module Html {
  import opened Basics
  import opened Fetch
  import opened Helpers
  import opened Splice

  /** One catalog entry of `generate_html`. An absent key is None. */
  datatype Component = Component(
    name: string,
    componentId: string,
    github: Option<string>,
    pypi: Option<string>,
    description: string,
    category: Option<string>,
    license: Option<string>,
    statusOverride: Option<string>,
    completionOverride: Option<real>,
    versionOverride: Option<string>)

  /** The `stats` dictionary `generate_html` builds for one component. */
  datatype Status = Status(
    name: string,
    componentId: string,
    description: string,
    category: string,
    license: string,
    githubExists: bool,
    pypiExists: bool,
    version: string,
    openIssues: nat,
    closedIssues: nat,
    totalIssues: nat,
    completion: real,
    githubUrl: Option<string>,
    pypiUrl: Option<string>,
    statusOverride: Option<string>)

  const Complete := "complete"
  const Functional := "functional"

  /** A manual status override: 'complete' or 'functional'. */
  predicate IsManual(statusOverride: Option<string>) {
    statusOverride == Some(Complete) || statusOverride == Some(Functional)
  }

  /** The completion a GitHub answer gives on its own: the closed-issue ratio when there are
      issues, else 100 for a repository with a release, 10 for one without, and 0 when the
      repository does not exist. */
  function GithubCompletion(answer: Lookup<GithubStats>): real {
    if answer.Found? then
      if answer.data.totalIssues > 0 then CalculateCompletion(answer.data.closedIssues, answer.data.totalIssues)
      else if answer.data.latestVersion != DefaultVersion then 100.0
      else 10.0
    else 0.0
  }

  /** The PyPI answer is used and reports a version other than "0.0.0". */
  predicate PypiReleased(c: Component, a: Answers) {
    PypiAnswered(c.pypi, a.pypi) && PypiVersion(a.pypi) != DefaultVersion
  }

  /** The version after all overwrites, as a precedence: a manual override with a version
      override wins; then a PyPI release; then whatever the GitHub answer says (which replaces the
      catalog's version override); then the catalog's version override or "0.0.0". */
  function ResolvedVersion(c: Component, a: Answers): string {
    if IsManual(c.statusOverride) && Truthy(c.versionOverride) then c.versionOverride.value
    else if PypiReleased(c, a) then PypiVersion(a.pypi)
    else if GithubAnswered(c.github, a.github) then GithubVersion(a.github)
    else c.versionOverride.GetOr(DefaultVersion)
  }

  /** The completion after all overwrites, as a precedence: a manual override sets the catalog's
      completion override (100 for 'complete', 80 for 'functional' when there is none); otherwise
      the GitHub answer's completion when there is no completion override, raised to 100 by a
      PyPI release when it is 0. */
  function ResolvedCompletion(c: Component, a: Answers): real {
    if c.statusOverride == Some(Complete) then c.completionOverride.GetOr(100.0)
    else if c.statusOverride == Some(Functional) then c.completionOverride.GetOr(80.0)
    else
      var fromGithub :=
        if GithubAnswered(c.github, a.github) && c.completionOverride.None? then GithubCompletion(a.github) else 0.0;
      if PypiReleased(c, a) && fromGithub == 0.0 then 100.0 else fromGithub
  }

  /** The record `generate_html` builds, stated declaratively. */
  function ResolveStatus(c: Component, a: Answers): Status {
    var found := GithubAnswered(c.github, a.github) && a.github.Found?;
    Status(c.name, c.componentId, c.description, c.category.GetOr("Core"), c.license.GetOr("TBD"),
           IsManual(c.statusOverride) || found,
           PypiAnswered(c.pypi, a.pypi) && a.pypi.Found?,
           ResolvedVersion(c, a),
           if found then a.github.data.openIssues else 0,
           if found then a.github.data.closedIssues else 0,
           if found then a.github.data.totalIssues else 0,
           ResolvedCompletion(c, a),
           c.github, PypiUrl(c.pypi), c.statusOverride)
  }

  /** The body of the first loop of `generate_html` for one component: `stats` starts from the
      catalog, then the GitHub answer, the PyPI answer and the manual override overwrite its
      fields in that order. */
  method MergeStatus(c: Component, a: Answers) returns (s: Status)
    ensures s == ResolveStatus(c, a)
  {
    var githubExists, pypiExists := false, false;
    var version := c.versionOverride.GetOr(DefaultVersion);
    var openIssues, closedIssues, totalIssues := 0, 0, 0;
    var completion := 0.0;
    if Truthy(c.github) {
      var parsed := ParseGithubUrl(c.github.value);
      if parsed.Some? {
        var githubStats := a.github;
        if !githubStats.Unavailable? {
          githubExists := githubStats.Found?;
          if githubStats.Found? {
            openIssues, closedIssues, totalIssues :=
              githubStats.data.openIssues, githubStats.data.closedIssues, githubStats.data.totalIssues;
          }
          version := GithubVersion(githubStats);
          if c.completionOverride.None? {
            if totalIssues > 0 {
              completion := CalculateCompletion(closedIssues, totalIssues);
            } else if githubExists && version != DefaultVersion {
              completion := 100.0;
            } else if githubExists {
              completion := 10.0;
            }
          }
        }
      }
    }
    ghost var gh := GithubAnswered(c.github, a.github);
    assert githubExists == (gh && a.github.Found?);
    assert version == if gh then GithubVersion(a.github) else c.versionOverride.GetOr(DefaultVersion);
    assert completion == if gh && c.completionOverride.None? then GithubCompletion(a.github) else 0.0;
    if Truthy(c.pypi) {
      var pypiStats := a.pypi;
      if !pypiStats.Unavailable? {
        pypiExists := pypiStats.Found?;
        if PypiVersion(pypiStats) != DefaultVersion {
          version := PypiVersion(pypiStats);
          if completion == 0.0 && pypiExists {
            completion := 100.0;
          }
        }
      }
    }
    assert pypiExists == (PypiAnswered(c.pypi, a.pypi) && a.pypi.Found?);
    if c.statusOverride == Some(Complete) {
      completion := c.completionOverride.GetOr(100.0);
      githubExists := true;
      if Truthy(c.versionOverride) {
        version := c.versionOverride.value;
      }
    } else if c.statusOverride == Some(Functional) {
      completion := c.completionOverride.GetOr(80.0);
      githubExists := true;
      if Truthy(c.versionOverride) {
        version := c.versionOverride.value;
      }
    }
    assert version == ResolvedVersion(c, a);
    assert completion == ResolvedCompletion(c, a);
    s := Status(c.name, c.componentId, c.description, c.category.GetOr("Core"), c.license.GetOr("TBD"),
                githubExists, pypiExists, version, openIssues, closedIssues, totalIssues, completion,
                c.github, PypiUrl(c.pypi), c.statusOverride);
  }

  /** A manual override decides the completion, the repository flag and (when a version override
      is given) the version, whatever the registries answered; such a component is ready by both
      tests. */
  lemma ManualOverrideWins(c: Component, a: Answers)
    requires IsManual(c.statusOverride)
    ensures var s := ResolveStatus(c, a);
            s.completion == c.completionOverride.GetOr(if c.statusOverride == Some(Complete) then 100.0 else 80.0)
            && s.githubExists
            && (Truthy(c.versionOverride) ==> s.version == c.versionOverride.value)
            && CountsAsReady(s) && IsCardReady(s)
  {
  }

  /** Without a manual override, a GitHub answer replaces the catalog's version override unless
      PyPI reports a release: the override only survives when no GitHub answer is used. */
  lemma GithubReplacesVersionOverride(c: Component, a: Answers)
    requires !IsManual(c.statusOverride)
    ensures var s := ResolveStatus(c, a);
            (PypiReleased(c, a) ==> s.version == a.pypi.data)
            && (!PypiReleased(c, a) && GithubAnswered(c.github, a.github) ==> s.version == GithubVersion(a.github))
            && (!PypiReleased(c, a) && !GithubAnswered(c.github, a.github) ==>
                  s.version == c.versionOverride.GetOr(DefaultVersion))
  {
  }

  /** Without a manual override and a completion override, the completion follows the GitHub
      rule chain, and PyPI only replaces a completion that is exactly 0. */
  lemma CompletionChain(c: Component, a: Answers)
    requires !IsManual(c.statusOverride) && c.completionOverride.None?
    requires GithubAnswered(c.github, a.github) && a.github.Found?
    ensures var s := ResolveStatus(c, a);
            var g := a.github.data;
            (g.totalIssues > 0 && !(PypiReleased(c, a) && g.closedIssues == 0) ==>
               s.completion == CalculateCompletion(g.closedIssues, g.totalIssues))
            && (g.totalIssues == 0 && g.latestVersion != DefaultVersion ==> s.completion == 100.0)
            && (g.totalIssues == 0 && g.latestVersion == DefaultVersion ==> s.completion == 10.0)
            && (PypiReleased(c, a) && (g.totalIssues == 0 || g.closedIssues > 0) ==>
                  s.completion == GithubCompletion(a.github))
  {
    CompletionFromGithub(c, a);
    var g := a.github.data;
    if g.totalIssues > 0 && g.closedIssues > 0 {
      IssueRatioPositive(g.closedIssues, g.totalIssues);
    }
  }

  /** Without any override, the completion is the GitHub answer's, replaced by 100 only when it
      is 0 and PyPI reports a release. */
  lemma CompletionFromGithub(c: Component, a: Answers)
    requires !IsManual(c.statusOverride) && c.completionOverride.None?
    requires GithubAnswered(c.github, a.github)
    ensures var fromGithub := GithubCompletion(a.github);
            ResolveStatus(c, a).completion == if PypiReleased(c, a) && fromGithub == 0.0 then 100.0 else fromGithub
  {
  }

  /** Some closed issues give a positive completion. */
  lemma IssueRatioPositive(closed: nat, total: nat)
    requires 0 < closed && 0 < total
    ensures CalculateCompletion(closed, total) > 0.0
  {
    assert closed as real / total as real > 0.0;
  }

  /** With consistent GitHub counts and a completion override (if any) between 0 and 100, the
      completion is a percentage. */
  lemma CompletionInRange(c: Component, a: Answers)
    requires a.github.Found? ==> WellFormed(a.github.data)
    requires c.completionOverride.Some? ==> 0.0 <= c.completionOverride.value <= 100.0
    ensures 0.0 <= ResolveStatus(c, a).completion <= 100.0
  {
  }

  /** The ready test of the count (line 221 of generate_html.py). */
  predicate CountsAsReady(s: Status) {
    s.version != DefaultVersion || s.githubExists || IsManual(s.statusOverride)
  }

  /** The ready test of the cards. */
  predicate IsCardReady(s: Status) {
    s.version != DefaultVersion || IsManual(s.statusOverride) || s.completion >= 80.0
  }

  /** Every component whose card says "Ready" is counted as ready: a completion of 80 or more
      without a manual override comes from an existing repository or from a PyPI release, which
      also sets the version. */
  lemma CardReadyIsCounted(c: Component, a: Answers)
    ensures IsCardReady(ResolveStatus(c, a)) ==> CountsAsReady(ResolveStatus(c, a))
  {
    var s := ResolveStatus(c, a);
    if IsCardReady(s) && !IsManual(c.statusOverride) && s.version == DefaultVersion {
      assert !PypiReleased(c, a);
      assert GithubAnswered(c.github, a.github) && a.github.Found?;
    }
  }

  /** The converse fails: a repository that exists, has no release, no issues and no package
      is counted as ready, while its card says "In Dev" (completion 10). */
  lemma CountedButInDev(c: Component, a: Answers)
    requires c.statusOverride.None? && c.completionOverride.None? && !Truthy(c.pypi)
    requires GithubAnswered(c.github, a.github)
    requires a.github == Found(GithubStats(DefaultVersion, 0, 0, 0))
    ensures CountsAsReady(ResolveStatus(c, a)) && !IsCardReady(ResolveStatus(c, a))
    ensures ResolveStatus(c, a).completion == 10.0
  {
  }

  /** A repository that does not exist, with no package and no overrides, stays at "0.0.0" and
      0% and is ready by neither test. */
  lemma MissingRepositoryNotReady(c: Component, a: Answers)
    requires c.statusOverride.None? && c.versionOverride.None? && !Truthy(c.pypi)
    requires a.github == NotFound
    ensures var s := ResolveStatus(c, a);
            s.version == DefaultVersion && s.completion == 0.0 && !s.githubExists
            && !CountsAsReady(s) && !IsCardReady(s)
  {
  }

  /** The records `generate_html` builds, one per catalog entry, in catalog order. */
  function Resolved(components: seq<Component>, answers: seq<Answers>): (stats: seq<Status>)
    requires |components| == |answers|
    ensures |stats| == |components|
  {
    seq(|components|, i requires 0 <= i < |components| => ResolveStatus(components[i], answers[i]))
  }

  /** The number of records the count treats as ready. */
  function ReadyCount(stats: seq<Status>): (n: nat)
    ensures n <= |stats|
  {
    if stats == [] then 0
    else ReadyCount(stats[..|stats| - 1]) + (if CountsAsReady(stats[|stats| - 1]) then 1 else 0)
  }

  /** The number of catalog entries with a manual override. */
  function ManualCount(components: seq<Component>): (n: nat)
    ensures n <= |components|
  {
    if components == [] then 0
    else ManualCount(components[..|components| - 1])
         + (if IsManual(components[|components| - 1].statusOverride) then 1 else 0)
  }

  /** Whatever the registries answer, every manually overridden component is counted as ready. */
  lemma {:induction false} ManualCountBound(components: seq<Component>, answers: seq<Answers>)
    requires |components| == |answers|
    ensures ManualCount(components) <= ReadyCount(Resolved(components, answers))
    decreases |components|
  {
    if components != [] {
      var n := |components| - 1;
      assert Resolved(components, answers)[..n] == Resolved(components[..n], answers[..n]);
      ManualCountBound(components[..n], answers[..n]);
      if IsManual(components[n].statusOverride) {
        ManualOverrideWins(components[n], answers[n]);
      }
    }
  }

  /** The first loop of `generate_html`: one merged record per catalog entry, in catalog order,
      and the ready counter. */
  method MergeAll(components: seq<Component>, answers: seq<Answers>)
    returns (stats: seq<Status>, ready: nat)
    requires |components| == |answers|
    ensures stats == Resolved(components, answers)
    ensures ready == ReadyCount(stats)
    ensures ManualCount(components) <= ready <= |components|
  {
    stats, ready := [], 0;
    var i := 0;
    while i < |components|
      invariant 0 <= i <= |components|
      invariant |stats| == i
      invariant forall k :: 0 <= k < i ==> stats[k] == ResolveStatus(components[k], answers[k])
      invariant ready == ReadyCount(stats)
    {
      var s := MergeStatus(components[i], answers[i]);
      if s.version != DefaultVersion || s.githubExists || s.statusOverride == Some(Complete)
         || s.statusOverride == Some(Functional) {
        ready := ready + 1;
      }
      assert (stats + [s])[..i] == stats;
      stats := stats + [s];
      i := i + 1;
    }
    assert stats == Resolved(components, answers);
    ManualCountBound(components, answers);
  }

  /** A link of a card: to the repository or to the package page. */
  datatype CardLink = RepoLink(url: string) | PackageLink(url: string)

  /** The links a card shows, repository first. */
  function CardLinks(s: Status): seq<CardLink> {
    (if Truthy(s.githubUrl) && (s.githubExists || s.statusOverride == Some(Complete))
     then [RepoLink(s.githubUrl.value)] else [])
    + (if Truthy(s.pypiUrl) && s.pypiExists then [PackageLink(s.pypiUrl.value)] else [])
  }

  /** Which links a card shows: a repository link exactly when the record has a GitHub URL and the
      repository exists or the override is 'complete'; a package link exactly when it has a PyPI
      URL and the package exists; at most one of each, repository first. */
  lemma CardLinkRules(s: Status)
    ensures forall u :: RepoLink(u) in CardLinks(s) <==>
              Truthy(s.githubUrl) && u == s.githubUrl.value && (s.githubExists || s.statusOverride == Some(Complete))
    ensures forall u :: PackageLink(u) in CardLinks(s) <==>
              Truthy(s.pypiUrl) && u == s.pypiUrl.value && s.pypiExists
    ensures |CardLinks(s)| <= 2
    ensures |CardLinks(s)| == 2 ==> CardLinks(s)[0].RepoLink? && CardLinks(s)[1].PackageLink?
  {
  }

  const CardIndent := "                        "

  /** One link line of a card. */
  function LinkLine(link: CardLink): (line: string)
    ensures |line| > |CardIndent|
  {
    match link
    case RepoLink(url) => CardIndent + "<a href=\"" + url + "\">\U{1F517} GitHub</a>\n"
    case PackageLink(url) => CardIndent + "<a href=\"" + url + "\">\U{1F4E6} PyPI</a>\n"
  }

  /** `links_html`: the link lines, in order. */
  function LinksHtml(links: seq<CardLink>): (html: string)
    ensures html == "" <==> links == []
  {
    if links == [] then "" else LinksHtml(links[..|links| - 1]) + LinkLine(links[|links| - 1])
  }

  /** The `component-links` block, present exactly when the card has a link. */
  function LinksBlock(s: Status): string {
    var links := LinksHtml(CardLinks(s));
    if links != "" then "                    <div class=\"component-links\">\n" + links + "                    </div>\n"
    else ""
  }

  /** The wrapper appears only when there is at least one link, and then holds exactly the
      link lines. */
  lemma LinksBlockRule(s: Status)
    ensures LinksBlock(s) == "" <==> CardLinks(s) == []
    ensures CardLinks(s) != [] ==>
              LinksBlock(s) == "                    <div class=\"component-links\">\n" + LinksHtml(CardLinks(s))
                               + "                    </div>\n"
  {
  }

  /** Python's rounding of `{x:.0f}`, on the exact value: to the nearest integer, ties to even. */
  function RoundHalfEven(x: real): (n: int)
    ensures (n as real) - 0.5 <= x <= (n as real) + 0.5
    ensures x == (n as real) + 0.5 ==> n % 2 == 0
    ensures x == (n as real) - 0.5 ==> n % 2 == 0
  {
    var f := x.Floor;
    var d := x - f as real;
    if d < 0.5 then f
    else if d > 0.5 then f + 1
    else if f % 2 == 0 then f
    else f + 1
  }

  /** `format(x, '.0f')`: the rounded value in decimal, with a minus sign for a negative `x`
      (Python writes `-0` for small negative values). */
  function FormatPercent(x: real): (text: string)
    ensures 0.0 <= x ==> DecimalValue(text) == RoundHalfEven(x)
  {
    var n := RoundHalfEven(x);
    if x < 0.0 then "-" + NatToDecimal(if n < 0 then -n else n)
    else
      DecimalRoundTrip(n);
      NatToDecimal(n)
  }

  /** The label of a card: "Ready" with class `status-ready`, or "In Dev" with class
      `status-development`. */
  function StatusLabel(s: Status): (badge: (string, string))
    ensures badge.1 == "Ready" <==> IsCardReady(s)
    ensures badge.0 == "status-ready" <==> IsCardReady(s)
  {
    if IsCardReady(s) then ("status-ready", "Ready") else ("status-development", "In Dev")
  }

  /** The card of one record. */
  function Card(s: Status): string {
    var badge := StatusLabel(s);
    Concat([
      "                <div class=\"component-card\">\n",
      "                    <div class=\"component-header\">\n",
      "                        <span class=\"component-name\">", s.name, "</span>\n",
      "                        <span class=\"component-status ", badge.0, "\">", badge.1, "</span>\n",
      "                    </div>\n",
      "                    <p class=\"component-desc\">", s.description, "</p>\n",
      "                    <div class=\"progress-bar\">\n",
      "                        <div class=\"progress-fill\" style=\"width: ", FormatPercent(s.completion), "%\"></div>\n",
      "                    </div>\n",
      "                    <small>Version: ", s.version, " | License: ", s.license, "</small>\n",
      LinksBlock(s),
      "                </div>\n                \n"])
  }

  /** `component_cards_html`: the cards of all records in order. */
  function Cards(stats: seq<Status>): string {
    if stats == [] then "" else Cards(stats[..|stats| - 1]) + Card(stats[|stats| - 1])
  }

  lemma CardsAppend(stats: seq<Status>, j: nat)
    requires j < |stats|
    ensures Cards(stats[..j + 1]) == Cards(stats[..j]) + Card(stats[j])
  {
    assert stats[..j + 1][..j] == stats[..j];
  }

  /** The second loop of `generate_html`: the cards grow by one card per record. */
  method RenderCards(stats: seq<Status>) returns (cards: string)
    ensures cards == Cards(stats)
  {
    cards := "";
    var j := 0;
    while j < |stats|
      invariant 0 <= j <= |stats|
      invariant cards == Cards(stats[..j])
    {
      CardsAppend(stats, j);
      cards := cards + Card(stats[j]);
      j := j + 1;
    }
    assert stats[..j] == stats;
  }

  /** `generate_html` on the existing page and the generation time: merges and counts the
      catalog, computes the overall completion and the in-development count, renders the cards,
      and splices them and the timestamp into the page. The source divides by the catalog size,
      so the catalog must not be empty. */
  method GenerateHtml(components: seq<Component>, answers: seq<Answers>, page: string, timestamp: string)
    returns (stats: seq<Status>, ready: nat, inDev: nat, overall: real, html: string)
    requires |components| == |answers|
    requires |components| > 0
    ensures stats == Resolved(components, answers)
    ensures ready == ReadyCount(stats) && ManualCount(components) <= ready
    ensures ready + inDev == |components|
    ensures overall == OverallCompletion(ready, |components|)
    ensures html == Restamp(SpliceGrid(page, Cards(stats)), timestamp)
  {
    stats, ready := MergeAll(components, answers);
    overall := OverallCompletion(ready, |components|);
    inDev := |components| - ready;
    var cards := RenderCards(stats);
    html := SpliceGrid(page, cards);
    html := Restamp(html, timestamp);
  }
}
