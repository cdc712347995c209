/** The loop of `update_readme`: each catalog entry is merged with the registries' answers into
    a `stats` record, ready and in-development components are counted, the overall completion
    is the share of ready components, and one table row per component is appended to the README
    text. The literal README boilerplate around the table is not modelled. */
module Readme {
  import opened Basics
  import opened Fetch
  import opened Helpers

  /** One catalog entry of `update_readme`. An absent key and a None value are both None. */
  datatype Component = Component(
    name: string,
    github: Option<string>,
    pypi: Option<string>,
    description: string,
    license: Option<string>,
    status: Option<string>,
    versionOverride: Option<string>)

  /** The `stats` dictionary `update_readme` builds for one component. */
  datatype Status = Status(
    name: string,
    description: string,
    license: string,
    version: string,
    status: string,
    githubUrl: Option<string>,
    pypiUrl: Option<string>,
    githubExists: bool,
    pypiExists: bool)

  /** The README's merge rules as a precedence: a catalog version override is never replaced;
      without one, a PyPI version other than "0.0.0" beats the GitHub release version, which
      beats the default. An existence flag is set only by an answer that found the project. */
  function ResolveStatus(c: Component, a: Answers): Status {
    var gh := GithubAnswered(c.github, a.github);
    var py := PypiAnswered(c.pypi, a.pypi);
    var version :=
      if Truthy(c.versionOverride) then c.versionOverride.value
      else if py && PypiVersion(a.pypi) != DefaultVersion then PypiVersion(a.pypi)
      else if gh then GithubVersion(a.github)
      else c.versionOverride.GetOr(DefaultVersion);
    Status(c.name, c.description, c.license.GetOr("MIT"), version, c.status.GetOr("development"),
           c.github, PypiUrl(c.pypi), gh && a.github.Found?, py && a.pypi.Found?)
  }

  /** The body of the first loop of `update_readme` for one component: `stats` starts from the
      catalog and the answers overwrite its fields in order. */
  method MergeStatus(c: Component, a: Answers) returns (s: Status)
    ensures s == ResolveStatus(c, a)
  {
    var version := c.versionOverride.GetOr(DefaultVersion);
    var githubExists, pypiExists := false, false;
    if Truthy(c.github) {
      var parsed := ParseGithubUrl(c.github.value);
      if parsed.Some? {
        var githubStats := a.github;
        if !githubStats.Unavailable? {
          githubExists := githubStats.Found?;
          if !Truthy(c.versionOverride) {
            version := GithubVersion(githubStats);
          }
        }
      }
    }
    if Truthy(c.pypi) {
      var pypiStats := a.pypi;
      if !pypiStats.Unavailable? {
        pypiExists := pypiStats.Found?;
        if PypiVersion(pypiStats) != DefaultVersion && !Truthy(c.versionOverride) {
          version := PypiVersion(pypiStats);
        }
      }
    }
    s := Status(c.name, c.description, c.license.GetOr("MIT"), version, c.status.GetOr("development"),
                c.github, PypiUrl(c.pypi), githubExists, pypiExists);
  }

  /** A catalog version override survives whatever the registries answer. */
  lemma OverrideVersionKept(c: Component, a: Answers)
    requires Truthy(c.versionOverride)
    ensures ResolveStatus(c, a).version == c.versionOverride.value
  {
  }

  /** Failed lookups leave the catalog defaults untouched. */
  lemma UnavailableKeepsDefaults(c: Component)
    ensures var s := ResolveStatus(c, Answers(Unavailable, Unavailable));
            s.version == c.versionOverride.GetOr(DefaultVersion) && !s.githubExists && !s.pypiExists
  {
  }

  /** The README calls a component ready exactly when its catalog status is 'ready'. */
  predicate IsReady(s: Status) {
    s.status == "ready"
  }

  /** The number of ready records, counted in catalog order. */
  function ReadyCount(stats: seq<Status>): (n: nat)
    ensures n <= |stats|
  {
    if stats == [] then 0
    else ReadyCount(stats[..|stats| - 1]) + (if IsReady(stats[|stats| - 1]) then 1 else 0)
  }

  /** The number of catalog entries whose `status` is 'ready'. */
  function CatalogReady(components: seq<Component>): (n: nat)
    ensures n <= |components|
  {
    if components == [] then 0
    else CatalogReady(components[..|components| - 1])
         + (if components[|components| - 1].status == Some("ready") then 1 else 0)
  }

  /** The records `update_readme` builds, one per catalog entry, in catalog order. */
  function Resolved(components: seq<Component>, answers: seq<Answers>): (stats: seq<Status>)
    requires |components| == |answers|
    ensures |stats| == |components|
  {
    seq(|components|, i requires 0 <= i < |components| => ResolveStatus(components[i], answers[i]))
  }

  /** The README's ready count depends on the catalog alone: no registry answer changes it. */
  lemma {:induction false} ReadyCountIsCatalogReady(components: seq<Component>, answers: seq<Answers>)
    requires |components| == |answers|
    ensures ReadyCount(Resolved(components, answers)) == CatalogReady(components)
    decreases |components|
  {
    if components != [] {
      var n := |components| - 1;
      assert Resolved(components, answers)[..n] == Resolved(components[..n], answers[..n]);
      ReadyCountIsCatalogReady(components[..n], answers[..n]);
    }
  }

  const CodeMiner := "Code Miner"
  const PrivateRepo := "Private Repo"
  const Planned := "GitHub (planned)"

  function GithubLink(url: string): string {
    "[GitHub](" + url + ")"
  }

  function PypiLink(url: string): string {
    "[PyPI](" + url + ")"
  }

  /** The links of one README row. */
  function Links(s: Status): seq<string> {
    if s.name == CodeMiner then [PrivateRepo]
    else
      (if Truthy(s.githubUrl) then [if s.githubExists then GithubLink(s.githubUrl.value) else Planned] else [])
      + (if Truthy(s.pypiUrl) && s.pypiExists then [PypiLink(s.pypiUrl.value)] else [])
  }

  /** The Links cell: the links joined with " · ", or "GitHub (planned)" when there are none. */
  function LinksCell(s: Status): string {
    var links := Links(s);
    if links == [] then Planned else Join(links, " \U{B7} ")
  }

  /** Which links a README row shows: Code Miner only "Private Repo"; any other component a
      GitHub link exactly when it has a URL and the repository exists, "GitHub (planned)" when
      it has a URL but no repository, and a PyPI link exactly when its package exists; the
      GitHub entry comes before the PyPI link. */
  lemma LinkRules(s: Status)
    ensures s.name == CodeMiner ==> Links(s) == [PrivateRepo]
    ensures s.name != CodeMiner ==>
              (Truthy(s.githubUrl) ==> (GithubLink(s.githubUrl.value) in Links(s) <==> s.githubExists))
              && (Planned in Links(s) <==> Truthy(s.githubUrl) && !s.githubExists)
              && (Truthy(s.pypiUrl) ==> (PypiLink(s.pypiUrl.value) in Links(s) <==> s.pypiExists))
              && PrivateRepo !in Links(s)
              && |Links(s)| <= 2
    ensures s.name != CodeMiner && !Truthy(s.githubUrl) && !(Truthy(s.pypiUrl) && s.pypiExists) ==>
              LinksCell(s) == Planned
    ensures s.name != CodeMiner && |Links(s)| == 2 ==>
              Truthy(s.githubUrl) && Links(s)[0] in {GithubLink(s.githubUrl.value), Planned}
              && Truthy(s.pypiUrl) && Links(s)[1] == PypiLink(s.pypiUrl.value)
  {
    if s.name != CodeMiner {
      if Truthy(s.githubUrl) {
        var g := GithubLink(s.githubUrl.value);
        assert g[0] == '[' && Planned[0] == 'G' && PrivateRepo[0] == 'P';
        assert g != Planned && g != PrivateRepo;
        if Truthy(s.pypiUrl) {
          var p := PypiLink(s.pypiUrl.value);
          assert p[1] == 'P' && g[1] == 'G' && p[0] == '[';
          assert p != g && p != Planned && p != PrivateRepo;
        }
      } else if Truthy(s.pypiUrl) {
        var p := PypiLink(s.pypiUrl.value);
        assert p[0] == '[' && Planned[0] == 'G' && PrivateRepo[0] == 'P';
        assert p != Planned && p != PrivateRepo;
      }
    }
  }

  function StatusIcon(s: Status): string {
    if IsReady(s) then "\U{2705} Ready" else "\U{1F6A7} Development"
  }

  /** One table row of the README. */
  function Row(s: Status): string {
    "| **" + s.name + "**<br/>*" + s.description + "* | " + s.version + " | " + s.license
    + " | " + StatusIcon(s) + " | " + LinksCell(s) + " |\n"
  }

  /** The table body: the rows of all records in catalog order. */
  function Table(stats: seq<Status>): string {
    if stats == [] then "" else Table(stats[..|stats| - 1]) + Row(stats[|stats| - 1])
  }

  /** The first loop of `update_readme`: one merged record per catalog entry, in catalog
      order, with the ready and in-development counters it increments. */
  method MergeAll(components: seq<Component>, answers: seq<Answers>)
    returns (stats: seq<Status>, totalReady: nat, totalDev: nat)
    requires |components| == |answers|
    ensures stats == Resolved(components, answers)
    ensures totalReady == ReadyCount(stats) == CatalogReady(components)
    ensures totalReady + totalDev == |components|
  {
    stats, totalReady, totalDev := [], 0, 0;
    var i := 0;
    while i < |components|
      invariant 0 <= i <= |components|
      invariant |stats| == i
      invariant forall k :: 0 <= k < i ==> stats[k] == ResolveStatus(components[k], answers[k])
      invariant totalReady == ReadyCount(stats)
      invariant totalReady + totalDev == i
    {
      var s := MergeStatus(components[i], answers[i]);
      if s.status == "ready" {
        totalReady := totalReady + 1;
      } else {
        totalDev := totalDev + 1;
      }
      assert (stats + [s])[..i] == stats;
      stats := stats + [s];
      i := i + 1;
    }
    assert stats == Resolved(components, answers);
    ReadyCountIsCatalogReady(components, answers);
  }

  /** The second loop of `update_readme`: the table grows by one row per record. */
  method RenderTable(stats: seq<Status>) returns (table: string)
    ensures table == Table(stats)
  {
    table := "";
    var j := 0;
    while j < |stats|
      invariant 0 <= j <= |stats|
      invariant table == Table(stats[..j])
    {
      assert stats[..j + 1][..j] == stats[..j];
      table := table + Row(stats[j]);
      j := j + 1;
    }
    assert stats[..j] == stats;
  }

  /** `update_readme`: merges every entry, counts ready and in-development components, computes
      the overall completion and its 50-character bar, and renders one row per component.
      The source divides by the catalog size, so the catalog must not be empty. */
  method UpdateReadme(components: seq<Component>, answers: seq<Answers>)
    returns (stats: seq<Status>, totalReady: nat, totalDev: nat, overall: real, bar: string, table: string)
    requires |components| == |answers|
    requires |components| > 0
    ensures stats == Resolved(components, answers)
    ensures totalReady == CatalogReady(components)
    ensures totalReady + totalDev == |components|
    ensures overall == OverallCompletion(totalReady, |components|)
    ensures |bar| == 50 && bar == ProgressBar(overall, 50)
    ensures table == Table(stats)
  {
    stats, totalReady, totalDev := MergeAll(components, answers);
    overall := OverallCompletion(totalReady, |components|);
    bar := ProgressBar(overall, 50);
    table := RenderTable(stats);
  }
}
