# Component status generators, modelled in Dafny

The repository keeps two status pages for the components of Code Copycat Defender up to date:

- `update_readme.py` rewrites `README.md` as a table with one row per component.
- `generate_html.py` rewrites the component cards and the timestamp of `index.html`.

Both scripts walk a fixed catalog of components and ask GitHub and PyPI about each one. They
merge the answers into a per-component `stats` record by a chain of overwrites, count the
ready components, and render the records.

This project models that deterministic core:

- **Registry answers.** `fetch.dfy` covers `fetch_github_stats` and `fetch_pypi_stats`. The
  registries' replies are parameters, and the model covers what the scripts make of them:
  - the release tag with its leading `v`s stripped;
  - the issue counts read from the `Link` header's last page;
  - the 404 and failure outcomes.
- **Pure helpers.** `helpers.dfy` covers `parse_github_url`, `calculate_completion`,
  `get_progress_bar` and the PyPI link. `parse_github_url` is modelled as a leftmost search of
  the pattern `github\.com/([^/]+)/([^/\s,]+)`.
- **README generator.** `readme.dfy` covers the merge loop, the ready count, the overall
  completion, the progress bar and the table rows of `update_readme`.
- **HTML generator.** `html.dfy` covers the merge loop of `generate_html`, with its manual
  overrides, its two ready tests and its cards.
- **Substitutions.** `splice.dfy` covers the two `re.sub` calls that splice the cards and the
  generation time into the page.
- **Shared pieces.** `basics.dfy` holds Python's truthiness, `re.search` as a leftmost
  anchored match, and `re.sub` as a left-to-right scan.

Each merge loop is an imperative method. It is proved equal to a declarative precedence
function, and the rules the scripts promise are proved about that function.

`fetch_github_stats` keeps the open-issue count when the closed-issue request fails, but then
reports a total of 0. `Fetch.FetchIssueCounts` models this as written, so a non-zero total
always equals open plus closed, while a zero total may sit beside a non-zero open count.

`generate_html` itself tests readiness in two places:

- The count (`generate_html.py:221`) accepts a version other than "0.0.0", an existing repository or a manual override.
- The card (`generate_html.py:256-258`) accepts a version other than "0.0.0", a manual override or a completion of 80 or more.

`Html.CardReadyIsCounted` shows that every card marked "Ready" is counted as ready.
`Html.CountedButInDev` shows that the converse fails. `update_readme` uses neither test: its
ready count reads the catalog's `status` field only (`Readme.ReadyCountIsCatalogReady`).

The grid splice and the timestamp substitution are each idempotent under a condition. Under it,
running them again with the same cards and timestamp leaves the page as it is:

- `Splice.SpliceGridIdempotent` requires that no `</div>\s*</section>` starts inside the new
  grid content, that is, inside a newline, the cards and the indent. That the rendered cards
  meet this is not proved (see "## Left out").
- `Splice.RestampIdempotent` requires a non-empty timestamp without '<'. The format
  `%Y-%m-%d %H:%M UTC` (`generate_html.py:295`) always meets it.

## Model

| member | source | states |
|---|---|---|
| Basics.Search | update_readme.py:124 | definition: `re.search` returns the captures of the anchored matcher at the leftmost position where it succeeds |
| Basics.Substitute | generate_html.py:290-300 | definition: `re.sub` scans from the left, replacing each match and resuming after it, copying one character elsewhere |
| Basics.FirstMatchSpec | update_readme.py:124 | `re.search` reports the leftmost position where the pattern matches; no earlier position matches, and no result means no position matches at all |
| Basics.SubstituteNoMatch | generate_html.py:296-300 | `re.sub` returns the text unchanged when the pattern matches nowhere |
| Basics.SubstituteKeepsPrefix | generate_html.py:296-300 | text before the first match is copied unchanged |
| Basics.SubstituteAt | generate_html.py:290-292 | at the first match the replacement is emitted and the scan resumes after the match |
| Basics.DecimalRoundTrip | generate_html.py:277 | the decimal digits written for a number read back as that number |
| Basics.NatToDecimal | generate_html.py:277 | the decimal text of a number is non-empty and made of digits |
| Fetch.StripLeadingV | update_readme.py:39 | `lstrip('v')` leaves no leading `v`, and the tag is the removed `v`s followed by the result |
| Fetch.StripLeadingVIdempotent | update_readme.py:39 | stripping twice is stripping once |
| Fetch.ReleaseVersion | update_readme.py:34-42 | no release gives "0.0.0", a release without `tag_name` gives "0.0.0", a tag gives the tag with its leading `v`s stripped, and the version never starts with `v` |
| Fetch.LastPageAt | update_readme.py:56-58 | a `page=N>; rel="last"` match implies the header contains `last` |
| Fetch.LastPageAtSpec | update_readme.py:56-58 | the anchored matcher returns `N` exactly when the text reads `page=`, a non-empty run of digits, then `>; rel="last"`, and `N` is the value of those digits |
| Fetch.LastPageAtReads | update_readme.py:56-58 | `page=` + digits + `>; rel="last"` yields the value of the digits |
| Fetch.LastPageNumber | update_readme.py:56 | the page number comes from the leftmost match of the pattern, and none is reported when it matches nowhere |
| Fetch.LastPageNeedsLast | update_readme.py:54-58 | a header that yields a page number always takes the `'last' in link_header` branch |
| Fetch.PageCount | update_readme.py:53-62 | definition: the last page number when the header has one, 0 when it mentions `last` without the pattern, the number of listed issues otherwise |
| Fetch.FetchIssueCounts | update_readme.py:44-79 | open count from the first listing; closed count and total only when both listings were read; otherwise the values assigned before the failure |
| Fetch.FetchGithubStats | update_readme.py:13-98 | 404 gives "not found", any other failure gives nothing; success gives the release version and consistent issue counts, which are 0/0/0 when the open listing failed and open/0/0 when only the closed listing failed |
| Fetch.PypiLookup | update_readme.py:100-119 | 404 gives "not found", other failures give nothing, success gives `info.version` or "0.0.0" |
| Helpers.UrlAt | update_readme.py:123 | definition: the pattern matched at the start of the text, with greedy owner and repository runs |
| Helpers.UrlAtCaptures | update_readme.py:123 | the anchored matcher returns owner and repository exactly when the text reads `github.com/owner/repo` with the pattern's character classes and greedy ends |
| Helpers.ParseGithubUrl | update_readme.py:121-127 | definition: `re.search` of the URL pattern, returning owner and repository |
| Helpers.ParseGithubUrlSpec | update_readme.py:121-127 | `parse_github_url` returns the captures of the leftmost match, and None exactly when no position matches |
| Helpers.ParsedPartsWellFormed | update_readme.py:121-127 | a parsed owner is non-empty without `/`; a parsed repository is non-empty without `/`, whitespace or `,` |
| Helpers.CalculateCompletion | update_readme.py:129-133 | 0 for no issues, else closed/total times 100, and between 0 and 100 when closed is at most total |
| Helpers.CompletionMonotone | update_readme.py:129-133 | more closed issues out of the same total never lower the completion |
| Helpers.OverallCompletion | update_readme.py:298 | the ready share of the catalog as a percentage, between 0 and 100 |
| Helpers.Truncate | update_readme.py:137 | `int()` truncates toward zero: the result is the integer within 1 of the value on the side of 0 |
| Helpers.ProgressBar | update_readme.py:135-139 | a bar of exactly `width` characters: full blocks up to the floor of the filled share, light shades after |
| Helpers.FilledBounds | update_readme.py:137-138 | the number of full blocks lies between 0 and the width |
| Helpers.PypiUrl | update_readme.py:265 | a PyPI link exists exactly when the entry names a package |
| Helpers.GithubAnswered | update_readme.py:271-276 | definition: a GitHub answer is used when the entry has a truthy `github` URL, the URL parses and the lookup did not fail; a 404 answer counts as used |
| Helpers.PypiAnswered | update_readme.py:282-284 | definition: a PyPI answer is used when the entry names a package and the lookup did not fail |
| Helpers.GithubVersion | update_readme.py:279 | definition: `github_stats.get('latest_version', '0.0.0')`, the found release version or "0.0.0" for a 404 answer |
| Helpers.PypiVersion | update_readme.py:286 | definition: `pypi_stats.get('version', '0.0.0')`, the found package version or "0.0.0" for a 404 answer |
| Readme.ResolveStatus | update_readme.py:257-287 | definition: a version override is never replaced; otherwise a PyPI version other than "0.0.0" beats the GitHub release version, which beats the default; an existence flag is set only by an answer that found the project |
| Readme.MergeStatus | update_readme.py:257-288 | the overwrite chain for one entry yields the declarative record `ResolveStatus` |
| Readme.OverrideVersionKept | update_readme.py:278-287 | a version override survives every registry answer |
| Readme.UnavailableKeepsDefaults | update_readme.py:258-287 | failed lookups leave the catalog's version and both existence flags unset |
| Readme.ReadyCount | update_readme.py:290-293 | the ready count never exceeds the number of records |
| Readme.CatalogReady | update_readme.py:290-293 | the catalog's ready entries never exceed the catalog |
| Readme.IsReady | update_readme.py:290 | definition: a README record is ready exactly when its `status` is 'ready' |
| Readme.Resolved | update_readme.py:257-295 | one record per catalog entry |
| Readme.ReadyCountIsCatalogReady | update_readme.py:289-293 | the README's ready count depends only on the catalog's `status` fields |
| Readme.LinkRules | update_readme.py:337-356 | Code Miner shows only "Private Repo"; others show a GitHub link exactly when the repository exists, "GitHub (planned)" exactly when it does not, and a PyPI link exactly when the package exists; with two links, the GitHub entry comes first and the PyPI link second |
| Readme.Links | update_readme.py:337-348 | definition: the links of one README row |
| Readme.LinksCell | update_readme.py:356 | definition: the links joined with " · ", or "GitHub (planned)" when there are none |
| Readme.GithubLink | update_readme.py:343 | definition: the Markdown link `[GitHub](url)` |
| Readme.PypiLink | update_readme.py:348 | definition: the Markdown link `[PyPI](url)` |
| Readme.StatusIcon | update_readme.py:335 | definition: "✅ Ready" for a ready record, "🚧 Development" otherwise |
| Readme.Row | update_readme.py:335-357 | definition: one table row with name, description, version, license, status icon and links |
| Readme.Table | update_readme.py:333-357 | definition: the rows of all records, concatenated in catalog order |
| Readme.MergeAll | update_readme.py:257-295 | the first loop builds every record in order, and the ready and in-development counts add up to the catalog size |
| Readme.RenderTable | update_readme.py:333-357 | the second loop appends one row per record in order |
| Readme.UpdateReadme | update_readme.py:252-357 | records, counts, overall completion, a 50-character bar and the table, as stated by the functions above |
| Html.GithubCompletion | generate_html.py:190-196 | definition: the closed-issue ratio when there are issues, else 100 for a repository with a release, 10 for one without, 0 when it does not exist |
| Html.IsManual | generate_html.py:221 | definition: the status override is 'complete' or 'functional' |
| Html.PypiReleased | generate_html.py:199-204 | definition: the PyPI answer is used and reports a version other than "0.0.0" |
| Html.ResolvedVersion | generate_html.py:167-218 | definition: a manual override with a version override wins, then a PyPI release, then any GitHub answer, then the catalog's version override or "0.0.0" |
| Html.ResolvedCompletion | generate_html.py:171-218 | definition: a manual override sets the completion override or 100/80; otherwise the GitHub completion when there is no completion override, raised to 100 by a PyPI release when it is 0 |
| Html.ResolveStatus | generate_html.py:158-218 | definition: the record after all overwrites, built from the precedences above |
| Html.MergeStatus | generate_html.py:158-218 | the overwrite chain for one entry yields the declarative record `ResolveStatus` |
| Html.ManualOverrideWins | generate_html.py:208-218 | a manual override fixes completion (100 or 80 unless overridden), the repository flag and, if given, the version; such a component is ready by both tests |
| Html.GithubReplacesVersionOverride | generate_html.py:177-204 | without a manual override a PyPI release wins, then any GitHub answer, which replaces the version override |
| Html.CompletionChain | generate_html.py:190-206 | the completion follows the GitHub chain (closed ratio, else 100 with a release, else 10); PyPI only replaces a completion of exactly 0 |
| Html.CompletionFromGithub | generate_html.py:183-206 | without overrides the completion is the GitHub completion, replaced by 100 only if it is 0 and PyPI reports a release |
| Html.CompletionInRange | generate_html.py:183-218 | with consistent issue counts and an override within 0..100, the completion is a percentage |
| Html.CardReadyIsCounted | generate_html.py:256-258 | a card marked "Ready" belongs to a component the count (line 221) also treats as ready |
| Html.CountedButInDev | generate_html.py:221-222 | an existing repository without release, issues or package is counted as ready, but its card says "In Dev" at 10% |
| Html.CountsAsReady | generate_html.py:221 | definition: the count's ready test: a version other than "0.0.0", an existing repository or a manual override |
| Html.IsCardReady | generate_html.py:256-258 | definition: the card's ready test: a version other than "0.0.0", a manual override or a completion of 80 or more |
| Html.MissingRepositoryNotReady | generate_html.py:177-222 | a missing repository without package or overrides stays at "0.0.0" and 0% and is ready by neither test |
| Html.Resolved | generate_html.py:158-224 | one record per catalog entry |
| Html.ReadyCount | generate_html.py:220-222 | the ready count never exceeds the number of records |
| Html.ManualCount | generate_html.py:208-218 | the manually overridden entries never exceed the catalog |
| Html.ManualCountBound | generate_html.py:208-222 | the ready count is at least the number of manually overridden entries, whatever the registries answer |
| Html.MergeAll | generate_html.py:154-224 | the first loop builds every record in order; the counter equals the ready count, bounded by the manual overrides and the catalog size |
| Html.CardLinkRules | generate_html.py:263-268 | a repository link exactly when there is a GitHub URL and the repository exists or the override is 'complete'; a package link exactly when the package exists; repository first |
| Html.CardLinks | generate_html.py:263-268 | definition: a repository link when the record has a GitHub URL and the repository exists or the override is 'complete', then a package link when it has a PyPI URL and the package exists |
| Html.LinkLine | generate_html.py:264-268 | definition: one indented `<a href>` line, labelled GitHub or PyPI |
| Html.LinksHtml | generate_html.py:263-268 | the link lines are empty exactly when there are no links |
| Html.LinksBlockRule | generate_html.py:281-284 | the links wrapper appears exactly when there is a link, and then holds exactly the link lines |
| Html.LinksBlock | generate_html.py:281-284 | definition: the `component-links` wrapper around the link lines, or nothing when there are none |
| Html.RoundHalfEven | generate_html.py:277 | `{:.0f}` rounds to the nearest integer, ties to even |
| Html.FormatPercent | generate_html.py:277 | the width text of a non-negative completion reads back as its rounded value |
| Html.StatusLabel | generate_html.py:256-261 | "Ready" and `status-ready` exactly when the card's ready test holds |
| Html.Card | generate_html.py:270-287 | definition: one component card with its label, description, progress width, version, license and links |
| Html.Cards | generate_html.py:254-287 | definition: the cards of all records, concatenated in catalog order |
| Html.RenderCards | generate_html.py:253-287 | the second loop appends one card per record in order |
| Html.GenerateHtml | generate_html.py:154-300 | records, ready and in-development counts, overall completion, and the page with the cards spliced into the grid and the timestamp replaced |
| Splice.CloseAt | generate_html.py:290 | a `</div>\s*</section>` match starts with `</div>`, covers at least both tags and stays within the text |
| Splice.CloseAtSpec | generate_html.py:290 | the closing matcher reports a length exactly when the text starts with `</div>`, whitespace and `</section>`, and the length covers exactly those |
| Splice.BlockAt | generate_html.py:290 | a match of the lazy block pattern starts after the opening tag and ends within the text |
| Splice.BlockAtSpec | generate_html.py:290 | the lazy pattern matches exactly up to the first closing pair after the opening tag, in both directions |
| Splice.BlockMatch | generate_html.py:290-291 | the replacement exists exactly when the pattern matches |
| Splice.SpliceBlockNoAnchor | generate_html.py:289-292 | a page without a grid is left unchanged |
| Splice.SpliceBlockAt | generate_html.py:289-292 | at the first grid, the text before it, the opening tag and the closing tags are kept, the content is replaced, and the scan goes on after the closing tags |
| Splice.SpliceBlockSingle | generate_html.py:289-292 | for a page with one grid, only the grid's content is replaced |
| Splice.SpliceBlock | generate_html.py:290-292 | definition: `re.sub` of an opening tag, a lazy DOTALL content and a closing match, keeping the two ends and replacing the content of every block by the fill |
| Splice.SpliceGrid | generate_html.py:289-292 | definition: the block splice with the grid's opening tag, its closing pair and the cards between a newline and the indent |
| Splice.SpliceBlockIdempotent | generate_html.py:289-292 | for any opening tag, splicing content that holds no closing pair a second time changes nothing |
| Splice.SpliceGridIdempotent | generate_html.py:289-292 | when the cards hold no closing pair, splicing the same cards into the spliced page again leaves it unchanged |
| Splice.SpliceGridSingle | generate_html.py:289-292 | for a page with one component grid, its content becomes a newline, the cards and a 12-space indent, and everything else is kept |
| Splice.StampAt | generate_html.py:297 | a timestamp match has at least one character and stays within the text |
| Splice.StampMatch | generate_html.py:296-300 | the replacement exists exactly when the pattern matches |
| Splice.RestampWith | generate_html.py:296-300 | definition: `re.sub` of a marker followed by a greedy `[^<]+` run, replaced by the marker and the new timestamp |
| Splice.Restamp | generate_html.py:294-300 | definition: `re.sub` of `Last updated: [^<]+` with the label and the new timestamp |
| Splice.RestampNoLabel | generate_html.py:296-300 | a page without a stamp is left unchanged |
| Splice.RestampKeepsPrefix | generate_html.py:296-300 | text before the first stamp is copied unchanged |
| Splice.RestampReplaces | generate_html.py:296-300 | a stamp followed by `<` or the end has its old text replaced by the new timestamp |
| Splice.RestampKeepsHead | generate_html.py:296-300 | the first characters, up to the label's length, survive restamping |
| Splice.RestampIdempotent | generate_html.py:295-300 | restamping twice with a timestamp that is non-empty and has no `<` is restamping once |
| Splice.RestampShort | generate_html.py:296-300 | a page shorter than the label is unchanged |

## Left out

- HTTP requests, headers, the `GITHUB_TOKEN` variable and JSON decoding. Each registry reply is a parameter: a `Reply`, the release's tag, and the `Link` header and item count of each issue listing.
- Exceptions other than those the scripts catch, such as a decoding error of the first GitHub response.
- The fields `updated_at`, `created_at` and `default_branch`. Neither generator reads them.
- File I/O and console output. The page `generate_html` reads is a parameter and the results are returned.
- The clock. The timestamp is a parameter, and the README's date line is part of the boilerplate that is not modelled.
- The README boilerplate around the table and the summary-statistics numbers.
- The concrete catalog contents. The generators are modelled for any catalog.
- The three `stat-number` substitutions of `generate_html` (overall percentage, ready count, in-development count). The model computes these numbers, but not their patching into the page.
- `re.sub` template escapes in the card text. The replacement string is modelled as literal text, so a backslash or a group reference in a name or description is not interpreted.
- A catalog key present with the value None reads as absent. None of the catalog's entries sets such a key to None except `github`/`pypi`, where both readings agree.
- A catalog entry without a `github` key reads as having none. The source's `''` default and None render the same way.
- Python's `\d` also matches non-ASCII digits. `IsDigit` takes ASCII digits only.
- Floating point is modelled by exact reals. `{:.0f}` is modelled as round-half-even on the exact value. The float `-0.0` does not exist among the reals, so the `-0` Python prints for it is not produced; a value in (-0.5, 0) does give `-0`, as in Python.
- The characters of the progress bar and of the card icons are the intended Unicode characters. The mis-decoded bytes in the source text are not reproduced.
- Readme.UpdateReadme and Html.GenerateHtml: require a non-empty catalog, because the source divides by its size.
- Splice.SpliceBlockAt and Splice.SpliceBlockSingle: stated for any opening tag and closing matcher, with a non-empty closing match required. `CloseAt` always reports one, and `Splice.SpliceGridSingle` is the grid instance.
- Splice.SpliceGridIdempotent: requires that no `</div>\s*</section>` starts inside the new grid content. That the rendered cards meet this (they do when no name, description or URL holds `</section>`) is not proved.
- Html.GenerateHtml: idempotence is proved for each of the two substitutions, not for the whole pipeline. Their interaction, such as a `Last updated:` inside a card, is not analysed, nor are the `stat-number` patches, which are not modelled.
- Fetch.FetchIssueCounts: the count of a single page is the number of items in the JSON list; the list itself is not modelled.
