/** The two whole-document substitutions at the end of `generate_html`: the cards replace the
    content of the component grid, and the generation time replaces every `Last updated:`
    timestamp. Both are `re.sub` calls, modelled by `Basics.Substitute` with an anchored
    matcher for each pattern. */
module Splice {
  import opened Basics

  const GridOpen := "<div class=\"component-grid\">"
  const DivClose := "</div>"
  const SectionClose := "</section>"
  /** The twelve spaces the replacement puts before the kept closing tags. */
  const GridIndent := "            "

  /** `</div>\s*</section>` matched at the start of `s`: the length of the match. `\s*` is
      greedy and `<` is not whitespace, so the whitespace taken is the whole run of it. */
  function CloseAt(s: string): (r: Option<nat>)
    ensures r.Some? ==> |DivClose| + |SectionClose| <= r.value <= |s| && HasPrefix(s, DivClose)
  {
    if HasPrefix(s, DivClose) then
      var w := Run(s[|DivClose|..], IsSpace);
      if HasPrefix(s[|DivClose| + w..], SectionClose) then Some(|DivClose| + w + |SectionClose|) else None
    else None
  }

  /** The text `</div>\s*</section>` describes at the start of `s`: `</div>`, whitespace `ws`,
      then `</section>`. Since `</section>` starts with `<`, which is not whitespace, `ws` is the
      whole run of whitespace after `</div>`. */
  ghost predicate ClosingTags(s: string, ws: string) {
    HasPrefix(s, DivClose + ws + SectionClose) && forall i :: 0 <= i < |ws| ==> IsSpace(ws[i])
  }

  /** `CloseAt` reports a match exactly when the text has that shape, and the match covers the
      two tags and the whitespace between them. */
  lemma CloseAtSpec(s: string, n: nat)
    ensures CloseAt(s) == Some(n) <==>
              exists ws :: ClosingTags(s, ws) && n == |DivClose| + |ws| + |SectionClose|
  {
    if CloseAt(s) == Some(n) {
      CloseAtSound(s, n);
    }
    if exists ws :: ClosingTags(s, ws) && n == |DivClose| + |ws| + |SectionClose| {
      var ws :| ClosingTags(s, ws) && n == |DivClose| + |ws| + |SectionClose|;
      CloseAtReads(s, ws);
    }
  }

  /** A match of `CloseAt` is the two tags with the whole whitespace run after `</div>` between them. */
  lemma CloseAtSound(s: string, n: nat)
    requires CloseAt(s) == Some(n)
    ensures var w := Run(s[|DivClose|..], IsSpace);
            ClosingTags(s, s[|DivClose|..|DivClose| + w]) && n == |DivClose| + w + |SectionClose|
  {
    var h := |DivClose|;
    var w := Run(s[h..], IsSpace);
    var ws := s[h..h + w];
    var m := h + w + |SectionClose|;
    assert s[..m] == DivClose + ws + SectionClose by {
      assert s[..h] == DivClose;
      assert s[h + w..m] == s[h + w..][..|SectionClose|] == SectionClose;
      assert s[..m] == s[..h] + s[h..h + w] + s[h + w..m];
    }
    forall i | 0 <= i < w ensures IsSpace(ws[i]) {
      assert ws[i] == s[h..][i];
    }
  }

  lemma CloseAtReads(s: string, ws: string)
    requires ClosingTags(s, ws)
    ensures CloseAt(s) == Some(|DivClose| + |ws| + |SectionClose|)
  {
    var h, w := |DivClose|, |ws|;
    var t := DivClose + ws + SectionClose;
    assert s[..|t|] == t;
    assert HasPrefix(s, DivClose) by {
      assert s[..h] == t[..h] == DivClose;
    }
    forall i | 0 <= i < w ensures IsSpace(s[h..][i]) {
      assert s[h..][i] == t[h + i] == ws[i];
    }
    assert s[h..][w] == t[h + w] == '<';
    RunExact(s[h..], w, IsSpace);
    assert s[h + w..][..|SectionClose|] == t[h + w..] == SectionClose;
  }

  /** `(open)(.*?)(close)` with DOTALL matched at the start of `s`, where `closeAt` is the
      anchored matcher of the closing part and reports its length: where the third group
      starts and how long it is. The lazy `.*?` stops at the first position after the opening
      tag where the closing part matches. A closing match reported longer than the remaining
      text is treated as no match (`CloseAt` never reports one). */
  function BlockAt(s: string, open: string, closeAt: string -> Option<nat>): (r: Option<(nat, nat)>)
    ensures r.Some? ==> |open| <= r.value.0 && r.value.0 + r.value.1 <= |s|
  {
    if HasPrefix(s, open) then
      var body := s[|open|..];
      var k := FirstMatch(body, closeAt);
      if k.Some? && closeAt(body[k.value..]).value <= |body| - k.value then
        Some((|open| + k.value, closeAt(body[k.value..]).value))
      else None
    else None
  }

  /** What the lazy pattern matches at the start of `s`, read declaratively: `s` starts with the
      opening tag, the closing part starts at `k` and runs for `n` characters, and the closing
      part matches nowhere between the opening tag and `k`. */
  lemma BlockAtSpec(s: string, open: string, closeAt: string -> Option<nat>, k: nat, n: nat)
    ensures BlockAt(s, open, closeAt) == Some((k, n)) <==>
              HasPrefix(s, open) && |open| <= k && k + n <= |s| && closeAt(s[k..]) == Some(n)
              && forall j {:trigger closeAt(s[j..])} :: |open| <= j < k ==> closeAt(s[j..]).None?
  {
    if BlockAt(s, open, closeAt) == Some((k, n)) {
      BlockAtSound(s, open, closeAt, k, n);
    }
    if HasPrefix(s, open) && |open| <= k && k + n <= |s| && closeAt(s[k..]) == Some(n)
       && forall j {:trigger closeAt(s[j..])} :: |open| <= j < k ==> closeAt(s[j..]).None? {
      BlockAtComplete(s, open, closeAt, k, n);
    }
  }

  lemma BlockAtSound(s: string, open: string, closeAt: string -> Option<nat>, k: nat, n: nat)
    requires BlockAt(s, open, closeAt) == Some((k, n))
    ensures HasPrefix(s, open) && |open| <= k && k + n <= |s| && closeAt(s[k..]) == Some(n)
    ensures forall j {:trigger closeAt(s[j..])} :: |open| <= j < k ==> closeAt(s[j..]).None?
  {
    var h := |open|;
    var body := s[h..];
    var first := FirstMatch(body, closeAt).value;
    FirstMatchSpec(body, closeAt);
    assert body[first..] == s[k..];
    forall j | h <= j < k ensures closeAt(s[j..]).None? {
      assert body[j - h..] == s[j..];
    }
  }

  lemma BlockAtComplete(s: string, open: string, closeAt: string -> Option<nat>, k: nat, n: nat)
    requires HasPrefix(s, open) && |open| <= k && k + n <= |s| && closeAt(s[k..]) == Some(n)
    requires forall j {:trigger closeAt(s[j..])} :: |open| <= j < k ==> closeAt(s[j..]).None?
    ensures BlockAt(s, open, closeAt) == Some((k, n))
  {
    var h := |open|;
    var body := s[h..];
    FirstMatchSpec(body, closeAt);
    assert body[k - h..] == s[k..];
    var first := FirstMatch(body, closeAt);
    assert first.Some? && first.value <= k - h;
    var f := first.value;
    assert body[f..] == s[h + f..];
    assert closeAt(s[h + f..]).Some?;
    assert f == k - h;
  }

  /** The block pattern with the replacement `\1` + fill + `\3`, as `re.sub` sees it: the length
      of the match and the text that replaces it. */
  function BlockMatch(s: string, open: string, closeAt: string -> Option<nat>, fill: string): (r: Option<(nat, string)>)
    ensures r.Some? <==> BlockAt(s, open, closeAt).Some?
  {
    var m := BlockAt(s, open, closeAt);
    if m.Some? then Some((m.value.0 + m.value.1, open + fill + s[m.value.0..m.value.0 + m.value.1]))
    else None
  }

  function BlockMatcher(open: string, closeAt: string -> Option<nat>, fill: string): string -> Option<(nat, string)> {
    s => BlockMatch(s, open, closeAt, fill)
  }

  /** `re.sub` of the block pattern with that replacement: the content of every block is
      replaced by `fill`. */
  function SpliceBlock(page: string, open: string, closeAt: string -> Option<nat>, fill: string): string {
    Substitute(page, BlockMatcher(open, closeAt, fill))
  }

  /** `re.sub(grid pattern, '\\1\n' + cards + GridIndent + '\\3', page, flags=re.DOTALL)`: the
      block splice with the grid's opening tag, its closing tags and the cards between a
      newline and the indent. */
  function SpliceGrid(page: string, cards: string): string {
    SpliceBlock(page, GridOpen, CloseAt, "\n" + cards + GridIndent)
  }

  /** Where the block pattern matches nowhere, the page is left as it is. */
  lemma SpliceBlockNoAnchor(page: string, open: string, closeAt: string -> Option<nat>, fill: string)
    requires forall i {:trigger BlockAt(page[i..], open, closeAt)} ::
               0 <= i <= |page| ==> BlockAt(page[i..], open, closeAt).None?
    ensures SpliceBlock(page, open, closeAt, fill) == page
  {
    var f := BlockMatcher(open, closeAt, fill);
    forall i | 0 <= i <= |page| ensures f(page[i..]).None? {
      BlockMatcherNone(page[i..], open, closeAt, fill);
    }
    SubstituteNoMatch(page, f);
  }

  /** The first block of a page `before + block`, where the pattern matches at the start of
      `block` and nowhere in `before`: `before` and the opening tag are kept, the content up to
      the closing part is replaced by `fill`, the closing part `block[k..k + n]` is kept, and
      the scan goes on after it. */
  lemma SpliceBlockAt(before: string, block: string, open: string, closeAt: string -> Option<nat>,
                      fill: string, k: nat, n: nat)
    requires forall i {:trigger BlockAt((before + block)[i..], open, closeAt)} ::
               0 <= i < |before| ==> BlockAt((before + block)[i..], open, closeAt).None?
    requires BlockAt(block, open, closeAt) == Some((k, n)) && 0 < n
    ensures SpliceBlock(before + block, open, closeAt, fill)
            == before + (open + fill + block[k..k + n] + SpliceBlock(block[k + n..], open, closeAt, fill))
  {
    NoBlockBefore(before, block, open, closeAt, fill);
    BlockMatcherSome(block, open, closeAt, fill, k, n);
    SpliceFirstMatch(before, block, BlockMatcher(open, closeAt, fill), k + n, open + fill + block[k..k + n]);
  }

  /** `SubstituteAt` for a replacement matcher given by its value at the first match. */
  lemma SpliceFirstMatch(before: string, block: string, f: string -> Option<(nat, string)>, m: nat, rep: string)
    requires forall i {:trigger f((before + block)[i..])} :: 0 <= i < |before| ==> f((before + block)[i..]).None?
    requires f(block) == Some((m, rep)) && 0 < m <= |block|
    ensures Substitute(before + block, f) == before + (rep + Substitute(block[m..], f))
  {
    SubstituteAt(before, block, f);
  }

  /** No block starts inside `before`, so the replacement matcher finds nothing there either. */
  lemma NoBlockBefore(before: string, block: string, open: string, closeAt: string -> Option<nat>, fill: string)
    requires forall i {:trigger BlockAt((before + block)[i..], open, closeAt)} ::
               0 <= i < |before| ==> BlockAt((before + block)[i..], open, closeAt).None?
    ensures forall i {:trigger BlockMatcher(open, closeAt, fill)((before + block)[i..])} ::
              0 <= i < |before| ==> BlockMatcher(open, closeAt, fill)((before + block)[i..]).None?
  {
    forall i | 0 <= i < |before| ensures BlockMatcher(open, closeAt, fill)((before + block)[i..]).None? {
      BlockMatcherNone((before + block)[i..], open, closeAt, fill);
    }
  }

  lemma BlockMatcherNone(s: string, open: string, closeAt: string -> Option<nat>, fill: string)
    requires BlockAt(s, open, closeAt).None?
    ensures BlockMatcher(open, closeAt, fill)(s).None?
  {
    assert BlockMatcher(open, closeAt, fill)(s) == BlockMatch(s, open, closeAt, fill);
  }

  lemma BlockMatcherSome(s: string, open: string, closeAt: string -> Option<nat>, fill: string, k: nat, n: nat)
    requires BlockAt(s, open, closeAt) == Some((k, n))
    ensures BlockMatcher(open, closeAt, fill)(s) == Some((k + n, open + fill + s[k..k + n]))
  {
    assert BlockMatcher(open, closeAt, fill)(s) == BlockMatch(s, open, closeAt, fill);
  }

  /** A page with one block and no match after it: everything up to and including the opening
      tag, and everything from the closing part on, is kept; only the content between them is
      replaced. */
  lemma SpliceBlockSingle(before: string, block: string, open: string, closeAt: string -> Option<nat>,
                          fill: string, k: nat, n: nat)
    requires forall i {:trigger BlockAt((before + block)[i..], open, closeAt)} ::
               0 <= i < |before| ==> BlockAt((before + block)[i..], open, closeAt).None?
    requires BlockAt(block, open, closeAt) == Some((k, n)) && 0 < n
    requires forall i {:trigger BlockAt(block[k + n..][i..], open, closeAt)} ::
               0 <= i <= |block| - (k + n) ==> BlockAt(block[k + n..][i..], open, closeAt).None?
    ensures SpliceBlock(before + block, open, closeAt, fill) == before + (open + fill + block[k..])
  {
    var after := block[k + n..];
    var tail := SpliceBlock(after, open, closeAt, fill);
    assert SpliceBlock(before + block, open, closeAt, fill) == before + (open + fill + block[k..k + n] + tail) by {
      SpliceBlockAt(before, block, open, closeAt, fill, k, n);
    }
    assert tail == after by {
      SpliceBlockNoAnchor(after, open, closeAt, fill);
    }
    assert block[k..k + n] + after == block[k..] by {
      SliceSplit(block, k, k + n);
    }
    Rejoin(SpliceBlock(before + block, open, closeAt, fill), before, open + fill, block[k..k + n], tail, after, block[k..]);
  }

  /** The grid splice of a page with one grid: the page up to and including the grid's opening
      tag, and everything from its closing tags on, is kept; the grid's content becomes a
      newline, the cards and the indent. */
  lemma SpliceGridSingle(before: string, grid: string, cards: string, k: nat, n: nat)
    requires forall i {:trigger BlockAt((before + grid)[i..], GridOpen, CloseAt)} ::
               0 <= i < |before| ==> BlockAt((before + grid)[i..], GridOpen, CloseAt).None?
    requires BlockAt(grid, GridOpen, CloseAt) == Some((k, n))
    requires forall i {:trigger BlockAt(grid[k + n..][i..], GridOpen, CloseAt)} ::
               0 <= i <= |grid| - (k + n) ==> BlockAt(grid[k + n..][i..], GridOpen, CloseAt).None?
    ensures SpliceGrid(before + grid, cards) == before + (GridOpen + ("\n" + cards + GridIndent) + grid[k..])
  {
    BlockAtSound(grid, GridOpen, CloseAt, k, n);
    SpliceBlockSingle(before, grid, GridOpen, CloseAt, "\n" + cards + GridIndent, k, n);
  }

  /** No match of `</div>\s*</section>` starts inside `fill`. */
  predicate NoCloseIn(fill: string) {
    forall i {:trigger CloseAt(fill[i..])} :: 0 <= i < |fill| ==> CloseAt(fill[i..]).None?
  }

  /** Splicing the grid is idempotent: when the replacement content holds no closing pair of
      its own, splicing the same cards into the spliced page changes nothing, so re-running
      the generator on unchanged data leaves the grid as it is. */
  lemma SpliceGridIdempotent(page: string, cards: string)
    requires NoCloseIn("\n" + cards + GridIndent)
    ensures SpliceGrid(SpliceGrid(page, cards), cards) == SpliceGrid(page, cards)
  {
    SpliceBlockIdempotent(page, GridOpen, "\n" + cards + GridIndent);
  }

  /** The block splice with the closing pair `</div>\s*</section>` is idempotent for any
      opening tag and any content without a closing pair. Each block the first pass replaced
      is matched again at the same place by the second (the new content hides no closing pair,
      and the kept closing pair still matches), and the second pass finds no block where the
      first pass found none. */
  lemma {:induction false} SpliceBlockIdempotent(page: string, open: string, fill: string)
    requires NoCloseIn(fill)
    ensures SpliceBlock(SpliceBlock(page, open, CloseAt, fill), open, CloseAt, fill)
            == SpliceBlock(page, open, CloseAt, fill)
    decreases |page|
  {
    if BlockAt(page, open, CloseAt).Some? {
      var k, n := BlockAt(page, open, CloseAt).value.0, BlockAt(page, open, CloseAt).value.1;
      BlockAtSound(page, open, CloseAt, k, n);
      KeptClosing(page, open, fill, k, n);
      SpliceBlockIdempotent(page[k + n..], open, fill);
      IdempotentAtBlock(page, open, CloseAt, fill, k, n);
    } else if |page| < |open| {
      ShortPageKept(page, open, fill);
    } else if HasPrefix(page, open) {
      NoBlockKeeps(page, open, fill);
    } else {
      SpliceBlockIdempotent(page[1..], open, fill);
      IdempotentAtCopy(page, open, fill);
    }
  }

  /** The closing pair of a block still matches after the splice, and no closing pair starts
      inside the new content in front of it. */
  lemma KeptClosing(page: string, open: string, fill: string, k: nat, n: nat)
    requires NoCloseIn(fill) && k + n <= |page| && CloseAt(page[k..]) == Some(n)
    ensures var tail := page[k..k + n] + SpliceBlock(page[k + n..], open, CloseAt, fill);
            CloseAt(tail) == Some(n)
            && forall j {:trigger CloseAt((fill + tail)[j..])} :: 0 <= j < |fill| ==> CloseAt((fill + tail)[j..]).None?
  {
    var rest := SpliceBlock(page[k + n..], open, CloseAt, fill);
    assert page[k..][..n] == page[k..k + n];
    CloseAtExtend(page[k..], rest, n);
    FillNoClose(fill, page[k..k + n] + rest);
  }

  /** A page shorter than the opening tag holds no block and is kept. */
  lemma ShortPageKept(page: string, open: string, fill: string)
    requires |page| < |open|
    ensures SpliceBlock(page, open, CloseAt, fill) == page
  {
    forall i | 0 <= i <= |page| ensures BlockAt(page[i..], open, CloseAt).None? {
    }
    SpliceBlockNoAnchor(page, open, CloseAt, fill);
  }

  /** The step of `SpliceBlockIdempotent` at a block: the second pass matches the spliced block
      again, keeps it, and goes on with the already spliced rest. */
  lemma IdempotentAtBlock(page: string, open: string, closeAt: string -> Option<nat>, fill: string, k: nat, n: nat)
    requires BlockAt(page, open, closeAt) == Some((k, n)) && 0 < n
    requires var tail := page[k..k + n] + SpliceBlock(page[k + n..], open, closeAt, fill);
             closeAt(tail) == Some(n)
             && forall j {:trigger closeAt((fill + tail)[j..])} :: 0 <= j < |fill| ==> closeAt((fill + tail)[j..]).None?
    requires var rest := SpliceBlock(page[k + n..], open, closeAt, fill);
             SpliceBlock(rest, open, closeAt, fill) == rest
    ensures SpliceBlock(SpliceBlock(page, open, closeAt, fill), open, closeAt, fill)
            == SpliceBlock(page, open, closeAt, fill)
  {
    SpliceBlockHere(page, open, closeAt, fill, k, n);
    var closing := page[k..k + n];
    var rest := SpliceBlock(page[k + n..], open, closeAt, fill);
    var out := open + fill + (closing + rest);
    assert SpliceBlock(page, open, closeAt, fill) == out;
    BlockAtSplicedFill(open, closeAt, fill, closing + rest, n);
    var k' := |open| + |fill|;
    SpliceBlockHere(out, open, closeAt, fill, k', n);
    assert out[k'..k' + n] == closing;
    assert out[k' + n..] == rest;
  }

  /** The step of `SpliceBlockIdempotent` where the page does not start with the opening tag:
      neither does the spliced page, so both passes copy the first character. */
  lemma IdempotentAtCopy(page: string, open: string, fill: string)
    requires |open| <= |page| && !HasPrefix(page, open)
    requires var rest := SpliceBlock(page[1..], open, CloseAt, fill);
             SpliceBlock(rest, open, CloseAt, fill) == rest
    ensures SpliceBlock(SpliceBlock(page, open, CloseAt, fill), open, CloseAt, fill)
            == SpliceBlock(page, open, CloseAt, fill)
  {
    var out := SpliceBlock(page, open, CloseAt, fill);
    SpliceBlockCopy(page, open, fill);
    SpliceKeepsHead(page, open, CloseAt, fill, |open|);
    assert !HasPrefix(out, open) by {
      assert out[..|open|] == page[..|open|];
    }
    SpliceBlockCopy(out, open, fill);
    assert out[1..] == SpliceBlock(page[1..], open, CloseAt, fill);
  }

  /** After the opening tag and content in which no closing part starts, the block pattern
      matches up to the closing part that follows. */
  lemma BlockAtSplicedFill(open: string, closeAt: string -> Option<nat>, fill: string, tail: string, n: nat)
    requires closeAt(tail) == Some(n) && n <= |tail|
    requires forall j {:trigger closeAt((fill + tail)[j..])} :: 0 <= j < |fill| ==> closeAt((fill + tail)[j..]).None?
    ensures BlockAt(open + fill + tail, open, closeAt) == Some((|open| + |fill|, n))
  {
    var s := open + fill + tail;
    var k := |open| + |fill|;
    assert s[..|open|] == open;
    assert s[k..] == tail;
    forall j | |open| <= j < k ensures closeAt(s[j..]).None? {
      assert s[j..] == (fill + tail)[j - |open|..];
    }
    BlockAtComplete(s, open, closeAt, k, n);
  }

  /** Content without a closing pair, followed by `</div>`, has no closing pair starting inside
      it. */
  lemma FillNoClose(fill: string, tail: string)
    requires NoCloseIn(fill) && HasPrefix(tail, DivClose)
    ensures forall j {:trigger CloseAt((fill + tail)[j..])} :: 0 <= j < |fill| ==> CloseAt((fill + tail)[j..]).None?
  {
    forall j | 0 <= j < |fill| ensures CloseAt((fill + tail)[j..]).None? {
      CloseNotInFill(fill, tail, j);
    }
  }

  /** Where a block matches at the start of the page, it is replaced and the scan resumes after
      its closing pair. */
  lemma SpliceBlockHere(page: string, open: string, closeAt: string -> Option<nat>, fill: string, k: nat, n: nat)
    requires BlockAt(page, open, closeAt) == Some((k, n)) && 0 < k + n
    ensures SpliceBlock(page, open, closeAt, fill)
            == open + fill + page[k..k + n] + SpliceBlock(page[k + n..], open, closeAt, fill)
  {
    BlockAtSound(page, open, closeAt, k, n);
    BlockMatcherSome(page, open, closeAt, fill, k, n);
  }

  /** Where no block matches at the start of the page, its first character is copied. */
  lemma SpliceBlockCopy(page: string, open: string, fill: string)
    requires page != [] && BlockAt(page, open, CloseAt).None?
    ensures SpliceBlock(page, open, CloseAt, fill) == [page[0]] + SpliceBlock(page[1..], open, CloseAt, fill)
  {
    BlockMatcherNone(page, open, CloseAt, fill);
  }

  /** The first characters of the page, up to the opening tag's length, survive the splice. */
  lemma {:induction false} SpliceKeepsHead(page: string, open: string, closeAt: string -> Option<nat>, fill: string, m: nat)
    requires m <= |open| && m <= |page|
    ensures m <= |SpliceBlock(page, open, closeAt, fill)|
    ensures SpliceBlock(page, open, closeAt, fill)[..m] == page[..m]
    decreases m
  {
    var out := SpliceBlock(page, open, closeAt, fill);
    if m == 0 {
    } else if BlockAt(page, open, closeAt).Some? {
      var k, n := BlockAt(page, open, closeAt).value.0, BlockAt(page, open, closeAt).value.1;
      BlockAtSound(page, open, closeAt, k, n);
      SpliceBlockHere(page, open, closeAt, fill, k, n);
      assert out[..m] == open[..m];
      assert page[..m] == open[..m];
    } else {
      BlockMatcherNone(page, open, closeAt, fill);
      SpliceKeepsHead(page[1..], open, closeAt, fill, m - 1);
      assert out == [page[0]] + SpliceBlock(page[1..], open, closeAt, fill);
      assert out[..m] == [page[0]] + SpliceBlock(page[1..], open, closeAt, fill)[..m - 1];
      assert page[..m] == [page[0]] + page[1..][..m - 1];
    }
  }

  /** A page that starts with the opening tag but has no block there has no block anywhere, so
      the splice leaves it unchanged. */
  lemma NoBlockKeeps(page: string, open: string, fill: string)
    requires HasPrefix(page, open) && BlockAt(page, open, CloseAt).None?
    ensures SpliceBlock(page, open, CloseAt, fill) == page
  {
    var h := |open|;
    var body := page[h..];
    assert FirstMatch(body, CloseAt).None?;
    FirstMatchSpec(body, CloseAt);
    forall i | 0 <= i <= |page| ensures BlockAt(page[i..], open, CloseAt).None? {
      forall j | h <= j <= |page[i..]| ensures CloseAt(page[i..][j..]).None? {
        assert page[i..][j..] == body[i + j - h..];
      }
      BlockAtNoClose(page[i..], open);
    }
    SpliceBlockNoAnchor(page, open, CloseAt, fill);
  }

  /** No block starts where no closing pair follows the opening tag. */
  lemma BlockAtNoClose(s: string, open: string)
    requires forall j {:trigger CloseAt(s[j..])} :: |open| <= j <= |s| ==> CloseAt(s[j..]).None?
    ensures BlockAt(s, open, CloseAt).None?
  {
    if HasPrefix(s, open) {
      var body := s[|open|..];
      forall j | 0 <= j <= |body| ensures CloseAt(body[j..]).None? {
        assert body[j..] == s[|open| + j..];
      }
    }
  }

  /** A closing pair still matches, with the same length, whatever follows it. */
  lemma CloseAtExtend(s: string, rest: string, n: nat)
    requires CloseAt(s) == Some(n)
    ensures CloseAt(s[..n] + rest) == Some(n)
  {
    CloseAtSpec(s, n);
    var ws :| ClosingTags(s, ws) && n == |DivClose| + |ws| + |SectionClose|;
    assert (s[..n] + rest)[..n] == s[..n];
    CloseAtReads(s[..n] + rest, ws);
  }

  /** In content without a closing pair that is followed by a closing pair, no closing pair
      starts inside the content: one that did would either lie inside the content or cross
      into the `</div>` after it, and `</div>\s*</section>` has no `<` where that `</div>`
      begins except at `</section>`, whose third character is not `d`. */
  lemma CloseNotInFill(fill: string, t: string, j: nat)
    requires NoCloseIn(fill) && j < |fill| && HasPrefix(t, DivClose)
    ensures CloseAt((fill + t)[j..]).None?
  {
    var x := (fill + t)[j..];
    forall ws | ClosingTags(x, ws) ensures ClosingTags(fill[j..], ws) {
      ClosingInsideFill(fill, t, j, ws);
    }
    CloseAtNone(x);
    CloseAtNone(fill[j..]);
  }

  lemma ClosingInsideFill(fill: string, t: string, j: nat, ws: string)
    requires j < |fill| && HasPrefix(t, DivClose) && ClosingTags((fill + t)[j..], ws)
    ensures ClosingTags(fill[j..], ws)
  {
    var x := (fill + t)[j..];
    var tags := DivClose + ws + SectionClose;
    var p := |fill| - j;
    ClosingPatternChars(ws);
    assert forall i :: 0 <= i < |tags| ==> x[i] == tags[i] by {
      assert x[..|tags|] == tags;
    }
    assert x[p] == '<' by {
      assert x[p] == t[0] == t[..|DivClose|][0];
    }
    assert x[p + 2] == 'd' by {
      assert x[p + 2] == t[2] == t[..|DivClose|][2];
    }
    assert |tags| <= p;
    assert fill[j..][..|tags|] == x[..|tags|];
  }

  /** Where `<` occurs in `</div>` + whitespace + `</section>`, and what follows the second. */
  lemma ClosingPatternChars(ws: string)
    requires forall i :: 0 <= i < |ws| ==> IsSpace(ws[i])
    ensures forall p :: 0 < p < |DivClose + ws + SectionClose| && p != |DivClose| + |ws| ==>
              (DivClose + ws + SectionClose)[p] != '<'
    ensures (DivClose + ws + SectionClose)[|DivClose| + |ws| + 2] == 's'
  {
    var tags := DivClose + ws + SectionClose;
    var h := |DivClose|;
    forall p | 0 < p < |tags| && p != h + |ws| ensures tags[p] != '<' {
      if p < h {
        assert tags[p] == DivClose[p];
      } else if p < h + |ws| {
        assert tags[p] == ws[p - h];
      } else {
        assert tags[p] == SectionClose[p - h - |ws|];
      }
    }
    assert tags[h + |ws| + 2] == SectionClose[2];
  }

  /** `CloseAt` reports no match exactly when the text has no closing pair at its start. */
  lemma CloseAtNone(s: string)
    ensures CloseAt(s).None? <==> forall ws :: !ClosingTags(s, ws)
  {
    if CloseAt(s).Some? {
      CloseAtSpec(s, CloseAt(s).value);
    }
    forall ws | ClosingTags(s, ws) ensures CloseAt(s).Some? {
      CloseAtReads(s, ws);
    }
  }

  lemma Rejoin(whole: string, before: string, head: string, mid: string, tail: string, after: string, rest: string)
    requires whole == before + (head + mid + tail) && tail == after && mid + after == rest
    ensures whole == before + (head + rest)
  {
  }

  const Label := "Last updated: "

  predicate NotTagOpen(c: char) {
    c != '<'
  }

  /** `marker[^<]+` matched at the start of `s`: the length of the old timestamp, the whole run of
      characters before the next `<` (at least one). The timestamp pattern is the instance
      `marker == Label`; the lemmas below hold for any marker. */
  function StampAt(s: string, marker: string): (r: Option<nat>)
    ensures r.Some? ==> 0 < r.value && |marker| + r.value <= |s|
  {
    if HasPrefix(s, marker) then
      var n := Run(s[|marker|..], NotTagOpen);
      if n > 0 then Some(n) else None
    else None
  }

  /** The stamp pattern with the replacement `marker + timestamp`. */
  function StampMatch(s: string, marker: string, timestamp: string): (r: Option<(nat, string)>)
    ensures r.Some? <==> StampAt(s, marker).Some?
  {
    match StampAt(s, marker)
    case Some(n) => Some((|marker| + n, marker + timestamp))
    case None => None
  }

  function StampMatcher(marker: string, timestamp: string): string -> Option<(nat, string)> {
    s => StampMatch(s, marker, timestamp)
  }

  /** `re.sub(marker + '[^<]+', marker + timestamp, page)`. */
  function RestampWith(page: string, marker: string, timestamp: string): string {
    Substitute(page, StampMatcher(marker, timestamp))
  }

  /** `re.sub(r'Last updated: [^<]+', 'Last updated: ' + timestamp, page)`. */
  function Restamp(page: string, timestamp: string): string {
    RestampWith(page, Label, timestamp)
  }

  /** One step of the stamp scan. */
  lemma RestampStep(page: string, marker: string, timestamp: string)
    ensures RestampWith(page, marker, timestamp)
            == match StampAt(page, marker)
               case Some(n) => marker + timestamp + RestampWith(page[|marker| + n..], marker, timestamp)
               case None => if page == [] then [] else [page[0]] + RestampWith(page[1..], marker, timestamp)
  {
    var f := StampMatcher(marker, timestamp);
    assert f(page) == StampMatch(page, marker, timestamp);
  }

  /** A page without a marker followed by text is left as it is. */
  lemma RestampNoLabel(page: string, marker: string, timestamp: string)
    requires forall i {:trigger StampAt(page[i..], marker)} :: 0 <= i <= |page| ==> StampAt(page[i..], marker).None?
    ensures RestampWith(page, marker, timestamp) == page
  {
    var f := StampMatcher(marker, timestamp);
    forall i | 0 <= i <= |page| ensures f(page[i..]).None? {
      assert f(page[i..]) == StampMatch(page[i..], marker, timestamp);
    }
    SubstituteNoMatch(page, f);
  }

  /** Text before the first marker is copied unchanged. */
  lemma RestampKeepsPrefix(before: string, rest: string, marker: string, timestamp: string)
    requires forall i {:trigger StampAt((before + rest)[i..], marker)} ::
               0 <= i < |before| ==> StampAt((before + rest)[i..], marker).None?
    ensures RestampWith(before + rest, marker, timestamp) == before + RestampWith(rest, marker, timestamp)
  {
    var f := StampMatcher(marker, timestamp);
    forall i | 0 <= i < |before| ensures f((before + rest)[i..]).None? {
      assert f((before + rest)[i..]) == StampMatch((before + rest)[i..], marker, timestamp);
    }
    SubstituteKeepsPrefix(before, rest, f);
  }

  /** A marker, then its old timestamp `stamp` (no `<`, not empty), then text that is empty or
      starts with `<`: the old timestamp is replaced by the new one, the marker and everything
      after the old timestamp are kept, and the scan goes on after it. */
  lemma RestampReplaces(marker: string, stamp: string, rest: string, timestamp: string)
    requires stamp != [] && forall i :: 0 <= i < |stamp| ==> stamp[i] != '<'
    requires rest == [] || rest[0] == '<'
    ensures RestampWith(marker + stamp + rest, marker, timestamp) == marker + timestamp + RestampWith(rest, marker, timestamp)
  {
    var s := marker + stamp + rest;
    assert s[..|marker|] == marker;
    assert s[|marker|..] == stamp + rest;
    RunOfPrefix(stamp, rest, NotTagOpen);
    assert s[|marker| + |stamp|..] == rest;
    RestampStep(s, marker, timestamp);
  }

  /** The first characters of a page, up to the length of the marker, survive the restamping. */
  lemma {:induction false} RestampKeepsHead(page: string, marker: string, timestamp: string, m: nat)
    requires m <= |marker| && m <= |page|
    ensures m <= |RestampWith(page, marker, timestamp)| && RestampWith(page, marker, timestamp)[..m] == page[..m]
    decreases |page|
  {
    RestampStep(page, marker, timestamp);
    match StampAt(page, marker)
    case Some(n) =>
      assert page[..|marker|] == marker;
    case None =>
      if m > 0 {
        RestampKeepsHead(page[1..], marker, timestamp, m - 1);
        var r := RestampWith(page, marker, timestamp);
        assert r == [page[0]] + RestampWith(page[1..], marker, timestamp);
        assert r[..m] == [page[0]] + RestampWith(page[1..], marker, timestamp)[..m - 1];
        assert page[..m] == [page[0]] + page[1..][..m - 1];
      }
  }

  /** Restamping with a timestamp that is not empty and has no `<` is idempotent: the second
      pass finds every marker again, followed by exactly the new timestamp. */
  lemma {:induction false} RestampIdempotent(page: string, marker: string, timestamp: string)
    requires timestamp != [] && forall i :: 0 <= i < |timestamp| ==> timestamp[i] != '<'
    ensures RestampWith(RestampWith(page, marker, timestamp), marker, timestamp) == RestampWith(page, marker, timestamp)
    decreases |page|
  {
    var once := RestampWith(page, marker, timestamp);
    RestampStep(page, marker, timestamp);
    match StampAt(page, marker)
    case Some(n) =>
      var rest := page[|marker| + n..];
      assert once == marker + timestamp + RestampWith(rest, marker, timestamp);
      var again := RestampWith(rest, marker, timestamp);
      assert rest == [] || rest[0] == '<' by {
        assert page[|marker|..][n..] == rest;
      }
      assert again == [] || again[0] == '<' by {
        if rest != [] {
          RestampFirst(rest, marker, timestamp);
        } else {
          RestampStep(rest, marker, timestamp);
        }
      }
      RestampReplaces(marker, timestamp, again, timestamp);
      RestampIdempotent(rest, marker, timestamp);
    case None =>
      if page != [] {
        var tail := RestampWith(page[1..], marker, timestamp);
        assert once == [page[0]] + tail;
        NoStampAfterCopy(page, marker, timestamp);
        RestampStep(once, marker, timestamp);
        assert once[1..] == tail;
        RestampIdempotent(page[1..], marker, timestamp);
      } else {
        RestampStep(once, marker, timestamp);
      }
  }

  /** A page that starts with `<` still starts with `<` after restamping. */
  lemma RestampFirst(page: string, marker: string, timestamp: string)
    requires page != [] && page[0] == '<'
    ensures RestampWith(page, marker, timestamp) != [] && RestampWith(page, marker, timestamp)[0] == '<'
  {
    RestampStep(page, marker, timestamp);
    if StampAt(page, marker).Some? {
      assert marker != [] && marker[0] == '<' by {
        assert page[..|marker|] == marker;
      }
    }
  }

  /** When no match starts at the first character, none starts there after the rest of the page
      has been restamped either: the marker's characters and the one after it are unchanged. */
  lemma NoStampAfterCopy(page: string, marker: string, timestamp: string)
    requires page != [] && StampAt(page, marker).None?
    ensures StampAt([page[0]] + RestampWith(page[1..], marker, timestamp), marker).None?
  {
    var once := [page[0]] + RestampWith(page[1..], marker, timestamp);
    var h := |marker|;
    if |page| <= h {
      RestampShort(page[1..], marker, timestamp);
      assert once == page;
    } else {
      RestampKeepsHead(page[1..], marker, timestamp, h);
      assert once[..h + 1] == [page[0]] + RestampWith(page[1..], marker, timestamp)[..h];
      assert page[..h + 1] == [page[0]] + page[1..][..h];
      assert once[..h + 1] == page[..h + 1];
      if HasPrefix(once, marker) {
        assert once[..h] == page[..h];
        assert page[h..][0] == page[h];
        assert page[h] == '<';
        assert once[h..][0] == once[h] == '<';
      }
    }
  }

  /** A page shorter than the marker has nothing to restamp. */
  lemma {:induction false} RestampShort(page: string, marker: string, timestamp: string)
    requires |page| < |marker|
    ensures RestampWith(page, marker, timestamp) == page
    decreases |page|
  {
    RestampStep(page, marker, timestamp);
    if page != [] {
      RestampShort(page[1..], marker, timestamp);
    }
  }
}
