/** Value types and string helpers shared by the two dashboard generators: an optional value,
    Python's truthiness of optional strings, prefix and substring tests, `str * n`,
    `str.join`, the `\s` character class of Python's `re` module, and the left-to-right
    scan that `re.search` performs. */
module Basics {

  datatype Option<+T> = None | Some(value: T) {
    /** Python's `d.get(key, default)` when the key may be absent. */
    function GetOr(default: T): T {
      match this
      case Some(v) => v
      case None => default
    }
  }

  /** Python truthiness of a value that is either absent/None or a string: present and non-empty. */
  predicate Truthy(s: Option<string>) {
    s.Some? && s.value != ""
  }

  /** `s.startswith(p)`. */
  predicate HasPrefix(s: string, p: string) {
    |p| <= |s| && s[..|p|] == p
  }

  /** Python's `p in s` on strings. */
  predicate Contains(s: string, p: string)
    decreases |s|
  {
    HasPrefix(s, p) || (s != [] && Contains(s[1..], p))
  }

  /** `p in s` whenever `p` is a prefix of some suffix of `s`. */
  lemma {:induction false} ContainsAt(s: string, p: string, i: nat)
    requires i <= |s| && HasPrefix(s[i..], p)
    ensures Contains(s, p)
    decreases i
  {
    if i > 0 {
      assert s[1..][i - 1..] == s[i..];
      ContainsAt(s[1..], p, i - 1);
    }
  }

  /** Python's `c * n` for a one-character string `c`: empty when `n <= 0`. */
  function Repeat(c: char, n: int): (r: string)
    ensures |r| == if n <= 0 then 0 else n
    ensures forall i :: 0 <= i < |r| ==> r[i] == c
    decreases if n <= 0 then 0 else n
  {
    if n <= 0 then [] else [c] + Repeat(c, n - 1)
  }

  /** Python's `sep.join(parts)`. */
  function Join(parts: seq<string>, sep: string): string
    decreases |parts|
  {
    if |parts| == 0 then ""
    else if |parts| == 1 then parts[0]
    else parts[0] + sep + Join(parts[1..], sep)
  }

  predicate IsDigit(c: char) {
    '0' <= c <= '9'
  }

  /** Python's `int(ds)` for a string of decimal digits. */
  function DecimalValue(ds: string): nat
    decreases |ds|
  {
    if ds == [] then 0
    else DecimalValue(ds[..|ds| - 1]) * 10 + ((ds[|ds| - 1] as int - '0' as int) % 10)
  }

  /** Python's `str(n)` for a natural number: its decimal digits, most significant first. */
  function NatToDecimal(n: nat): (ds: string)
    ensures ds != [] && forall i :: 0 <= i < |ds| ==> IsDigit(ds[i])
    decreases n
  {
    if n < 10 then [('0' as int + n) as char]
    else NatToDecimal(n / 10) + [('0' as int + n % 10) as char]
  }

  /** Reading back the digits `str` writes gives the number again. */
  lemma {:induction false} DecimalRoundTrip(n: nat)
    ensures DecimalValue(NatToDecimal(n)) == n
    decreases n
  {
    var ds := NatToDecimal(n);
    if n >= 10 {
      DecimalRoundTrip(n / 10);
      assert ds[..|ds| - 1] == NatToDecimal(n / 10);
    }
  }

  /** The concatenation of `parts`, in order. */
  function Concat(parts: seq<string>): string {
    if parts == [] then "" else Concat(parts[..|parts| - 1]) + parts[|parts| - 1]
  }

  /** The characters Python's `re` module matches with `\s` in a `str` pattern
      (the Unicode whitespace characters). */
  predicate IsSpace(c: char) {
    c == ' ' || ('\t' <= c <= '\r') || ('\U{1C}' <= c <= '\U{1F}') || c == '\U{85}' || c == '\U{A0}'
    || c == '\U{1680}' || ('\U{2000}' <= c <= '\U{200A}') || c == '\U{2028}' || c == '\U{2029}'
    || c == '\U{202F}' || c == '\U{205F}' || c == '\U{3000}'
  }

  /** Length of the longest prefix of `s` whose characters all satisfy `keep`
      (a greedy `[...]*` of a regular expression). */
  function Run(s: string, keep: char -> bool): (n: nat)
    ensures n <= |s|
    ensures forall i :: 0 <= i < n ==> keep(s[i])
    ensures n < |s| ==> !keep(s[n])
    decreases |s|
  {
    if s != [] && keep(s[0]) then 1 + Run(s[1..], keep) else 0
  }

  /** A run of `keep` characters followed by a character that is not one (or by the end) is
      exactly what `Run` measures. */
  lemma {:induction false} RunOfPrefix(a: string, b: string, keep: char -> bool)
    requires forall i :: 0 <= i < |a| ==> keep(a[i])
    requires b == [] || !keep(b[0])
    ensures Run(a + b, keep) == |a|
    decreases |a|
  {
    if a != [] {
      assert (a + b)[1..] == a[1..] + b;
      RunOfPrefix(a[1..], b, keep);
    } else {
      assert a + b == b;
    }
  }

  /** `Run` measures exactly the first `n` characters when they all satisfy `keep` and the one
      after them (if any) does not. */
  lemma {:induction false} RunExact(s: string, n: nat, keep: char -> bool)
    requires n <= |s| && forall i :: 0 <= i < n ==> keep(s[i])
    requires n == |s| || !keep(s[n])
    ensures Run(s, keep) == n
    decreases n
  {
    if n > 0 {
      RunExact(s[1..], n - 1, keep);
    }
  }

  /** The position `re.search` reports: the leftmost suffix of `s` (including the empty
      suffix at the end) on which the anchored matcher `matchAt` succeeds. That no earlier
      suffix matches is stated by `FirstMatchSpec`. */
  function FirstMatch<T>(s: string, matchAt: string -> Option<T>): (r: Option<nat>)
    ensures r.Some? ==> r.value <= |s| && matchAt(s[r.value..]).Some?
    decreases |s|
  {
    if matchAt(s).Some? then Some(0)
    else if s == [] then None
    else
      var rest := FirstMatch(s[1..], matchAt);
      if rest.Some? then
        assert s[1..][rest.value..] == s[rest.value + 1..];
        Some(rest.value + 1)
      else None
  }

  /** `FirstMatch` finds the leftmost match: no suffix before it matches, and None means that
      no suffix matches at all. */
  lemma {:induction false} FirstMatchSpec<T>(s: string, matchAt: string -> Option<T>)
    ensures var r := FirstMatch(s, matchAt);
            (r.Some? ==> forall j {:trigger matchAt(s[j..])} :: 0 <= j < r.value ==> matchAt(s[j..]).None?)
            && (r.None? ==> forall j {:trigger matchAt(s[j..])} :: 0 <= j <= |s| ==> matchAt(s[j..]).None?)
    decreases |s|
  {
    if matchAt(s).None? && s != [] {
      FirstMatchSpec(s[1..], matchAt);
      assert s[0..] == s;
      forall j | 1 <= j <= |s| ensures s[1..][j - 1..] == s[j..] {
      }
    }
  }

  /** `re.search(pattern, s)` returning the captures of the leftmost match, or None. */
  function Search<T>(s: string, matchAt: string -> Option<T>): Option<T> {
    match FirstMatch(s, matchAt)
    case Some(i) => matchAt(s[i..])
    case None => None
  }

  /** Python's `re.sub`: the scan from the left. Where `matchAt` reports a match at the current
      position (its length and its replacement text) the replacement is emitted and the scan
      resumes after the match; elsewhere one character is copied. A reported match that is empty
      or longer than the text is treated as no match. */
  function Substitute(s: string, matchAt: string -> Option<(nat, string)>): string
    decreases |s|
  {
    if matchAt(s).Some? && 0 < matchAt(s).value.0 <= |s| then
      matchAt(s).value.1 + Substitute(s[matchAt(s).value.0..], matchAt)
    else if s == [] then []
    else [s[0]] + Substitute(s[1..], matchAt)
  }

  /** Where the pattern matches nowhere, `re.sub` returns the text unchanged. */
  lemma {:induction false} SubstituteNoMatch(s: string, matchAt: string -> Option<(nat, string)>)
    requires forall i {:trigger matchAt(s[i..])} :: 0 <= i <= |s| ==> matchAt(s[i..]).None?
    ensures Substitute(s, matchAt) == s
    decreases |s|
  {
    if s != [] {
      assert s[0..] == s;
      forall i | 0 <= i <= |s[1..]| ensures matchAt(s[1..][i..]).None? {
        assert s[1..][i..] == s[i + 1..];
      }
      SubstituteNoMatch(s[1..], matchAt);
    }
  }

  /** Text before the first match is copied unchanged. */
  lemma {:induction false} SubstituteKeepsPrefix(before: string, rest: string, matchAt: string -> Option<(nat, string)>)
    requires forall i {:trigger matchAt((before + rest)[i..])} :: 0 <= i < |before| ==> matchAt((before + rest)[i..]).None?
    ensures Substitute(before + rest, matchAt) == before + Substitute(rest, matchAt)
    decreases |before|
  {
    if before != [] {
      var s := before + rest;
      assert s[0..] == s;
      assert s[1..] == before[1..] + rest;
      forall i | 0 <= i < |before[1..]| ensures matchAt((before[1..] + rest)[i..]).None? {
        assert (before[1..] + rest)[i..] == s[i + 1..];
      }
      SubstituteKeepsPrefix(before[1..], rest, matchAt);
    } else {
      assert before + rest == rest;
    }
  }

  /** The first match, at the start of `rest`: the text before it is kept, the match is
      replaced, and the scan resumes after the match. */
  lemma SubstituteAt(before: string, rest: string, matchAt: string -> Option<(nat, string)>)
    requires forall i {:trigger matchAt((before + rest)[i..])} :: 0 <= i < |before| ==> matchAt((before + rest)[i..]).None?
    requires matchAt(rest).Some? && 0 < matchAt(rest).value.0 <= |rest|
    ensures Substitute(before + rest, matchAt)
            == before + (matchAt(rest).value.1 + Substitute(rest[matchAt(rest).value.0..], matchAt))
  {
    SubstituteKeepsPrefix(before, rest, matchAt);
  }

  lemma SliceSplit(s: string, a: nat, b: nat)
    requires a <= b <= |s|
    ensures s[a..] == s[a..b] + s[b..]
  {
  }
}
