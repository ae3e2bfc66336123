/** Hand-written matchers for the regular expressions the toolkit probes use:
    `release (\d+\.\d+)`, `V(\d+\.\d+\.\d+)` and `CUDA Version (\d+\.\d+)`.
    Each is a literal prefix followed by a numeral of n dot-separated digit
    groups, with the numeral captured. The regex crate reports the leftmost
    match; at that position the greedy `\d+` loops can only succeed on maximal
    digit runs (a digit can never stand where the next `\.` is needed), so the
    capture is the longest numeral that starts there. */
module Patterns {
  import opened Wrappers
  import opened Text

  /** `\d`, restricted to ASCII digits. */
  predicate IsDigit(c: char)
  {
    '0' <= c <= '9'
  }

  predicate AllDigits(t: string)
  {
    forall k :: 0 <= k < |t| ==> IsDigit(t[k])
  }

  predicate DigitsBetween(s: string, p: nat, q: nat)
    requires p <= q <= |s|
  {
    forall k :: p <= k < q ==> IsDigit(s[k])
  }

  /** Reference definition: `t` is exactly `n` non-empty digit groups joined by '.'. */
  predicate IsNumeral(t: string, n: nat)
  {
    var groups := Split(t, '.');
    |groups| == n && forall k :: 0 <= k < |groups| ==> |groups[k]| > 0 && AllDigits(groups[k])
  }

  /** End of the maximal digit run that starts at `p`. */
  function DigitRunEnd(s: string, p: nat): (q: nat)
    requires p <= |s|
    ensures p <= q <= |s|
    ensures DigitsBetween(s, p, q)
    ensures q < |s| ==> !IsDigit(s[q])
    decreases |s| - p
  {
    if p == |s| || !IsDigit(s[p]) then p else DigitRunEnd(s, p + 1)
  }

  /** The greedy matcher for `\d+(\.\d+){n-1}` at position `p`: the end of the
      numeral it consumes, or None when the regex cannot match there. What it
      consumes is a numeral (`NumeralEndSound`), and it consumes the longest
      one (`NumeralEndComplete`). */
  function NumeralEnd(s: string, p: nat, n: nat): (e: Option<nat>)
    requires p <= |s| && n >= 1
    ensures e.Some? ==> p < e.value <= |s|
    ensures e.Some? ==> e.value == |s| || !IsDigit(s[e.value])
    decreases n
  {
    var q := DigitRunEnd(s, p);
    if q == p then None
    else if n == 1 then Some(q)
    else if q < |s| && s[q] == '.' then NumeralEnd(s, q + 1, n - 1)
    else None
  }

  /** Soundness of the greedy matcher: it consumes a numeral of `n` groups. */
  lemma {:induction false} NumeralEndSound(s: string, p: nat, n: nat)
    requires p <= |s| && n >= 1 && NumeralEnd(s, p, n).Some?
    ensures NumeralSpans(s, p, n, NumeralEnd(s, p, n).value)
    decreases n
  {
    var q := DigitRunEnd(s, p);
    var e := NumeralEnd(s, p, n).value;
    if n == 1 {
      NumeralOfRun(s, p, q);
    } else {
      NumeralEndSound(s, q + 1, n - 1);
      NumeralCons(s, p, q, e, n - 1);
    }
  }

  lemma NumeralOfRun(s: string, p: nat, q: nat)
    requires p < q <= |s| && DigitsBetween(s, p, q)
    ensures IsNumeral(s[p..q], 1)
  {
    var t := s[p..q];
    assert forall k :: 0 <= k < |t| ==> t[k] == s[p + k];
    assert '.' !in t;
    SplitNoSep(t, '.');
  }

  lemma NumeralCons(s: string, p: nat, q: nat, e: nat, n: nat)
    requires p < q < e <= |s| && DigitsBetween(s, p, q) && s[q] == '.'
    requires IsNumeral(s[q + 1..e], n)
    ensures IsNumeral(s[p..e], n + 1)
  {
    var g := s[p..q];
    assert forall k :: 0 <= k < |g| ==> g[k] == s[p + k];
    assert '.' !in g;
    assert s[p..e] == g + ['.'] + s[q + 1..e];
    SplitConcat(g, '.', s[q + 1..e]);
  }

  /** A numeral of two or more groups is its first group, a dot and a numeral of
      one group fewer. */
  lemma NumeralHead(t: string, n: nat)
    requires n >= 2 && IsNumeral(t, n)
    ensures var m := |Split(t, '.')[0]|;
      && 0 < m < |t| && AllDigits(t[..m]) && t[m] == '.' && IsNumeral(t[m + 1..], n - 1)
  {
    var groups := Split(t, '.');
    var g := groups[0];
    var rest := Join(groups[1..], '.');
    assert t == g + ['.'] + rest;
    assert t[..|g|] == g;
    assert t[|g| + 1..] == rest;
    SplitJoin(groups[1..], '.');
    assert forall k :: 0 <= k < |groups[1..]| ==> groups[1..][k] == groups[k + 1];
  }

  /** Completeness and maximality of the greedy matcher: whenever some numeral of
      `n` groups starts at `p`, the matcher succeeds, and it consumes at least
      as much as that numeral. */
  lemma {:induction false} NumeralEndComplete(s: string, p: nat, n: nat, e: nat)
    requires n >= 1 && NumeralSpans(s, p, n, e)
    ensures NumeralEnd(s, p, n).Some? && e <= NumeralEnd(s, p, n).value
    decreases n
  {
    if n == 1 {
      RunCoversGroup(s, p, e);
      NumeralEndOne(s, p);
    } else {
      NumeralSplitAt(s, p, n, e);
      NumeralEndComplete(s, DigitRunEnd(s, p) + 1, n - 1, e);
      NumeralEndStep(s, p, n, e);
    }
  }

  /** A numeral of two or more groups ends its first group at the maximal digit
      run, continues with a dot and then spans a numeral of one group fewer. */
  lemma NumeralSplitAt(s: string, p: nat, n: nat, e: nat)
    requires n >= 2 && NumeralSpans(s, p, n, e)
    ensures var q := DigitRunEnd(s, p);
      p < q < e && s[q] == '.' && NumeralSpans(s, q + 1, n - 1, e)
  {
    var t := s[p..e];
    NumeralHead(t, n);
    var m := |Split(t, '.')[0]|;
    RunStopsAtDot(s, p, e, m);
    assert s[p + m] == t[m];
    assert s[p + m + 1..e] == t[m + 1..];
  }

  /** With one group, the matcher consumes the maximal digit run. */
  lemma NumeralEndOne(s: string, p: nat)
    requires p <= |s| && p < DigitRunEnd(s, p)
    ensures NumeralEnd(s, p, 1) == Some(DigitRunEnd(s, p))
  {
  }

  /** After the first group and its dot, the matcher continues with one group
      fewer, so it reaches at least as far as the rest of the numeral does. */
  lemma NumeralEndStep(s: string, p: nat, n: nat, e: nat)
    requires p <= |s| && n >= 2
    requires p < DigitRunEnd(s, p) < |s| && s[DigitRunEnd(s, p)] == '.'
    requires var r := NumeralEnd(s, DigitRunEnd(s, p) + 1, n - 1); r.Some? && e <= r.value
    ensures NumeralEnd(s, p, n).Some? && e <= NumeralEnd(s, p, n).value
  {
  }

  /** A one-group numeral is covered by the maximal digit run at its start. */
  lemma RunCoversGroup(s: string, p: nat, e: nat)
    requires NumeralSpans(s, p, 1, e)
    ensures DigitRunEnd(s, p) > p && DigitRunEnd(s, p) >= e
  {
    var t := s[p..e];
    assert Join(Split(t, '.'), '.') == t;
    assert forall k :: 0 <= k < |t| ==> t[k] == s[p + k];
    assert forall k :: p <= k < e ==> IsDigit(s[k]);
  }

  /** The first group of a longer numeral is exactly the maximal digit run. */
  lemma RunStopsAtDot(s: string, p: nat, e: nat, m: nat)
    requires p <= e <= |s| && 0 < m < e - p
    requires AllDigits(s[p..e][..m]) && s[p..e][m] == '.'
    ensures DigitRunEnd(s, p) == p + m
  {
    var t := s[p..e];
    assert forall k :: 0 <= k < m ==> t[..m][k] == s[p + k];
    assert s[p + m] == '.';
    var q := DigitRunEnd(s, p);
    assert forall k :: p <= k < p + m ==> IsDigit(s[k]);
  }

  // ---------------------------------------------------------------------------
  // Prefix followed by a numeral
  // ---------------------------------------------------------------------------

  /** Regex semantics: the pattern `prefix` + numeral of `n` groups matches at `i`. */
  ghost predicate MatchesAt(s: string, prefix: string, n: nat, i: nat)
  {
    i <= |s| && StartsWith(s[i..], prefix) && HasNumeralAt(s, i + |prefix|, n)
  }

  /** `s[c..e]` is a numeral of `n` groups. */
  predicate NumeralSpans(s: string, c: nat, n: nat, e: nat)
  {
    c <= e <= |s| && IsNumeral(s[c..e], n)
  }

  ghost predicate HasNumeralAt(s: string, c: nat, n: nat)
  {
    exists e: nat :: NumeralSpans(s, c, n, e)
  }

  /** The leftmost position where the pattern matches. */
  ghost predicate IsLeftmostMatch(s: string, prefix: string, n: nat, i: nat)
  {
    MatchesAt(s, prefix, n, i) && forall j :: 0 <= j < i ==> !MatchesAt(s, prefix, n, j)
  }

  /** `v` is the longest numeral of `n` groups starting at `c`. */
  ghost predicate IsLongestNumeralAt(s: string, c: nat, n: nat, v: string)
  {
    && c + |v| <= |s|
    && s[c..c + |v|] == v
    && IsNumeral(v, n)
    && forall e: nat :: NumeralSpans(s, c, n, e) ==> e <= c + |v|
  }

  /** The greedy matcher tried at one position. */
  function MatchEnd(s: string, prefix: string, n: nat, i: nat): (e: Option<nat>)
    requires i <= |s| && n >= 1
    ensures e.Some? <==> MatchesAt(s, prefix, n, i)
    ensures e.Some? ==>
              i + |prefix| < e.value <= |s| && IsLongestNumeralAt(s, i + |prefix|, n, s[i + |prefix|..e.value])
  {
    if StartsWith(s[i..], prefix) then
      var c := i + |prefix|;
      var r := NumeralEnd(s, c, n);
      assert forall e: nat :: NumeralSpans(s, c, n, e) ==> r.Some? && e <= r.value by {
        forall e: nat | NumeralSpans(s, c, n, e) ensures r.Some? && e <= r.value {
          NumeralEndComplete(s, c, n, e);
        }
      }
      if r.Some? then
        NumeralEndSound(s, c, n);
        r
      else r
    else None
  }

  function FirstMatchFrom(s: string, prefix: string, n: nat, from: nat): (r: Option<nat>)
    requires n >= 1 && from <= |s| + 1
    requires forall j :: 0 <= j < from ==> !MatchesAt(s, prefix, n, j)
    ensures r.Some? ==> r.value <= |s| && IsLeftmostMatch(s, prefix, n, r.value)
    ensures r.None? ==> forall j :: 0 <= j <= |s| ==> !MatchesAt(s, prefix, n, j)
    decreases |s| + 1 - from
  {
    if from > |s| then None
    else if MatchEnd(s, prefix, n, from).Some? then Some(from)
    else FirstMatchFrom(s, prefix, n, from + 1)
  }

  /** `Regex::captures(...)[1]` for `prefix` followed by a captured numeral of `n`
      groups: no capture exactly when the pattern matches nowhere; otherwise the
      longest numeral at the leftmost matching position. */
  function Capture(s: string, prefix: string, n: nat): (r: Option<string>)
    requires n >= 1
    ensures r.None? <==> forall i :: 0 <= i <= |s| ==> !MatchesAt(s, prefix, n, i)
    ensures r.Some? ==> IsNumeral(r.value, n)
    ensures r.Some? ==>
              exists i: nat :: IsLeftmostMatch(s, prefix, n, i) && IsLongestNumeralAt(s, i + |prefix|, n, r.value)
  {
    match FirstMatchFrom(s, prefix, n, 0)
    case None => None
    case Some(i) =>
      var e := MatchEnd(s, prefix, n, i).value;
      Some(s[i + |prefix|..e])
  }
}
