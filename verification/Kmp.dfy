/** Knuth-Morris-Pratt scanning: the failure table holds longest borders, and the scan
    reports the occurrences of the pattern in order, overlapping ones included. */
module Kmp {
  import opened Common

  // ---- specification --------------------------------------------------------

  /** The pattern starts at `s` in the data. */
  predicate Occurs(p: Bytes, d: Bytes, s: nat) {
    s + |p| <= |d| && d[s..s + |p|] == p
  }

  /** All starts of occurrences that end at or before `n`, increasing. */
  function Occurrences(p: Bytes, d: Bytes, n: nat): (r: seq<nat>)
    requires |p| > 0 && n <= |d|
  {
    if n < |p| then []
    else
      var r := Occurrences(p, d, n - 1);
      if Occurs(p, d, n - |p|) then r + [n - |p|] else r
  }

  /** The list is strictly increasing and holds exactly the starts of occurrences. */
  lemma {:induction false} OccurrencesAreAll(p: Bytes, d: Bytes, n: nat)
    requires |p| > 0 && n <= |d|
    ensures var r := Occurrences(p, d, n);
            && (forall i, j :: 0 <= i < j < |r| ==> r[i] < r[j])
            && (forall s: nat :: s in r <==> Occurs(p, d, s) && s + |p| <= n)
  {
    if n >= |p| {
      OccurrencesAreAll(p, d, n - 1);
      OneMoreStart(p, d, n, Occurrences(p, d, n - 1));
    }
  }

  lemma OneMoreStart(p: Bytes, d: Bytes, n: nat, r: seq<nat>)
    requires 0 < |p| <= n <= |d|
    requires forall i, j :: 0 <= i < j < |r| ==> r[i] < r[j]
    requires forall s: nat :: s in r <==> Occurs(p, d, s) && s + |p| <= n - 1
    ensures var r' := if Occurs(p, d, n - |p|) then r + [n - |p|] else r;
            && (forall i, j :: 0 <= i < j < |r'| ==> r'[i] < r'[j])
            && (forall s: nat :: s in r' <==> Occurs(p, d, s) && s + |p| <= n)
  {
    forall i | 0 <= i < |r|
      ensures r[i] < n - |p|
    {
      assert r[i] in r;
    }
    AppendIncreasing(r, n - |p|);
  }

  lemma AppendIncreasing(r: seq<nat>, x: nat)
    requires forall i, j :: 0 <= i < j < |r| ==> r[i] < r[j]
    requires forall i :: 0 <= i < |r| ==> r[i] < x
    ensures forall i, j :: 0 <= i < j < |r + [x]| ==> (r + [x])[i] < (r + [x])[j]
    ensures forall s :: s in r + [x] <==> s in r || s == x
  {
  }

  function Limit(maxMatches: nat): nat {
    if maxMatches == 0 then 1 else maxMatches
  }

  function FirstOf(r: seq<nat>, n: nat): seq<nat> {
    if |r| <= n then r else r[..n]
  }

  /** What is reported: at most `maxMatches` occurrences, or one if that is 0; the first ones, in
      order; and all of them if there are fewer. */
  ghost predicate FirstMatches(p: Bytes, d: Bytes, maxMatches: nat, r: seq<nat>) {
    && |r| <= (if maxMatches == 0 then 1 else maxMatches)
    && (forall i, j :: 0 <= i < j < |r| ==> r[i] < r[j])
    && (forall s: nat :: s in r ==> Occurs(p, d, s))
    && (forall s: nat :: Occurs(p, d, s) && s !in r ==>
          |r| >= maxMatches && |r| >= 1 && forall i :: 0 <= i < |r| ==> r[i] < s)
  }

  lemma ReportsFirst(p: Bytes, d: Bytes, maxMatches: nat)
    requires |p| > 0
    ensures FirstMatches(p, d, maxMatches, FirstOf(Occurrences(p, d, |d|), Limit(maxMatches)))
  {
    OccurrencesAreAll(p, d, |d|);
    var all := Occurrences(p, d, |d|);
    var n := Limit(maxMatches);
    var r := FirstOf(all, n);
    forall s: nat | s in r
      ensures Occurs(p, d, s)
    {
      assert s in all;
    }
    forall s: nat | Occurs(p, d, s) && s !in r
      ensures |r| >= maxMatches && |r| >= 1 && forall i :: 0 <= i < |r| ==> r[i] < s
    {
      LaterThanFirst(all, n, s);
    }
  }

  lemma LaterThanFirst(all: seq<nat>, n: nat, s: nat)
    requires n > 0 && s in all && s !in FirstOf(all, n)
    requires forall i, j :: 0 <= i < j < |all| ==> all[i] < all[j]
    ensures |FirstOf(all, n)| == n && forall i :: 0 <= i < n ==> FirstOf(all, n)[i] < s
  {
    var k :| 0 <= k < |all| && all[k] == s;
    NotInPrefix(all, n, k);
  }

  lemma NotInPrefix(all: seq<nat>, m: nat, k: nat)
    requires m <= |all| && k < |all| && all[k] !in all[..m]
    ensures m <= k
  {
    assert forall j :: 0 <= j < m ==> all[j] in all[..m];
  }

  // ---- matching -------------------------------------------------------------

  /** The first `q` bytes of the pattern are the last `q` bytes of `d[..i]`. */
  predicate Matches(p: Bytes, d: Bytes, i: nat, q: nat) {
    q <= i <= |d| && q <= |p| && p[..q] == d[i - q..i]
  }

  /** `k` is the length of a proper border of `p[..n]`. */
  predicate Border(p: Bytes, n: nat, k: nat) {
    k < n && Matches(p, p, n, k)
  }

  ghost predicate LongestBorder(p: Bytes, n: nat, k: nat) {
    Border(p, n, k) && forall j: nat :: Border(p, n, j) ==> j <= k
  }

  ghost predicate Table(p: Bytes, fail: seq<nat>, n: nat) {
    n <= |fail| == |p| && forall i :: 0 <= i < n ==> TableEntry(p, fail, i)
  }

  ghost predicate TableEntry(p: Bytes, fail: seq<nat>, i: nat)
    requires i < |fail|
  {
    LongestBorder(p, i + 1, fail[i])
  }

  /** A shorter match is a border of a longer one, and a border of a match matches. */
  lemma ShorterIsBorder(p: Bytes, d: Bytes, i: nat, q: nat, m: nat)
    requires Matches(p, d, i, q) && m < q
    ensures Matches(p, d, i, m) <==> Border(p, q, m)
  {
    assert d[i - m..i] == d[i - q..i][q - m..];
    assert p[q - m..q] == p[..q][q - m..];
  }

  lemma MatchExtends(p: Bytes, d: Bytes, i: nat, m: nat)
    requires i < |d|
    ensures m > 0 ==> (Matches(p, d, i + 1, m) <==> m <= |p| && Matches(p, d, i, m - 1) && p[m - 1] == d[i])
    ensures Matches(p, d, i + 1, 0)
  {
    if m > 0 && m <= |p| && m <= i + 1 {
      assert p[..m] == p[..m - 1] + [p[m - 1]];
      assert d[i + 1 - m..i + 1] == d[i + 1 - m..i] + [d[i]];
    }
  }

  /** Which lengths a scan may still extend at position `i`. In the table a border must be
      proper; in the scan a match must be shorter than the pattern. */
  predicate Below(p: Bytes, bound: nat, m: nat) {
    m < bound && m < |p|
  }

  /** Every match longer than `q` below the bound fails to extend with `c`. */
  ghost predicate LongerFail(p: Bytes, d: Bytes, i: nat, bound: nat, c: byte, q: nat) {
    forall m: nat :: q < m && Below(p, bound, m) && Matches(p, d, i, m) ==> p[m] != c
  }

  /** Falling back to the longest border skips no match. */
  lemma FallBack(p: Bytes, d: Bytes, i: nat, bound: nat, c: byte, q: nat, k: nat)
    requires Matches(p, d, i, q) && Below(p, bound, q) && 0 < q && p[q] != c
    requires LongerFail(p, d, i, bound, c, q) && LongestBorder(p, q, k)
    ensures Matches(p, d, i, k) && Below(p, bound, k) && LongerFail(p, d, i, bound, c, k)
  {
    ShorterIsBorder(p, d, i, q, k);
    forall m: nat | k < m && Below(p, bound, m) && Matches(p, d, i, m)
      ensures p[m] != c
    {
      if m < q { ShorterIsBorder(p, d, i, q, m); }
    }
  }

  /** After the fallback loop, taking the byte gives the longest match at the next position. */
  lemma TakeByte(p: Bytes, d: Bytes, i: nat, bound: nat, q: nat)
    requires i < |d| && Matches(p, d, i, q) && Below(p, bound, q)
    requires LongerFail(p, d, i, bound, d[i], q) && (q == 0 || p[q] == d[i])
    ensures var q' := if p[q] == d[i] then q + 1 else q;
            LongestUpTo(p, d, i + 1, bound, q')
  {
    var q' := if p[q] == d[i] then q + 1 else q;
    var n := i + 1;
    MatchExtends(p, d, i, q');
    forall m: nat | m <= bound && Matches(p, d, n, m)
      ensures m <= q'
    {
      MatchExtends(p, d, i, m);
      assert m > 0 ==> Below(p, bound, m - 1);
    }
  }

  /** `q` is the longest match at `i` among those up to `bound`. */
  ghost predicate LongestUpTo(p: Bytes, d: Bytes, i: nat, bound: nat, q: nat) {
    q <= bound && Matches(p, d, i, q) && forall m: nat :: m <= bound && Matches(p, d, i, m) ==> m <= q
  }

  lemma BorderIsLongest(p: Bytes, i: nat, c: byte, k: nat)
    requires LongestBorder(p, i, k)
    ensures LongerFail(p, p, i, i, c, k)
  {
    forall m: nat | Below(p, i, m) && Matches(p, p, i, m)
      ensures m <= k
    {
      assert Border(p, i, m);
    }
  }

  lemma LongestIsBorder(p: Bytes, n: nat, k: nat)
    requires n > 0 && LongestUpTo(p, p, n, n - 1, k)
    ensures LongestBorder(p, n, k)
  {
  }

  // ---- the loops ------------------------------------------------------------

  /** The step both loops share: fall back along the table until the next byte fits,
      then take it. */
  method Advance(p: Bytes, d: Bytes, i: nat, ghost bound: nat, start: nat, fail: array<nat>) returns (q: nat)
    requires i < |d| && bound <= |p| && Table(p, fail[..], bound)
    requires Matches(p, d, i, start) && Below(p, bound, start) && LongerFail(p, d, i, bound, d[i], start)
    ensures LongestUpTo(p, d, i + 1, bound, q)
  {
    q := start;
    while q > 0 && p[q] != d[i]
      invariant Matches(p, d, i, q) && Below(p, bound, q)
      invariant LongerFail(p, d, i, bound, d[i], q)
    {
      assert TableEntry(p, fail[..], q - 1);
      FallBack(p, d, i, bound, d[i], q, fail[q - 1]);
      q := fail[q - 1];
    }
    TakeByte(p, d, i, bound, q);
    if p[q] == d[i] {
      q := q + 1;
    }
  }

  method BuildTable(p: Bytes) returns (fail: array<nat>)
    requires |p| > 0
    ensures fresh(fail) && Table(p, fail[..], |p|)
  {
    var plen := |p|;
    fail := new nat[plen](_ => 0);
    var k: nat := 0;
    var i := 1;
    FirstEntry(p, fail[..]);
    while i < plen
      invariant 1 <= i <= plen
      invariant Table(p, fail[..], i)
      invariant LongestBorder(p, i, k)
    {
      BorderIsLongest(p, i, p[i], k);
      k := Advance(p, p, i, i, k, fail);
      LongestIsBorder(p, i + 1, k);
      ghost var before := fail[..];
      fail[i] := k;
      GrowTable(p, before, fail[..], i);
      i := i + 1;
    }
  }

  lemma FirstEntry(p: Bytes, fail: seq<nat>)
    requires |fail| == |p| > 0 && fail[0] == 0
    ensures LongestBorder(p, 1, 0) && Table(p, fail, 1)
  {
    assert Border(p, 1, 0);
    assert TableEntry(p, fail, 0);
  }

  lemma GrowTable(p: Bytes, fail: seq<nat>, fail': seq<nat>, i: nat)
    requires Table(p, fail, i) && i < |fail| == |fail'| && fail' == fail[i := fail'[i]]
    requires LongestBorder(p, i + 1, fail'[i])
    ensures Table(p, fail', i + 1)
  {
    forall j | 0 <= j < i + 1
      ensures TableEntry(p, fail', j)
    {
      assert j < i ==> TableEntry(p, fail, j);
    }
  }

  /** `q` is the longest match at `i` shorter than the pattern. */
  ghost predicate LongestPartial(p: Bytes, d: Bytes, i: nat, q: nat) {
    Matches(p, d, i, q) && q < |p| && forall m: nat :: m < |p| && Matches(p, d, i, m) ==> m <= q
  }

  method MemScanPattern(data: Bytes, pattern: Bytes, maxMatches: nat) returns (results: seq<nat>)
    ensures pattern == [] ==> results == []
    ensures pattern != [] ==> results == FirstOf(Occurrences(pattern, data, |data|), Limit(maxMatches))
    ensures pattern != [] ==> FirstMatches(pattern, data, maxMatches, results)
  {
    if pattern != [] {
      ReportsFirst(pattern, data, maxMatches);
    }
    results := [];
    if pattern == [] || |data| < |pattern| {
      if pattern != [] {
        Finished(pattern, data, |data|, results, Limit(maxMatches));
      }
      return;
    }
    var fail := BuildTable(pattern);
    results := Scan(data, pattern, fail, maxMatches);
  }

  method Scan(data: Bytes, pattern: Bytes, fail: array<nat>, maxMatches: nat) returns (results: seq<nat>)
    requires |pattern| > 0 && Table(pattern, fail[..], |pattern|)
    ensures results == FirstOf(Occurrences(pattern, data, |data|), Limit(maxMatches))
  {
    var q: nat := 0;
    var i := 0;
    results := [];
    NothingMatched(pattern, data);
    while i < |data|
      invariant 0 <= i <= |data|
      invariant LongestPartial(pattern, data, i, q)
      invariant results == Occurrences(pattern, data, i) && |results| < Limit(maxMatches)
    {
      var hit;
      q, hit := ScanByte(data, pattern, fail, i, q);
      if hit {
        results := results + [i + 1 - |pattern|];
        if |results| >= maxMatches {
          Finished(pattern, data, i + 1, results, Limit(maxMatches));
          return;
        }
      }
      i := i + 1;
    }
    Finished(pattern, data, |data|, results, Limit(maxMatches));
  }

  /** One byte: the next partial match, and whether an occurrence ended here. */
  method ScanByte(data: Bytes, pattern: Bytes, fail: array<nat>, i: nat, start: nat) returns (q: nat, hit: bool)
    requires |pattern| > 0 && Table(pattern, fail[..], |pattern|) && i < |data|
    requires LongestPartial(pattern, data, i, start)
    ensures LongestPartial(pattern, data, i + 1, q)
    ensures hit ==>
              && i + 1 >= |pattern|
              && Occurrences(pattern, data, i + 1) == Occurrences(pattern, data, i) + [i + 1 - |pattern|]
    ensures !hit ==> Occurrences(pattern, data, i + 1) == Occurrences(pattern, data, i)
  {
    PartialIsLongest(pattern, data, i, data[i], start);
    q := Advance(pattern, data, i, |pattern|, start, fail);
    NextOccurrence(pattern, data, i, q);
    hit := q == |pattern|;
    if hit {
      assert TableEntry(pattern, fail[..], q - 1);
      AfterFullMatch(pattern, data, i + 1, fail[q - 1]);
      q := fail[q - 1];
    }
  }

  lemma NothingMatched(p: Bytes, d: Bytes)
    requires |p| > 0
    ensures LongestPartial(p, d, 0, 0) && Occurrences(p, d, 0) == []
  {
  }

  lemma PartialIsLongest(p: Bytes, d: Bytes, i: nat, c: byte, q: nat)
    requires LongestPartial(p, d, i, q)
    ensures LongerFail(p, d, i, |p|, c, q)
  {
  }

  /** The longest match at the next position is the whole pattern exactly when an
      occurrence ends there; otherwise it is the longest partial match. */
  lemma NextOccurrence(p: Bytes, d: Bytes, i: nat, q: nat)
    requires |p| > 0 && i < |d| && LongestUpTo(p, d, i + 1, |p|, q)
    ensures q == |p| ==> Occurrences(p, d, i + 1) == Occurrences(p, d, i) + [i + 1 - |p|]
    ensures q < |p| ==> Occurrences(p, d, i + 1) == Occurrences(p, d, i) && LongestPartial(p, d, i + 1, q)
  {
    EndsHere(p, d, i + 1);
  }

  lemma EndsHere(p: Bytes, d: Bytes, n: nat)
    requires n <= |d|
    ensures Matches(p, d, n, |p|) <==> n >= |p| && Occurs(p, d, n - |p|)
  {
    assert p[..|p|] == p;
  }

  lemma AfterFullMatch(p: Bytes, d: Bytes, i: nat, k: nat)
    requires |p| > 0 && Matches(p, d, i, |p|) && LongestBorder(p, |p|, k)
    ensures LongestPartial(p, d, i, k)
  {
    ShorterIsBorder(p, d, i, |p|, k);
    forall m: nat | m < |p| && Matches(p, d, i, m)
      ensures m <= k
    {
      ShorterIsBorder(p, d, i, |p|, m);
    }
  }

  lemma Finished(p: Bytes, d: Bytes, n: nat, r: seq<nat>, limit: nat)
    requires |p| > 0 && n <= |d| && r == Occurrences(p, d, n)
    requires |r| == limit || (n == |d| && |r| < limit)
    ensures r == FirstOf(Occurrences(p, d, |d|), limit)
  {
    PrefixOfAll(p, d, n, |d|);
  }

  lemma PrefixOfAll(p: Bytes, d: Bytes, i: nat, n: nat)
    requires |p| > 0 && i <= n <= |d|
    ensures Occurrences(p, d, i) <= Occurrences(p, d, n)
  {
  }
}
