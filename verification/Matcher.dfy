/**
 One-to-one matching of MLAT positions with reference positions.
 Models `match_records` of tools/mlat/benchmark_mlat_against_reference.py, with exact real
 time stamps. A match is given by the positions of its two rows and their time difference.
 */
module Matcher {
  import Sorting

  datatype Row = Row(aircraft: string, time: real)

  datatype Pair = Pair(delta: real, mlat: nat, reference: nat)

  /** One reference row of an aircraft: its time stamp and its position. */
  type Entry = (real, nat)

  function Abs(x: real): real {
    if x < 0.0 then -x else x
  }

  // ----- specification ----------------------------------------------------------------------

  /** The rows are of the same aircraft and at most `tolerance` apart. */
  predicate IsCandidate(mlat: seq<Row>, refs: seq<Row>, tolerance: real, p: Pair) {
    && p.mlat < |mlat| && p.reference < |refs|
    && mlat[p.mlat].aircraft == refs[p.reference].aircraft
    && p.delta == Abs(refs[p.reference].time - mlat[p.mlat].time)
    && p.delta <= tolerance
  }

  /** The order in which candidates are considered. */
  predicate Before(a: Pair, b: Pair) {
    || a.delta < b.delta
    || (a.delta == b.delta && (a.mlat < b.mlat || (a.mlat == b.mlat && a.reference < b.reference)))
  }

  predicate Leq(a: Pair, b: Pair) {
    !Before(b, a)
  }

  predicate SharesEnd(a: Pair, b: Pair) {
    a.mlat == b.mlat || a.reference == b.reference
  }

  ghost predicate OneToOne(pairs: seq<Pair>) {
    forall i, j :: 0 <= i < j < |pairs| ==> !SharesEnd(pairs[i], pairs[j])
  }

  ghost predicate Ascending(pairs: seq<Pair>) {
    forall i, j :: 0 <= i < j < |pairs| ==> Before(pairs[i], pairs[j])
  }

  /** `p` is chosen, or shares an end with a chosen pair that comes before it. */
  ghost predicate Settled(matches: seq<Pair>, p: Pair) {
    p in matches || exists m :: m in matches && SharesEnd(m, p) && Before(m, p)
  }

  /** The matching of nearest pairs first. */
  ghost predicate IsNearestFirst(mlat: seq<Row>, refs: seq<Row>, tolerance: real, matches: seq<Pair>) {
    && (forall m :: m in matches ==> IsCandidate(mlat, refs, tolerance, m))
    && OneToOne(matches)
    && Ascending(matches)
    && (forall p :: IsCandidate(mlat, refs, tolerance, p) ==> Settled(matches, p))
  }

  // ----- reference rows by aircraft ---------------------------------------------------------

  predicate TimeLeq(a: Entry, b: Entry) {
    a.0 <= b.0
  }

  /** The entries of one aircraft among the first `n` reference rows. */
  function EntriesOf(refs: seq<Row>, n: nat, aircraft: string): seq<Entry>
    requires n <= |refs|
  {
    if n == 0 then []
    else EntriesOf(refs, n - 1, aircraft)
         + if refs[n - 1].aircraft == aircraft then [(refs[n - 1].time, n - 1)] else []
  }

  lemma {:induction false} EntriesAre(refs: seq<Row>, n: nat, aircraft: string)
    requires n <= |refs|
    ensures forall e :: e in EntriesOf(refs, n, aircraft) <==>
              e.1 < n && refs[e.1].aircraft == aircraft && refs[e.1].time == e.0
    ensures Sorting.NoDuplicates(EntriesOf(refs, n, aircraft))
  {
    if n > 0 {
      EntriesAre(refs, n - 1, aircraft);
    }
  }

  ghost predicate Grouped(refs: seq<Row>, n: nat, groups: map<string, seq<Entry>>)
    requires n <= |refs|
  {
    forall a :: EntriesOf(refs, n, a) == if a in groups then groups[a] else []
  }

  lemma GroupNone(refs: seq<Row>)
    ensures Grouped(refs, 0, map[])
  {
  }

  lemma GroupStep(refs: seq<Row>, n: nat, groups: map<string, seq<Entry>>)
    requires n < |refs| && Grouped(refs, n, groups)
    ensures var a := refs[n].aircraft;
            Grouped(refs, n + 1, groups[a := (if a in groups then groups[a] else []) + [(refs[n].time, n)]])
  {
    var a := refs[n].aircraft;
    forall b ensures EntriesOf(refs, n + 1, b)
                     == EntriesOf(refs, n, b) + if a == b then [(refs[n].time, n)] else []
    {
    }
    forall b | b != a ensures EntriesOf(refs, n + 1, b) == EntriesOf(refs, n, b) {
      assert EntriesOf(refs, n, b) + [] == EntriesOf(refs, n, b);
    }
  }

  method GroupByAircraft(refs: seq<Row>) returns (groups: map<string, seq<Entry>>)
    ensures Grouped(refs, |refs|, groups)
  {
    hide Grouped;
    groups := map[];
    GroupNone(refs);
    for i := 0 to |refs|
      invariant Grouped(refs, i, groups)
    {
      var a := refs[i].aircraft;
      var earlier := if a in groups then groups[a] else [];
      GroupStep(refs, i, groups);
      groups := groups[a := earlier + [(refs[i].time, i)]];
    }
  }

  // ----- the bisected window ----------------------------------------------------------------

  /** `bisect_left` on the time stamps: how many entries are earlier than `x`. */
  function BisectLeft(entries: seq<Entry>, x: real): (n: nat)
    ensures n <= |entries|
  {
    if entries == [] || entries[0].0 >= x then 0 else 1 + BisectLeft(entries[1..], x)
  }

  /** `bisect_right`: how many entries are not later than `x`. */
  function BisectRight(entries: seq<Entry>, x: real): (n: nat)
    ensures n <= |entries|
  {
    if entries == [] || entries[0].0 > x then 0 else 1 + BisectRight(entries[1..], x)
  }

  lemma {:induction false} BisectSplits(entries: seq<Entry>, x: real)
    requires Sorting.Sorted(entries, TimeLeq)
    ensures forall k :: 0 <= k < |entries| ==> (k < BisectLeft(entries, x) <==> entries[k].0 < x)
    ensures forall k :: 0 <= k < |entries| ==> (k < BisectRight(entries, x) <==> entries[k].0 <= x)
  {
    if entries != [] {
      BisectSplits(entries[1..], x);
      forall k | 0 < k < |entries|
        ensures entries[k] == entries[1..][k - 1] && entries[0].0 <= entries[k].0
      {
        assert TimeLeq(entries[0], entries[k]);
      }
    }
  }

  /** `references[start:end]`; Python's slice is empty when the bounds cross. */
  function Window(entries: seq<Entry>, time: real, tolerance: real): seq<Entry> {
    var start := BisectLeft(entries, time - tolerance);
    var end := BisectRight(entries, time + tolerance);
    if start <= end then entries[start..end] else []
  }

  lemma WindowIndices(entries: seq<Entry>, time: real, tolerance: real, k: nat)
    requires Sorting.Sorted(entries, TimeLeq) && k < |entries|
    ensures BisectLeft(entries, time - tolerance) <= k < BisectRight(entries, time + tolerance)
            <==> Abs(entries[k].0 - time) <= tolerance
  {
    BisectSplits(entries, time - tolerance);
    BisectSplits(entries, time + tolerance);
  }

  lemma WindowIs(entries: seq<Entry>, time: real, tolerance: real)
    requires Sorting.Sorted(entries, TimeLeq) && Sorting.NoDuplicates(entries)
    ensures forall e :: e in Window(entries, time, tolerance) <==> e in entries && Abs(e.0 - time) <= tolerance
    ensures Sorting.NoDuplicates(Window(entries, time, tolerance))
  {
    hide BisectLeft, BisectRight, Abs, Sorting.Sorted;
    var start := BisectLeft(entries, time - tolerance);
    var end := BisectRight(entries, time + tolerance);
    var window := Window(entries, time, tolerance);
    forall e ensures e in window <==> e in entries && Abs(e.0 - time) <= tolerance {
      if e in entries && Abs(e.0 - time) <= tolerance {
        var k :| 0 <= k < |entries| && entries[k] == e;
        WindowIndices(entries, time, tolerance, k);
        assert window[k - start] == e;
      }
      if e in window {
        var k :| 0 <= k < |window| && window[k] == e;
        WindowIndices(entries, time, tolerance, start + k);
        assert entries[start + k] == e;
      }
    }
  }

  // ----- candidates -------------------------------------------------------------------------

  /** Exactly the candidates of the first `n` MLAT rows, each once. */
  ghost predicate Collected(mlat: seq<Row>, refs: seq<Row>, tolerance: real, n: nat, pairs: seq<Pair>) {
    && Sorting.NoDuplicates(pairs)
    && forall p :: p in pairs <==> IsCandidate(mlat, refs, tolerance, p) && p.mlat < n
  }

  function PairsOf(window: seq<Entry>, time: real, i: nat): (pairs: seq<Pair>)
    ensures |pairs| == |window|
  {
    seq(|window|, k requires 0 <= k < |window| => Pair(Abs(window[k].0 - time), i, window[k].1))
  }

  /** The inner loop: one candidate for each entry of the window. */
  method AppendWindow(pairs: seq<Pair>, window: seq<Entry>, time: real, i: nat) returns (more: seq<Pair>)
    ensures more == pairs + PairsOf(window, time, i)
  {
    more := pairs;
    for k := 0 to |window|
      invariant more == pairs + PairsOf(window, time, i)[..k]
    {
      more := more + [Pair(Abs(window[k].0 - time), i, window[k].1)];
    }
  }

  /** The sorted entries that `match_records` looks windows up in. */
  ghost predicate SortedGroup(refs: seq<Row>, aircraft: string, entries: seq<Entry>) {
    && Sorting.Sorted(entries, TimeLeq)
    && Sorting.NoDuplicates(entries)
    && forall e :: e in entries <==> e.1 < |refs| && refs[e.1].aircraft == aircraft && refs[e.1].time == e.0
  }

  lemma GroupIsSorted(refs: seq<Row>, aircraft: string)
    ensures SortedGroup(refs, aircraft, Sorting.Sort(EntriesOf(refs, |refs|, aircraft), TimeLeq))
  {
    var entries := EntriesOf(refs, |refs|, aircraft);
    EntriesAre(refs, |refs|, aircraft);
    Sorting.SortSorts(entries, TimeLeq);
    Sorting.SortDistinct(entries, TimeLeq);
    forall e ensures e in Sorting.Sort(entries, TimeLeq) <==> e in entries {
      Sorting.SortMember(entries, TimeLeq, e);
    }
  }

  /** The pairs made from a row's window are exactly the candidates of that row, each once. */
  lemma RowPairs(mlat: seq<Row>, refs: seq<Row>, tolerance: real, n: nat, entries: seq<Entry>)
    requires n < |mlat| && SortedGroup(refs, mlat[n].aircraft, entries)
    ensures var added := PairsOf(Window(entries, mlat[n].time, tolerance), mlat[n].time, n);
            && Sorting.NoDuplicates(added)
            && forall p :: p in added <==> IsCandidate(mlat, refs, tolerance, p) && p.mlat == n
  {
    hide Window, Sorting.Sorted;
    var time := mlat[n].time;
    var window := Window(entries, time, tolerance);
    var added := PairsOf(window, time, n);
    WindowIs(entries, time, tolerance);
    forall p ensures p in added <==> IsCandidate(mlat, refs, tolerance, p) && p.mlat == n {
      if p in added {
        var k :| 0 <= k < |window| && added[k] == p;
        assert window[k] in window;
      }
      if IsCandidate(mlat, refs, tolerance, p) && p.mlat == n {
        var e := (refs[p.reference].time, p.reference);
        assert e in window;
        var k :| 0 <= k < |window| && window[k] == e;
        assert added[k] == p;
      }
    }
    forall j, k | 0 <= j < k < |added| ensures added[j] != added[k] {
      assert window[j] in window && window[k] in window;
    }
  }

  lemma CollectRow(mlat: seq<Row>, refs: seq<Row>, tolerance: real, n: nat, pairs: seq<Pair>, entries: seq<Entry>)
    requires n < |mlat| && Collected(mlat, refs, tolerance, n, pairs)
    requires SortedGroup(refs, mlat[n].aircraft, entries)
    ensures Collected(mlat, refs, tolerance, n + 1,
                      pairs + PairsOf(Window(entries, mlat[n].time, tolerance), mlat[n].time, n))
  {
    hide Window, PairsOf, SortedGroup, IsCandidate, Sorting.NoDuplicates;
    var added := PairsOf(Window(entries, mlat[n].time, tolerance), mlat[n].time, n);
    RowPairs(mlat, refs, tolerance, n, entries);
    AppendDistinct(pairs, added);
  }

  lemma AppendDistinct(a: seq<Pair>, b: seq<Pair>)
    requires Sorting.NoDuplicates(a) && Sorting.NoDuplicates(b)
    requires forall p :: p in a ==> p !in b
    ensures Sorting.NoDuplicates(a + b)
  {
    var c := a + b;
    forall i, j | 0 <= i < j < |c| ensures c[i] != c[j] {
      if i < |a| <= j {
        assert c[i] in a && c[j] in b;
      }
    }
  }

  method CollectCandidates(mlat: seq<Row>, refs: seq<Row>, tolerance: real) returns (candidates: seq<Pair>)
    ensures Collected(mlat, refs, tolerance, |mlat|, candidates)
  {
    var groups := GroupByAircraft(refs);
    var sortedGroups := map a | a in groups :: Sorting.Sort(groups[a], TimeLeq);
    candidates := [];
    for i := 0 to |mlat|
      invariant Collected(mlat, refs, tolerance, i, candidates)
    {
      var a := mlat[i].aircraft;
      var references := if a in sortedGroups then sortedGroups[a] else [];
      GroupIsSorted(refs, a);
      assert EntriesOf(refs, |refs|, a) == if a in groups then groups[a] else [];
      CollectRow(mlat, refs, tolerance, i, candidates, references);
      candidates := AppendWindow(candidates, Window(references, mlat[i].time, tolerance), mlat[i].time, i);
    }
  }

  // ----- nearest pairs first ----------------------------------------------------------------

  lemma SortedCandidates(pairs: seq<Pair>)
    requires Sorting.NoDuplicates(pairs)
    ensures Ascending(Sorting.Sort(pairs, Leq))
  {
    var sorted := Sorting.Sort(pairs, Leq);
    Sorting.SortSorts(pairs, Leq);
    Sorting.SortDistinct(pairs, Leq);
    forall i, j | 0 <= i < j < |sorted| ensures Before(sorted[i], sorted[j]) {
      assert Leq(sorted[i], sorted[j]) && sorted[i] != sorted[j];
    }
  }

  /** What the greedy loop keeps after the first `k` sorted candidates. */
  ghost predicate GreedyInv(sorted: seq<Pair>, k: nat, usedMlat: set<nat>, usedReference: set<nat>, matches: seq<Pair>)
    requires k <= |sorted|
  {
    && (forall m :: m in matches ==> m in sorted[..k])
    && OneToOne(matches)
    && Ascending(matches)
    && (forall i :: i in usedMlat <==> exists m :: m in matches && m.mlat == i)
    && (forall j :: j in usedReference <==> exists m :: m in matches && m.reference == j)
    && (forall l :: 0 <= l < k ==> Settled(matches, sorted[l]))
  }

  lemma SettledGrows(matches: seq<Pair>, next: Pair, p: Pair)
    requires Settled(matches, p) || p == next
    ensures Settled(matches + [next], p)
  {
    if p != next && p !in matches {
      var m :| m in matches && SharesEnd(m, p) && Before(m, p);
      assert m in matches + [next];
    }
  }

  lemma GreedyTake(sorted: seq<Pair>, k: nat, usedMlat: set<nat>, usedReference: set<nat>, matches: seq<Pair>)
    requires k < |sorted| && Ascending(sorted)
    requires GreedyInv(sorted, k, usedMlat, usedReference, matches)
    requires sorted[k].mlat !in usedMlat && sorted[k].reference !in usedReference
    ensures GreedyInv(sorted, k + 1, usedMlat + {sorted[k].mlat}, usedReference + {sorted[k].reference},
                      matches + [sorted[k]])
  {
    var p := sorted[k];
    var more := matches + [p];
    forall m | m in more ensures m in sorted[..k + 1] {
      assert m in sorted[..k] || m == sorted[..k + 1][k];
    }
    forall i | 0 <= i < |matches| ensures !SharesEnd(matches[i], p) && Before(matches[i], p) {
      assert matches[i] in matches;
      var l :| 0 <= l < k && sorted[l] == matches[i];
    }
    forall l | 0 <= l < k + 1 ensures Settled(more, sorted[l]) {
      SettledGrows(matches, p, sorted[l]);
    }
    forall i ensures i in usedMlat + {p.mlat} <==> exists m :: m in more && m.mlat == i {
      EndsGrow(matches, p);
    }
    forall j ensures j in usedReference + {p.reference} <==> exists m :: m in more && m.reference == j {
      EndsGrow(matches, p);
    }
  }

  lemma EndsGrow(matches: seq<Pair>, p: Pair)
    ensures forall m :: m in matches + [p] <==> m in matches || m == p
    ensures p in matches + [p]
  {
  }

  lemma SkippedIsSettled(sorted: seq<Pair>, k: nat, matches: seq<Pair>, m: Pair)
    requires k < |sorted| && Ascending(sorted)
    requires m in matches && m in sorted[..k] && SharesEnd(m, sorted[k])
    ensures Settled(matches, sorted[k])
  {
    var l :| 0 <= l < k && sorted[..k][l] == m;
    assert Before(sorted[l], sorted[k]);
  }

  lemma GreedySkip(sorted: seq<Pair>, k: nat, usedMlat: set<nat>, usedReference: set<nat>, matches: seq<Pair>)
    requires k < |sorted| && Ascending(sorted)
    requires GreedyInv(sorted, k, usedMlat, usedReference, matches)
    requires sorted[k].mlat in usedMlat || sorted[k].reference in usedReference
    ensures GreedyInv(sorted, k + 1, usedMlat, usedReference, matches)
  {
    hide Settled, Ascending, OneToOne;
    var m :| m in matches && SharesEnd(m, sorted[k]);
    SkippedIsSettled(sorted, k, matches, m);
    assert sorted[..k + 1] == sorted[..k] + [sorted[k]];
  }

  /** The final loop: takes a candidate when neither of its ends is used. */
  method TakeNearest(sorted: seq<Pair>) returns (matches: seq<Pair>)
    requires Ascending(sorted)
    ensures OneToOne(matches) && Ascending(matches)
    ensures forall m :: m in matches ==> m in sorted
    ensures forall p :: p in sorted ==> Settled(matches, p)
  {
    var usedMlat: set<nat> := {};
    var usedReference: set<nat> := {};
    matches := [];
    for k := 0 to |sorted|
      invariant GreedyInv(sorted, k, usedMlat, usedReference, matches)
    {
      var p := sorted[k];
      if p.mlat in usedMlat || p.reference in usedReference {
        GreedySkip(sorted, k, usedMlat, usedReference, matches);
        continue;
      }
      GreedyTake(sorted, k, usedMlat, usedReference, matches);
      usedMlat := usedMlat + {p.mlat};
      usedReference := usedReference + {p.reference};
      matches := matches + [p];
    }
    assert sorted[..|sorted|] == sorted;
  }

  method MatchRecords(mlat: seq<Row>, refs: seq<Row>, tolerance: real) returns (matches: seq<Pair>)
    ensures IsNearestFirst(mlat, refs, tolerance, matches)
  {
    var candidates := CollectCandidates(mlat, refs, tolerance);
    var sorted := Sorting.Sort(candidates, Leq);
    SortedCandidates(candidates);
    matches := TakeNearest(sorted);
    forall p ensures p in sorted <==> IsCandidate(mlat, refs, tolerance, p) {
      Sorting.SortMember(candidates, Leq, p);
    }
  }

  // ----- the specification has one solution --------------------------------------------------

  /** The first pair after a common prefix is the same in both matchings. */
  lemma NextAgrees(mlat: seq<Row>, refs: seq<Row>, tolerance: real, a: seq<Pair>, b: seq<Pair>, k: nat)
    requires IsNearestFirst(mlat, refs, tolerance, a) && IsNearestFirst(mlat, refs, tolerance, b)
    requires k < |a| && k <= |b| && a[..k] == b[..k]
    ensures k < |b| && !Before(a[k], b[k])
  {
    var p := a[k];
    assert p in a;
    assert Settled(b, p);
    var n := if p in b then p else var n :| n in b && SharesEnd(n, p) && Before(n, p); n;
    forall l | 0 <= l < k ensures !SharesEnd(b[l], p) {
      assert b[l] == b[..k][l] == a[..k][l] == a[l];
    }
    assert SharesEnd(n, p);
    var l :| 0 <= l < |b| && b[l] == n;
    assert l > k ==> Before(b[k], b[l]);
  }

  lemma {:induction false} PrefixAgrees(mlat: seq<Row>, refs: seq<Row>, tolerance: real, a: seq<Pair>, b: seq<Pair>, k: nat)
    requires IsNearestFirst(mlat, refs, tolerance, a) && IsNearestFirst(mlat, refs, tolerance, b)
    requires k <= |a|
    ensures k <= |b| && a[..k] == b[..k]
  {
    if k > 0 {
      PrefixAgrees(mlat, refs, tolerance, a, b, k - 1);
      NextAgrees(mlat, refs, tolerance, a, b, k - 1);
      NextAgrees(mlat, refs, tolerance, b, a, k - 1);
      assert a[..k] == a[..k - 1] + [a[k - 1]] && b[..k] == b[..k - 1] + [b[k - 1]];
    }
  }

  /** So `match_records` returns the one matching that the specification allows. */
  lemma NearestFirstUnique(mlat: seq<Row>, refs: seq<Row>, tolerance: real, a: seq<Pair>, b: seq<Pair>)
    requires IsNearestFirst(mlat, refs, tolerance, a) && IsNearestFirst(mlat, refs, tolerance, b)
    ensures a == b
  {
    PrefixAgrees(mlat, refs, tolerance, a, b, |a|);
    PrefixAgrees(mlat, refs, tolerance, b, a, |b|);
  }

  // ----- at least half of the best ------------------------------------------------------------

  ghost predicate IsMatching(mlat: seq<Row>, refs: seq<Row>, tolerance: real, pairs: set<Pair>) {
    && (forall p :: p in pairs ==> IsCandidate(mlat, refs, tolerance, p))
    && forall p, q :: p in pairs && q in pairs && p != q ==> !SharesEnd(p, q)
  }

  lemma {:induction false} CountByMlat(pairs: set<Pair>, ends: set<nat>)
    requires forall p :: p in pairs ==> p.mlat in ends
    requires forall p, q :: p in pairs && q in pairs && p != q ==> p.mlat != q.mlat
    ensures |pairs| <= |ends|
    decreases pairs
  {
    if p :| p in pairs {
      CountByMlat(pairs - {p}, ends - {p.mlat});
    }
  }

  lemma {:induction false} CountByReference(pairs: set<Pair>, ends: set<nat>)
    requires forall p :: p in pairs ==> p.reference in ends
    requires forall p, q :: p in pairs && q in pairs && p != q ==> p.reference != q.reference
    ensures |pairs| <= |ends|
    decreases pairs
  {
    if p :| p in pairs {
      CountByReference(pairs - {p}, ends - {p.reference});
    }
  }

  function MlatEnds(matches: seq<Pair>): set<nat> {
    set i | 0 <= i < |matches| :: matches[i].mlat
  }

  function ReferenceEnds(matches: seq<Pair>): set<nat> {
    set i | 0 <= i < |matches| :: matches[i].reference
  }

  lemma EndsOneMore(matches: seq<Pair>, p: Pair)
    ensures MlatEnds(matches + [p]) == MlatEnds(matches) + {p.mlat}
    ensures ReferenceEnds(matches + [p]) == ReferenceEnds(matches) + {p.reference}
  {
    var longer := matches + [p];
    assert longer[|matches|] == p;
    forall i | 0 <= i < |matches|
      ensures matches[i].mlat in MlatEnds(longer) && matches[i].reference in ReferenceEnds(longer)
    {
      assert longer[i] == matches[i];
    }
  }

  lemma {:induction false} FewEnds(matches: seq<Pair>)
    ensures |MlatEnds(matches)| <= |matches| && |ReferenceEnds(matches)| <= |matches|
  {
    if matches == [] {
      assert MlatEnds(matches) == {} && ReferenceEnds(matches) == {};
    } else {
      hide MlatEnds, ReferenceEnds;
      var front, last := matches[..|matches| - 1], matches[|matches| - 1];
      assert matches == front + [last];
      FewEnds(front);
      EndsOneMore(front, last);
    }
  }

  /** No matching of the same candidates has more than twice as many pairs. */
  lemma {:induction false} AtLeastHalf(mlat: seq<Row>, refs: seq<Row>, tolerance: real, matches: seq<Pair>, other: set<Pair>)
    requires IsNearestFirst(mlat, refs, tolerance, matches) && IsMatching(mlat, refs, tolerance, other)
    ensures |other| <= 2 * |matches|
  {
    var byMlat := set p | p in other && p.mlat in MlatEnds(matches);
    var byReference := set p | p in other && p.reference in ReferenceEnds(matches);
    forall p | p in other ensures p in byMlat + byReference {
      assert Settled(matches, p);
      var m := if p in matches then p else var m :| m in matches && SharesEnd(m, p); m;
      var i :| 0 <= i < |matches| && matches[i] == m;
    }
    assert other == byMlat + byReference;
    forall p, q | p in other && q in other && p != q ensures p.mlat != q.mlat && p.reference != q.reference {
      assert !SharesEnd(p, q);
    }
    CountByMlat(byMlat, MlatEnds(matches));
    CountByReference(byReference, ReferenceEnds(matches));
    FewEnds(matches);
  }
}
