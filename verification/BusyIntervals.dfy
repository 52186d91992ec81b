/**
 Merging busy periods for a free-busy report (src/caldav.rs, `merge_busy_intervals`; section 7.10 of
 RFC 4791). Instants are integers.
 */
module BusyIntervals {
  import opened Results

  datatype FreeBusyType = Busy | BusyTentative | BusyUnavailable

  /** One `[start, end)` busy period. */
  datatype BusyInterval = BusyInterval(start: int, end: int, fbtype: FreeBusyType)

  type Intervals = seq<BusyInterval>

  function Rank(t: FreeBusyType): nat {
    match t
    case Busy => 0
    case BusyTentative => 1
    case BusyUnavailable => 2
  }

  predicate TypeThenStart(a: BusyInterval, b: BusyInterval) {
    Rank(a.fbtype) < Rank(b.fbtype) || (a.fbtype == b.fbtype && a.start <= b.start)
  }

  predicate StartThenType(a: BusyInterval, b: BusyInterval) {
    a.start < b.start || (a.start == b.start && Rank(a.fbtype) <= Rank(b.fbtype))
  }

  // ---------------------------------------------------------------------------------------------
  // What a list of intervals covers

  /** Instant `x` is busy with type `t`. */
  ghost predicate Covers(s: Intervals, t: FreeBusyType, x: int) {
    exists i {:trigger s[i]} :: 0 <= i < |s| && s[i].fbtype == t && s[i].start <= x < s[i].end
  }

  /**
   The same for closed intervals and on a grid twice as fine, where intervals that touch meet and
   intervals that do not touch leave a gap, empty ones included.
   */
  ghost predicate Reaches(s: Intervals, t: FreeBusyType, x2: int) {
    exists i {:trigger s[i]} :: 0 <= i < |s| && s[i].fbtype == t && 2 * s[i].start <= x2 <= 2 * s[i].end
  }

  ghost predicate SameCover(a: Intervals, b: Intervals) {
    forall t, x :: Covers(a, t, x) <==> Covers(b, t, x)
  }

  ghost predicate SameReach(a: Intervals, b: Intervals) {
    forall t, x2 :: Reaches(a, t, x2) <==> Reaches(b, t, x2)
  }

  ghost predicate Forward(s: Intervals) {
    forall i :: 0 <= i < |s| ==> s[i].start <= s[i].end
  }

  /** Neither overlapping nor touching, or of different types. */
  ghost predicate Separate(a: BusyInterval, b: BusyInterval) {
    a.fbtype != b.fbtype || a.end < b.start || b.end < a.start
  }

  ghost predicate AllSeparate(s: Intervals) {
    forall i, j :: 0 <= i < j < |s| ==> Separate(s[i], s[j])
  }

  ghost predicate SortedBy(le: (BusyInterval, BusyInterval) -> bool, s: Intervals) {
    forall i, j :: 0 <= i < j < |s| ==> le(s[i], s[j])
  }

  /** Sorted by start, and within each type strictly separated. */
  ghost predicate Canonical(s: Intervals) {
    Forward(s) && SortedBy(StartThenType, s) && AllSeparate(s)
  }

  // ---------------------------------------------------------------------------------------------
  // Sorting

  ghost predicate TotalOrder(le: (BusyInterval, BusyInterval) -> bool) {
    && (forall a, b :: le(a, b) || le(b, a))
    && (forall a, b, c :: le(a, b) && le(b, c) ==> le(a, c))
  }

  function Insert(le: (BusyInterval, BusyInterval) -> bool, x: BusyInterval, s: Intervals): Intervals {
    if s == [] || le(x, s[0]) then [x] + s else [s[0]] + Insert(le, x, s[1..])
  }

  /** A stable sort: an earlier element is put before later ones it is not above. */
  function Sort(le: (BusyInterval, BusyInterval) -> bool, s: Intervals): Intervals {
    if s == [] then [] else Insert(le, s[0], Sort(le, s[1..]))
  }

  lemma {:induction false} InsertMembers(le: (BusyInterval, BusyInterval) -> bool, x: BusyInterval, s: Intervals)
    ensures |Insert(le, x, s)| == |s| + 1
    ensures forall y :: y in Insert(le, x, s) <==> y == x || y in s
  {
    if !(s == [] || le(x, s[0])) {
      InsertMembers(le, x, s[1..]);
      assert s == [s[0]] + s[1..];
    }
  }

  lemma {:induction false} InsertSorts(le: (BusyInterval, BusyInterval) -> bool, x: BusyInterval, s: Intervals)
    requires TotalOrder(le) && SortedBy(le, s)
    ensures SortedBy(le, Insert(le, x, s))
  {
    if s != [] && !le(x, s[0]) {
      InsertSorts(le, x, s[1..]);
      InsertMembers(le, x, s[1..]);
      var rest := Insert(le, x, s[1..]);
      forall j | 0 <= j < |rest| ensures le(s[0], rest[j]) {
        assert rest[j] in rest;
      }
    }
  }

  lemma {:induction false} InsertKeepsSeparate(le: (BusyInterval, BusyInterval) -> bool, x: BusyInterval, s: Intervals)
    requires AllSeparate(s) && forall y :: y in s ==> Separate(x, y)
    ensures AllSeparate(Insert(le, x, s))
  {
    if s != [] && !le(x, s[0]) {
      InsertKeepsSeparate(le, x, s[1..]);
      InsertMembers(le, x, s[1..]);
      var rest := Insert(le, x, s[1..]);
      forall j | 0 <= j < |rest| ensures Separate(s[0], rest[j]) {
        assert rest[j] in rest && s[0] in s;
        if rest[j] != x {
          var k :| 0 <= k < |s[1..]| && s[1..][k] == rest[j];
          assert s[k + 1] == rest[j];
        }
      }
    } else {
      forall j | 0 <= j < |s| ensures Separate(x, s[j]) { assert s[j] in s; }
    }
  }

  lemma {:induction false} Sorted(le: (BusyInterval, BusyInterval) -> bool, s: Intervals)
    requires TotalOrder(le)
    ensures |Sort(le, s)| == |s| && SortedBy(le, Sort(le, s))
    ensures forall y :: y in Sort(le, s) <==> y in s
    ensures AllSeparate(s) ==> AllSeparate(Sort(le, s))
  {
    if s != [] {
      Sorted(le, s[1..]);
      InsertMembers(le, s[0], Sort(le, s[1..]));
      InsertSorts(le, s[0], Sort(le, s[1..]));
      assert s == [s[0]] + s[1..];
      if AllSeparate(s) {
        InsertKeepsSeparate(le, s[0], Sort(le, s[1..]));
      }
    }
  }

  lemma KeysAreOrders()
    ensures TotalOrder(TypeThenStart) && TotalOrder(StartThenType)
  {}

  /** Coverage depends on the members only. */
  lemma SameMembersSameCover(a: Intervals, b: Intervals)
    requires forall y :: y in a <==> y in b
    ensures SameCover(a, b) && SameReach(a, b) && (Forward(a) <==> Forward(b))
  {
    forall i | 0 <= i < |a| ensures exists j :: 0 <= j < |b| && b[j] == a[i] { assert a[i] in b; }
    forall j | 0 <= j < |b| ensures exists i :: 0 <= i < |a| && a[i] == b[j] { assert b[j] in a; }
  }

  // ---------------------------------------------------------------------------------------------
  // The sweep

  /** Taking the next interval into the current one, when it starts no later than that ends. */
  lemma AbsorbCovers(done: Intervals, current: BusyInterval, next: BusyInterval, seen: Intervals)
    requires SameCover(done + [current], seen)
    requires next.fbtype == current.fbtype && current.start <= next.start <= current.end
    ensures SameCover(done + [if next.end > current.end then current.(end := next.end) else current], seen + [next])
  {
    var grown := if next.end > current.end then current.(end := next.end) else current;
    forall t, x ensures Covers(done + [grown], t, x) <==> Covers(seen + [next], t, x) {
      CoversLast(done, grown, t, x);
      CoversLast(done, current, t, x);
      CoversLast(seen, next, t, x);
    }
  }

  lemma CoversLast(s: Intervals, a: BusyInterval, t: FreeBusyType, x: int)
    ensures Covers(s + [a], t, x) <==> Covers(s, t, x) || (a.fbtype == t && a.start <= x < a.end)
  {
    var s' := s + [a];
    assert s'[|s|] == a;
    if i :| 0 <= i < |s| && s[i].fbtype == t && s[i].start <= x < s[i].end { assert s'[i] == s[i]; }
  }

  lemma AbsorbReaches(done: Intervals, current: BusyInterval, next: BusyInterval, seen: Intervals)
    requires SameReach(done + [current], seen) && next.start <= next.end
    requires next.fbtype == current.fbtype && current.start <= next.start <= current.end
    ensures SameReach(done + [if next.end > current.end then current.(end := next.end) else current], seen + [next])
  {
    var grown := if next.end > current.end then current.(end := next.end) else current;
    forall t, x ensures Reaches(done + [grown], t, x) <==> Reaches(seen + [next], t, x) {
      ReachesLast(done, grown, t, x);
      ReachesLast(done, current, t, x);
      ReachesLast(seen, next, t, x);
    }
  }

  lemma ReachesLast(s: Intervals, a: BusyInterval, t: FreeBusyType, x: int)
    ensures Reaches(s + [a], t, x) <==> Reaches(s, t, x) || (a.fbtype == t && 2 * a.start <= x <= 2 * a.end)
  {
    var s' := s + [a];
    assert s'[|s|] == a;
    if i :| 0 <= i < |s| && s[i].fbtype == t && 2 * s[i].start <= x <= 2 * s[i].end { assert s'[i] == s[i]; }
  }

  lemma AppendCovers(a: Intervals, b: Intervals, next: BusyInterval)
    requires SameCover(a, b)
    ensures SameCover(a + [next], b + [next])
  {
    forall t, x ensures Covers(a + [next], t, x) <==> Covers(b + [next], t, x) {
      CoversLast(a, next, t, x);
      CoversLast(b, next, t, x);
    }
  }

  lemma AppendReaches(a: Intervals, b: Intervals, next: BusyInterval)
    requires SameReach(a, b)
    ensures SameReach(a + [next], b + [next])
  {
    forall t, x ensures Reaches(a + [next], t, x) <==> Reaches(b + [next], t, x) {
      ReachesLast(a, next, t, x);
      ReachesLast(b, next, t, x);
    }
  }

  /** In the order of the sweep: every interval ends before the next one of its type starts. */
  ghost predicate Swept(s: Intervals) {
    forall i, j :: 0 <= i < j < |s| ==>
      Rank(s[i].fbtype) < Rank(s[j].fbtype) || (s[i].fbtype == s[j].fbtype && s[i].end < s[j].start)
  }

  lemma SweptAbsorbs(done: Intervals, current: BusyInterval, end: int)
    requires Swept(done + [current]) && Forward(done + [current]) && end >= current.end
    ensures Swept(done + [current.(end := end)]) && Forward(done + [current.(end := end)])
  {
    var before, after := done + [current], done + [current.(end := end)];
    forall i | 0 <= i < |after| ensures after[i].start == before[i].start && after[i].fbtype == before[i].fbtype {}
    forall i | 0 <= i < |done| ensures after[i] == before[i] {}
    forall i | 0 <= i < |after| ensures after[i].start <= after[i].end {}
  }

  lemma SweptAppends(s: Intervals, next: BusyInterval)
    requires |s| > 0 && Swept(s) && Forward(s) && next.start <= next.end
    requires var last := s[|s| - 1];
             Rank(last.fbtype) < Rank(next.fbtype) || (last.fbtype == next.fbtype && last.end < next.start)
    ensures Swept(s + [next]) && Forward(s + [next])
  {
    var last := s[|s| - 1];
    forall i | 0 <= i < |s|
      ensures Rank(s[i].fbtype) < Rank(next.fbtype) || (s[i].fbtype == next.fbtype && s[i].end < next.start)
    {
      if i < |s| - 1 {
        assert Rank(s[i].fbtype) < Rank(last.fbtype) || (s[i].fbtype == last.fbtype && s[i].end < last.start);
      }
    }
  }

  /** What merging does: the same instants stay covered, and well-formed input comes out in canonical form. */
  ghost predicate Merges(intervals: Intervals, merged: Intervals) {
    && SameCover(merged, intervals)
    && (Forward(intervals) ==> SameReach(merged, intervals) && Canonical(merged))
  }

  method MergeBusyIntervals(intervals: Intervals) returns (merged: Intervals)
    ensures Merges(intervals, merged)
    ensures forall i, j :: 0 <= i < j < |merged| ==> merged[i].start <= merged[j].start
  {
    if |intervals| <= 1 {
      return intervals;
    }
    KeysAreOrders();
    var sorted := Sort(TypeThenStart, intervals);
    Sorted(TypeThenStart, intervals);
    SameMembersSameCover(sorted, intervals);
    var swept := Sweep(sorted);
    merged := Sort(StartThenType, swept);
    Sorted(StartThenType, swept);
    SameMembersSameCover(merged, swept);
  }

  /** The loop over the intervals sorted by type and start. */
  method Sweep(sorted: Intervals) returns (merged: Intervals)
    requires |sorted| > 0 && SortedBy(TypeThenStart, sorted)
    ensures SameCover(merged, sorted)
    ensures Forward(sorted) ==> Forward(merged) && AllSeparate(merged) && SameReach(merged, sorted)
  {
    merged := [];
    var current := sorted[0];
    assert sorted[..1] == [current] == [] + [current];
    for n := 1 to |sorted|
      invariant SameCover(merged + [current], sorted[..n])
      invariant Forward(sorted) ==> SameReach(merged + [current], sorted[..n])
      invariant Forward(sorted) ==> Forward(merged + [current]) && Swept(merged + [current])
      invariant current.fbtype == sorted[n - 1].fbtype && current.start <= sorted[n - 1].start
    {
      var next := sorted[n];
      assert sorted[..n + 1] == sorted[..n] + [next];
      assert TypeThenStart(sorted[n - 1], next);
      if next.fbtype == current.fbtype && next.start <= current.end {
        AbsorbCovers(merged, current, next, sorted[..n]);
        if Forward(sorted) {
          AbsorbReaches(merged, current, next, sorted[..n]);
          if next.end > current.end { SweptAbsorbs(merged, current, next.end); }
        }
        if next.end > current.end {
          current := current.(end := next.end);
        }
      } else {
        AppendCovers(merged + [current], sorted[..n], next);
        if Forward(sorted) {
          AppendReaches(merged + [current], sorted[..n], next);
          SweptAppends(merged + [current], next);
        }
        merged := merged + [current];
        current := next;
      }
    }
    assert sorted[..|sorted|] == sorted;
    merged := merged + [current];
  }

  // ---------------------------------------------------------------------------------------------
  // The canonical form is unique

  /** An interval of one canonical list is an interval of every other that reaches as far. */
  lemma CanonicalMember(a: Intervals, b: Intervals, i: nat) returns (j: nat)
    requires Canonical(a) && Canonical(b) && SameReach(a, b) && i < |a|
    ensures j < |b| && b[j] == a[i]
  {
    var t := a[i].fbtype;
    assert Reaches(a, t, 2 * a[i].start);
    j :| 0 <= j < |b| && b[j].fbtype == t && 2 * b[j].start <= 2 * a[i].start <= 2 * b[j].end;
    NothingJustBefore(a, i);
    NothingJustAfter(a, i);
    NothingJustAfter(b, j);
    InReach(b, j, 2 * a[i].start - 1);
    InReach(b, j, 2 * a[i].end + 1);
    InReach(a, i, 2 * b[j].end + 1);
  }

  lemma InReach(s: Intervals, i: nat, x2: int)
    requires i < |s|
    ensures 2 * s[i].start <= x2 <= 2 * s[i].end ==> Reaches(s, s[i].fbtype, x2)
  {}

  lemma SeparateAnyOrder(s: Intervals, i: nat, j: nat)
    requires AllSeparate(s) && i < |s| && j < |s| && i != j
    ensures Separate(s[i], s[j])
  {
    if i < j { assert Separate(s[i], s[j]); } else { assert Separate(s[j], s[i]); }
  }

  lemma NothingJustBefore(s: Intervals, i: nat)
    requires Canonical(s) && i < |s|
    ensures !Reaches(s, s[i].fbtype, 2 * s[i].start - 1)
  {
    forall k | 0 <= k < |s| && s[k].fbtype == s[i].fbtype
      ensures !(2 * s[k].start <= 2 * s[i].start - 1 <= 2 * s[k].end)
    {
      if k != i { SeparateAnyOrder(s, i, k); }
    }
  }

  lemma NothingJustAfter(s: Intervals, i: nat)
    requires Canonical(s) && i < |s|
    ensures !Reaches(s, s[i].fbtype, 2 * s[i].end + 1)
  {
    forall k | 0 <= k < |s| && s[k].fbtype == s[i].fbtype
      ensures !(2 * s[k].start <= 2 * s[i].end + 1 <= 2 * s[k].end)
    {
      if k != i { SeparateAnyOrder(s, i, k); }
    }
  }

  predicate Before(a: BusyInterval, b: BusyInterval) {
    a.start < b.start || (a.start == b.start && Rank(a.fbtype) < Rank(b.fbtype))
  }

  lemma CanonicalStrict(s: Intervals, i: nat, j: nat)
    requires Canonical(s) && i < j < |s|
    ensures Before(s[i], s[j])
  {
    assert StartThenType(s[i], s[j]) && Separate(s[i], s[j]);
  }

  lemma {:induction false} SameStrictlySorted(a: Intervals, b: Intervals)
    requires forall i, j :: 0 <= i < j < |a| ==> Before(a[i], a[j])
    requires forall i, j :: 0 <= i < j < |b| ==> Before(b[i], b[j])
    requires forall y :: y in a <==> y in b
    ensures a == b
  {
    if a == [] || b == [] {
      EmptyOrMember(a);
      EmptyOrMember(b);
    } else {
      assert a[0] in b && b[0] in a;
      assert a[0] == b[0];
      TailMembers(a);
      TailMembers(b);
      SameStrictlySorted(a[1..], b[1..]);
      assert a == [a[0]] + a[1..] && b == [b[0]] + b[1..];
    }
  }

  lemma TailMembers(a: Intervals)
    requires a != [] && forall i, j :: 0 <= i < j < |a| ==> Before(a[i], a[j])
    ensures forall y :: y in a[1..] <==> y in a && y != a[0]
  {
    assert a == [a[0]] + a[1..];
  }

  lemma CanonicalUnique(a: Intervals, b: Intervals)
    requires Canonical(a) && Canonical(b) && SameReach(a, b)
    ensures a == b
  {
    forall i | 0 <= i < |a| ensures a[i] in b { var j := CanonicalMember(a, b, i); }
    forall i | 0 <= i < |b| ensures b[i] in a { var j := CanonicalMember(b, a, i); }
    forall i, j | 0 <= i < j < |a| ensures Before(a[i], a[j]) { CanonicalStrict(a, i, j); }
    forall i, j | 0 <= i < j < |b| ensures Before(b[i], b[j]) { CanonicalStrict(b, i, j); }
    SameStrictlySorted(a, b);
  }

  /** Merging what is already merged changes nothing. */
  lemma MergingTwice(s: Intervals, once: Intervals, twice: Intervals)
    requires Forward(s) && Merges(s, once) && Merges(once, twice)
    ensures twice == once
  {
    CanonicalUnique(twice, once);
  }

  /** The report does not depend on the order in which the objects were listed, nor on repeated intervals. */
  lemma OrderDoesNotMatter(a: Intervals, b: Intervals, mergedA: Intervals, mergedB: Intervals)
    requires Forward(a) && (forall y :: y in a <==> y in b)
    requires Merges(a, mergedA) && Merges(b, mergedB)
    ensures mergedA == mergedB
  {
    SameMembersSameCover(a, b);
    CanonicalUnique(mergedA, mergedB);
  }
}
