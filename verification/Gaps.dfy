/** Gap lists: the missing bytes of a part file as sorted intervals
    (core/download/partfile.py). */
module Gaps {
  import opened Base

  /** Bytes [start, end). */
  datatype Gap = Gap(start: int, end: int)

  predicate Holds(g: Gap, x: int) {
    g.start <= x < g.end
  }

  ghost predicate InGaps(gaps: seq<Gap>, x: int) {
    exists i :: 0 <= i < |gaps| && Holds(gaps[i], x)
  }

  /** Sorted, no gap empty, no two touching, all within the file. */
  ghost predicate Canonical(gaps: seq<Gap>, total: nat) {
    && (forall i :: 0 <= i < |gaps| ==> 0 <= gaps[i].start < gaps[i].end <= total)
    && (forall i, j :: 0 <= i < j < |gaps| ==> gaps[i].end < gaps[j].start)
  }

  /** The bytes a gap list stands for. */
  ghost function Missing(gaps: seq<Gap>, total: nat): set<int> {
    set x: int | 0 <= x < total && InGaps(gaps, x)
  }

  // ----- a canonical list is determined by its bytes -----

  lemma {:induction false} FirstByte(gaps: seq<Gap>, total: nat, x: int)
    requires Canonical(gaps, total) && gaps != [] && InGaps(gaps, x)
    ensures gaps[0].start <= x
  {
    var i :| 0 <= i < |gaps| && Holds(gaps[i], x);
    if i > 0 {
      assert gaps[0].end < gaps[i].start;
    }
  }

  lemma {:induction false} TailGaps(gaps: seq<Gap>, total: nat, x: int)
    requires Canonical(gaps, total) && gaps != []
    ensures Canonical(gaps[1..], total)
    ensures InGaps(gaps[1..], x) <==> InGaps(gaps, x) && !Holds(gaps[0], x)
    ensures InGaps(gaps, x) <==> InGaps(gaps[1..], x) || Holds(gaps[0], x)
  {
    if InGaps(gaps[1..], x) {
      var i :| 0 <= i < |gaps[1..]| && Holds(gaps[1..][i], x);
      assert Holds(gaps[i + 1], x) && gaps[0].end < gaps[i + 1].start;
    }
    if InGaps(gaps, x) && !Holds(gaps[0], x) {
      var i :| 0 <= i < |gaps| && Holds(gaps[i], x);
      assert Holds(gaps[1..][i - 1], x);
    }
  }

  lemma {:induction false} AfterFirst(gaps: seq<Gap>, total: nat)
    requires Canonical(gaps, total) && gaps != []
    ensures InGaps(gaps, gaps[0].start) && !InGaps(gaps, gaps[0].end)
    ensures forall x :: gaps[0].start <= x < gaps[0].end ==> InGaps(gaps, x)
  {
    forall x | gaps[0].start <= x < gaps[0].end
      ensures InGaps(gaps, x)
    {
      assert Holds(gaps[0], x);
    }
    if InGaps(gaps, gaps[0].end) {
      var i :| 0 <= i < |gaps| && Holds(gaps[i], gaps[0].end);
    }
  }

  /** Two canonical lists of the same bytes are the same list. */
  lemma {:induction false} CanonicalUnique(a: seq<Gap>, b: seq<Gap>, total: nat)
    requires Canonical(a, total) && Canonical(b, total)
    requires forall x :: InGaps(a, x) <==> InGaps(b, x)
    ensures a == b
    decreases |a|
  {
    if a == [] {
      if b != [] {
        AfterFirst(b, total);
      }
    } else {
      AfterFirst(a, total);
      assert b != [];
      AfterFirst(b, total);
      FirstByte(a, total, b[0].start);
      FirstByte(b, total, a[0].start);
      assert a[0].start == b[0].start;
      assert a[0].end == b[0].end;
      forall x
        ensures InGaps(a[1..], x) <==> InGaps(b[1..], x)
      {
        TailGaps(a, total, x);
        TailGaps(b, total, x);
      }
      TailGaps(a, total, 0);
      TailGaps(b, total, 0);
      CanonicalUnique(a[1..], b[1..], total);
    }
  }

  // ----- counting -----

  function Total(gaps: seq<Gap>): int {
    if gaps == [] then 0 else gaps[0].end - gaps[0].start + Total(gaps[1..])
  }

  ghost function Bytes(a: int, b: int): set<int> {
    set x: int | a <= x < b && Holds(Gap(a, b), x)
  }

  lemma {:induction false} IntervalSize(a: int, b: int)
    requires a <= b
    ensures |Bytes(a, b)| == b - a
    decreases b - a
  {
    if a < b {
      IntervalSize(a, b - 1);
      assert Bytes(a, b) == Bytes(a, b - 1) + {b - 1};
    }
  }

  /** The lengths of a canonical list add up to the number of missing bytes. */
  lemma {:induction false} TotalIsCount(gaps: seq<Gap>, total: nat)
    requires Canonical(gaps, total)
    ensures Total(gaps) == |Missing(gaps, total)|
    decreases |gaps|
  {
    if gaps == [] {
      assert Missing(gaps, total) == {};
    } else {
      var first := Bytes(gaps[0].start, gaps[0].end);
      TailGaps(gaps, total, 0);
      TotalIsCount(gaps[1..], total);
      IntervalSize(gaps[0].start, gaps[0].end);
      forall x
        ensures x in Missing(gaps, total) <==> x in first || x in Missing(gaps[1..], total)
        ensures !(x in first && x in Missing(gaps[1..], total))
      {
        TailGaps(gaps, total, x);
      }
      assert Missing(gaps, total) == first + Missing(gaps[1..], total);
      assert first !! Missing(gaps[1..], total);
    }
  }

  // ----- _normalize_gaps -----

  predicate Before(a: Gap, b: Gap) {
    a.start < b.start || (a.start == b.start && a.end <= b.end)
  }

  ghost predicate Sorted(gaps: seq<Gap>) {
    forall i, j :: 0 <= i < j < |gaps| ==> Before(gaps[i], gaps[j])
  }

  function Insert(g: Gap, gaps: seq<Gap>): seq<Gap> {
    if gaps == [] || Before(g, gaps[0]) then [g] + gaps else [gaps[0]] + Insert(g, gaps[1..])
  }

  /** Stands for the built-in sort of pairs. */
  function Sort(gaps: seq<Gap>): seq<Gap> {
    if gaps == [] then [] else Insert(gaps[0], Sort(gaps[1..]))
  }

  lemma {:induction false} InsertSorts(g: Gap, gaps: seq<Gap>)
    requires Sorted(gaps)
    ensures Sorted(Insert(g, gaps)) && multiset(Insert(g, gaps)) == multiset(gaps) + multiset{g}
  {
    if gaps != [] && !Before(g, gaps[0]) {
      InsertSorts(g, gaps[1..]);
      var rest := Insert(g, gaps[1..]);
      assert gaps == [gaps[0]] + gaps[1..];
      forall j | 0 <= j < |rest|
        ensures Before(gaps[0], rest[j])
      {
        assert rest[j] in multiset(rest);
        assert rest[j] == g || rest[j] in gaps[1..];
      }
    }
  }

  lemma {:induction false} SortSorts(gaps: seq<Gap>)
    ensures Sorted(Sort(gaps)) && multiset(Sort(gaps)) == multiset(gaps)
  {
    if gaps != [] {
      SortSorts(gaps[1..]);
      InsertSorts(gaps[0], Sort(gaps[1..]));
      assert gaps == [gaps[0]] + gaps[1..];
    }
  }

  lemma {:induction false} SortKeepsBytes(gaps: seq<Gap>, x: int)
    ensures InGaps(Sort(gaps), x) <==> InGaps(gaps, x)
  {
    SortSorts(gaps);
    if InGaps(Sort(gaps), x) {
      var i :| 0 <= i < |Sort(gaps)| && Holds(Sort(gaps)[i], x);
      assert Sort(gaps)[i] in multiset(gaps);
    }
    if InGaps(gaps, x) {
      var i :| 0 <= i < |gaps| && Holds(gaps[i], x);
      assert gaps[i] in multiset(Sort(gaps));
    }
  }

  function Clamp(x: int, total: nat): nat {
    Max(0, Min(x, total))
  }

  lemma {:induction false} AppendGap(gaps: seq<Gap>, g: Gap, x: int)
    ensures InGaps(gaps + [g], x) <==> InGaps(gaps, x) || Holds(g, x)
  {
    if InGaps(gaps, x) {
      var i :| 0 <= i < |gaps| && Holds(gaps[i], x);
      assert Holds((gaps + [g])[i], x);
    }
    if Holds(g, x) {
      assert Holds((gaps + [g])[|gaps|], x);
    }
  }

  /** One turn of the merging loop. */
  function Merged(merged: seq<Gap>, g: Gap): seq<Gap> {
    var last := |merged| - 1;
    if merged != [] && g.start <= merged[last].end
    then merged[last := Gap(merged[last].start, Max(merged[last].end, g.end))]
    else merged + [g]
  }

  lemma {:induction false} MergedBytes(merged: seq<Gap>, g: Gap, x: int)
    requires merged != [] ==> merged[|merged| - 1].start <= g.start
    requires forall i :: 0 <= i < |merged| ==> merged[i].start < merged[i].end
    ensures InGaps(Merged(merged, g), x) <==> InGaps(merged, x) || Holds(g, x)
  {
    var last, next := |merged| - 1, Merged(merged, g);
    if merged != [] && g.start <= merged[last].end {
      var front := merged[..last];
      assert merged == front + [merged[last]] && next == front + [next[last]];
      AppendGap(front, merged[last], x);
      AppendGap(front, next[last], x);
    } else {
      AppendGap(merged, g, x);
    }
  }

  lemma {:induction false} MergedCanonical(merged: seq<Gap>, g: Gap, total: nat)
    requires Canonical(merged, total) && 0 <= g.start < g.end <= total
    requires merged != [] ==> merged[|merged| - 1].start <= g.start
    ensures Canonical(Merged(merged, g), total)
    ensures Merged(merged, g) != [] && Merged(merged, g)[|Merged(merged, g)| - 1].start <= g.start
  {
  }

  /** Merging a gap that starts at or after the last one's start. */
  lemma {:induction false} MergeStep(merged: seq<Gap>, g: Gap, total: nat, next: seq<Gap>)
    requires Canonical(merged, total) && 0 <= g.start < g.end <= total
    requires merged != [] ==> merged[|merged| - 1].start <= g.start
    requires next == Merged(merged, g)
    ensures Canonical(next, total) && next != [] && next[|next| - 1].start <= g.start
    ensures forall x :: InGaps(next, x) <==> InGaps(merged, x) || Holds(g, x)
  {
    MergedCanonical(merged, g, total);
    forall x
      ensures InGaps(next, x) <==> InGaps(merged, x) || Holds(g, x)
    {
      MergedBytes(merged, g, x);
    }
  }

  /** `_normalize_gaps`: the canonical list of the bytes inside the file. */
  method Normalize(gaps: seq<Gap>, total: nat) returns (merged: seq<Gap>)
    ensures Canonical(merged, total)
    ensures forall x :: InGaps(merged, x) <==> 0 <= x < total && InGaps(gaps, x)
  {
    var clipped: seq<Gap> := [];
    var i := 0;
    while i < |gaps|
      invariant i <= |gaps|
      invariant forall j :: 0 <= j < |clipped| ==> 0 <= clipped[j].start < clipped[j].end <= total
      invariant forall x :: InGaps(clipped, x) <==> 0 <= x < total && InGaps(gaps[..i], x)
    {
      var start, end := Clamp(gaps[i].start, total), Clamp(gaps[i].end, total);
      ghost var before := clipped;
      if end > start {
        clipped := clipped + [Gap(start, end)];
      }
      assert gaps[..i + 1] == gaps[..i] + [gaps[i]];
      forall x
        ensures InGaps(clipped, x) <==> 0 <= x < total && InGaps(gaps[..i + 1], x)
      {
        AppendGap(gaps[..i], gaps[i], x);
        AppendGap(before, Gap(start, end), x);
      }
      i := i + 1;
    }
    assert gaps[..|gaps|] == gaps;
    var sorted := Sort(clipped);
    SortSorts(clipped);
    forall j | 0 <= j < |sorted|
      ensures 0 <= sorted[j].start < sorted[j].end <= total
    {
      assert sorted[j] in multiset(clipped);
    }
    merged := MergeSorted(sorted, total);
    forall x
      ensures InGaps(merged, x) <==> 0 <= x < total && InGaps(gaps, x)
    {
      SortKeepsBytes(clipped, x);
    }
  }

  method MergeSorted(sorted: seq<Gap>, total: nat) returns (merged: seq<Gap>)
    requires Sorted(sorted) && forall j :: 0 <= j < |sorted| ==> 0 <= sorted[j].start < sorted[j].end <= total
    ensures Canonical(merged, total)
    ensures forall x :: InGaps(merged, x) <==> InGaps(sorted, x)
  {
    merged := [];
    var i := 0;
    while i < |sorted|
      invariant i <= |sorted|
      invariant Canonical(merged, total)
      invariant merged != [] ==> forall j :: i <= j < |sorted| ==> merged[|merged| - 1].start <= sorted[j].start
      invariant forall x :: InGaps(merged, x) <==> InGaps(sorted[..i], x)
    {
      var g, last := sorted[i], |merged| - 1;
      ghost var before := merged;
      if merged != [] && g.start <= merged[last].end {
        merged := merged[last := Gap(merged[last].start, Max(merged[last].end, g.end))];
      } else {
        merged := merged + [g];
      }
      MergeStep(before, g, total, merged);
      assert sorted[..i + 1] == sorted[..i] + [g];
      forall x
        ensures InGaps(merged, x) <==> InGaps(sorted[..i + 1], x)
      {
        AppendGap(sorted[..i], g, x);
      }
      i := i + 1;
    }
    assert sorted[..|sorted|] == sorted;
  }
}
