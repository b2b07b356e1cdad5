/** Sets of numbers kept as lists of half-open intervals. */
module IntervalSets {
  import opened FiniteSets

  datatype Interval = Interval(begin: int, end: int)

  predicate In(i: Interval, p: int) {
    i.begin <= p < i.end
  }

  predicate Less(a: Interval, b: Interval) {
    a.begin < b.begin || (a.begin == b.begin && a.end > b.end)
  }

  /** The number 'p' is a point of some interval. */
  ghost predicate Has(s: seq<Interval>, p: int) {
    exists k :: 0 <= k < |s| && In(s[k], p)
  }

  /** Non-empty intervals in increasing order, no two of them touching. */
  ghost predicate IsNormal(s: seq<Interval>) {
    && (forall k :: 0 <= k < |s| ==> s[k].begin < s[k].end)
    && (forall k, l :: 0 <= k < l < |s| ==> s[k].end < s[l].begin)
  }

  function Length(i: Interval): int { i.end - i.begin }

  function Total(s: seq<Interval>): int {
    if s == [] then 0 else Total(s[..|s| - 1]) + Length(s[|s| - 1])
  }

  function Min(a: int, b: int): int { if a < b then a else b }

  function Max(a: int, b: int): int { if a < b then b else a }

  // ------------------------------------------------------------ points

  lemma HasAppend(s: seq<Interval>, i: Interval, p: int)
    ensures Has(s + [i], p) <==> Has(s, p) || In(i, p)
  {
    assert (s + [i])[|s|] == i;
    if Has(s, p) {
      var k :| 0 <= k < |s| && In(s[k], p);
      assert (s + [i])[k] == s[k];
    }
  }

  ghost function Range(b: int, e: int): (r: set<int>)
    ensures forall p :: p in r <==> b <= p < e
    decreases e - b
  {
    if b >= e then {} else Range(b, e - 1) + {e - 1}
  }

  lemma {:induction false} RangeSize(b: int, e: int)
    requires b <= e
    ensures |Range(b, e)| == e - b
    decreases e - b
  {
    if b < e {
      RangeSize(b, e - 1);
    }
  }

  ghost function Points(s: seq<Interval>): (r: set<int>)
    ensures forall p :: p in r <==> Has(s, p)
  {
    if s == [] then {}
    else
      var n := |s| - 1;
      assert s == s[..n] + [s[n]];
      assert forall p :: Has(s, p) <==> Has(s[..n], p) || In(s[n], p) by {
        forall p ensures Has(s, p) <==> Has(s[..n], p) || In(s[n], p) { HasAppend(s[..n], s[n], p); }
      }
      Points(s[..n]) + Range(s[n].begin, s[n].end)
  }

  /** The count of a normalized list is the number of its points. */
  lemma {:induction false} TotalIsNumberOfPoints(s: seq<Interval>)
    requires IsNormal(s)
    ensures Total(s) == |Points(s)|
    decreases |s|
  {
    if s != [] {
      var n := |s| - 1;
      TotalIsNumberOfPoints(s[..n]);
      RangeSize(s[n].begin, s[n].end);
      LastIsApart(s);
      hide Has, IsNormal, Range;
    }
  }

  lemma LastIsApart(s: seq<Interval>)
    requires IsNormal(s) && s != []
    ensures var n := |s| - 1; Points(s[..n]) !! Range(s[n].begin, s[n].end)
  {
    var n := |s| - 1;
    forall p | p in Points(s[..n]) ensures p !in Range(s[n].begin, s[n].end) {
      assert Has(s[..n], p);
      var k :| 0 <= k < n && In(s[..n][k], p);
      assert s[k].end < s[n].begin;
    }
  }

  /** The two lists have the same points. */
  ghost predicate SamePoints(s: seq<Interval>, t: seq<Interval>) {
    forall p :: Has(s, p) <==> Has(t, p)
  }

  lemma HasFrom(s: seq<Interval>, p: int)
    requires s != []
    ensures Has(s, p) <==> In(s[0], p) || Has(s[1..], p)
  {
    if Has(s, p) && !In(s[0], p) {
      var k :| 0 <= k < |s| && In(s[k], p);
      assert s[1..][k - 1] == s[k];
    }
  }

  lemma NormalAfter(s: seq<Interval>, p: int)
    requires IsNormal(s) && s != []
    ensures IsNormal(s[1..])
    ensures p <= s[0].end ==> !Has(s[1..], p)
    ensures Has(s, s[0].begin)
  {
    assert In(s[0], s[0].begin);
    if Has(s[1..], p) {
      var k :| 0 <= k < |s[1..]| && In(s[1..][k], p);
      assert s[1..][k] == s[k + 1];
    }
  }

  lemma BelowFirst(s: seq<Interval>, p: int)
    requires IsNormal(s) && s != [] && Has(s, p)
    ensures s[0].begin <= p
  {
    var k :| 0 <= k < |s| && In(s[k], p);
    assert k > 0 ==> s[0].begin < s[0].end < s[k].begin;
  }

  lemma FirstInterval(s: seq<Interval>, t: seq<Interval>)
    requires IsNormal(s) && IsNormal(t) && SamePoints(s, t) && s != []
    ensures t != [] && s[0].begin >= t[0].begin
    ensures s[0].begin == t[0].begin ==> s[0].end <= t[0].end
  {
    NormalAfter(s, 0);
    assert Has(t, s[0].begin);
    assert t != [];
    BelowFirst(t, s[0].begin);
    if s[0].begin == t[0].begin && s[0].end > t[0].end {
      assert In(s[0], t[0].end);
      assert Has(s, t[0].end);
      HasFrom(t, t[0].end);
      NormalAfter(t, t[0].end);
    }
  }

  /** The normal form is canonical: comparing lists compares sets. */
  lemma {:induction false} NormalFormIsCanonical(s: seq<Interval>, t: seq<Interval>)
    requires IsNormal(s) && IsNormal(t)
    ensures SamePoints(s, t) <==> s == t
    decreases |s|
  {
    if SamePoints(s, t) {
      if s == [] {
        if t != [] { FirstInterval(t, s); }
      } else {
        FirstInterval(s, t);
        FirstInterval(t, s);
        assert s[0] == t[0];
        forall p ensures Has(s[1..], p) <==> Has(t[1..], p) {
          HasFrom(s, p);
          HasFrom(t, p);
          NormalAfter(s, p);
          NormalAfter(t, p);
        }
        NormalAfter(s, 0);
        NormalAfter(t, 0);
        NormalFormIsCanonical(s[1..], t[1..]);
        assert s == [s[0]] + s[1..] && t == [t[0]] + t[1..];
      }
    }
  }

  // ------------------------------------------------------------ sorting

  ghost predicate IsSorted(s: seq<Interval>) {
    forall k, l :: 0 <= k < l < |s| ==> !Less(s[l], s[k])
  }

  function InsertSorted(s: seq<Interval>, i: Interval): (r: seq<Interval>)
    ensures |r| == |s| + 1
    ensures multiset(r) == multiset(s) + multiset{i}
  {
    if s == [] then [i]
    else
      var n := |s| - 1;
      assert s == s[..n] + [s[n]];
      if !Less(i, s[n]) then s + [i] else InsertSorted(s[..n], i) + [s[n]]
  }

  ghost predicate AllBelow(s: seq<Interval>, b: Interval) {
    forall k :: 0 <= k < |s| ==> !Less(b, s[k])
  }

  lemma {:induction false} InsertSortedBelow(s: seq<Interval>, i: Interval, b: Interval)
    requires AllBelow(s, b) && !Less(b, i)
    ensures AllBelow(InsertSorted(s, i), b)
    decreases |s|
  {
    if s != [] && Less(i, s[|s| - 1]) { InsertSortedBelow(s[..|s| - 1], i, b); }
  }

  lemma SortedAppend(s: seq<Interval>, b: Interval)
    requires IsSorted(s) && AllBelow(s, b)
    ensures IsSorted(s + [b])
  {
  }

  lemma SortedPrefix(s: seq<Interval>)
    requires IsSorted(s) && s != []
    ensures IsSorted(s[..|s| - 1]) && AllBelow(s[..|s| - 1], s[|s| - 1])
  {
  }

  lemma {:induction false} InsertSortedIsSorted(s: seq<Interval>, i: Interval)
    requires IsSorted(s)
    ensures IsSorted(InsertSorted(s, i))
    decreases |s|
  {
    if s != [] {
      var n := |s| - 1;
      SortedPrefix(s);
      if Less(i, s[n]) {
        InsertSortedIsSorted(s[..n], i);
        InsertSortedBelow(s[..n], i, s[n]);
        SortedAppend(InsertSorted(s[..n], i), s[n]);
      } else {
        BelowLast(s, i);
        SortedAppend(s, i);
      }
    }
  }

  lemma BelowLast(s: seq<Interval>, i: Interval)
    requires IsSorted(s) && s != [] && !Less(i, s[|s| - 1])
    ensures AllBelow(s, i)
  {
  }

  /** What std::sort leaves; the order is total, so there is only one such list. */
  function Sort(s: seq<Interval>): (r: seq<Interval>)
    ensures IsSorted(r) && multiset(r) == multiset(s)
  {
    if s == [] then []
    else
      assert s == s[..|s| - 1] + [s[|s| - 1]];
      InsertSortedIsSorted(Sort(s[..|s| - 1]), s[|s| - 1]);
      InsertSorted(Sort(s[..|s| - 1]), s[|s| - 1])
  }

  lemma SamePointsOfMultiset(s: seq<Interval>, t: seq<Interval>)
    requires multiset(s) == multiset(t)
    ensures SamePoints(s, t)
  {
    forall p ensures Has(s, p) <==> Has(t, p) {
      if Has(s, p) { PointsOfMultiset(s, t, p); }
      if Has(t, p) { PointsOfMultiset(t, s, p); }
    }
  }

  lemma PointsOfMultiset(s: seq<Interval>, t: seq<Interval>, p: int)
    requires multiset(s) == multiset(t) && Has(s, p)
    ensures Has(t, p)
  {
    var k :| 0 <= k < |s| && In(s[k], p);
    assert s[k] in multiset(t);
    assert s[k] in t;
  }


  // ------------------------------------------------------------ what compaction keeps

  /** The first 'size' places hold a normal list with the points of what has been read; all
      that is still to be read begins after it. */
  ghost predicate Compacted(sorted: seq<Interval>, arr: seq<Interval>, size: nat, i: nat) {
    && size <= i <= |sorted| == |arr|
    && IsNormal(arr[..size])
    && SamePoints(arr[..size], sorted[..i])
    && (forall k, l :: 0 <= k < size && i <= l < |sorted| ==> arr[k].end < sorted[l].begin)
    && arr[i..] == sorted[i..]
  }

  lemma CompactedInitially(sorted: seq<Interval>)
    ensures Compacted(sorted, sorted, 0, 0)
  {
  }

  lemma HasPrefix(s: seq<Interval>, i: nat, p: int)
    requires i < |s|
    ensures Has(s[..i + 1], p) <==> Has(s[..i], p) || In(s[i], p)
  {
    assert s[..i + 1] == s[..i] + [s[i]];
    HasAppend(s[..i], s[i], p);
  }

  lemma CompactedSkip(sorted: seq<Interval>, arr: seq<Interval>, size: nat, i: nat)
    requires Compacted(sorted, arr, size, i) && i < |sorted| && sorted[i].begin == sorted[i].end
    ensures Compacted(sorted, arr, size, i + 1)
  {
    forall p ensures Has(arr[..size], p) <==> Has(sorted[..i + 1], p) { HasPrefix(sorted, i, p); }
    assert arr[i + 1..] == arr[i..][1..];
  }

  /** While the inner loop runs: the interval at 'i' has the points of those up to 'j'. */
  ghost predicate Merged(sorted: seq<Interval>, i: nat, j: nat, inti: Interval) {
    && i < j <= |sorted|
    && inti.begin == sorted[i].begin && inti.begin < inti.end
    && (forall p :: In(inti, p) <==> exists k :: i <= k < j && In(sorted[k], p))
  }

  lemma MergedInitially(sorted: seq<Interval>, i: nat)
    requires i < |sorted| && sorted[i].begin < sorted[i].end
    ensures Merged(sorted, i, i + 1, sorted[i])
  {
  }

  lemma MergedStep(sorted: seq<Interval>, i: nat, j: nat, inti: Interval)
    requires IsSorted(sorted) && Merged(sorted, i, j, inti) && j < |sorted| && sorted[j].begin <= inti.end
    ensures Merged(sorted, i, j + 1, Interval(inti.begin, if sorted[j].end > inti.end then sorted[j].end else inti.end))
  {
    var inti' := Interval(inti.begin, if sorted[j].end > inti.end then sorted[j].end else inti.end);
    assert !Less(sorted[j], sorted[i]);
    forall p ensures In(inti', p) <==> exists k :: i <= k < j + 1 && In(sorted[k], p) {
      assert In(inti', p) <==> In(inti, p) || In(sorted[j], p);
    }
  }

  lemma HasUpTo(s: seq<Interval>, i: nat, j: nat, p: int)
    requires i <= j <= |s|
    ensures Has(s[..j], p) <==> Has(s[..i], p) || exists k :: i <= k < j && In(s[k], p)
  {
    if Has(s[..j], p) {
      var k :| 0 <= k < j && In(s[..j][k], p);
      if k < i { assert In(s[..i][k], p); }
    }
    if Has(s[..i], p) {
      var k :| 0 <= k < i && In(s[..i][k], p);
      assert In(s[..j][k], p);
    }
    if k :| i <= k < j && In(s[k], p) { assert In(s[..j][k], p); }
  }

  lemma CompactedNext(sorted: seq<Interval>, arr: seq<Interval>, arr': seq<Interval>, size: nat, i: nat, j: nat, inti: Interval)
    requires IsSorted(sorted) && Compacted(sorted, arr, size, i) && Merged(sorted, i, j, inti)
    requires j < |sorted| ==> sorted[j].begin > inti.end
    requires arr' == arr[i := inti][size := inti]
    ensures Compacted(sorted, arr', size + 1, j)
    ensures Total(arr'[..size + 1]) == Total(arr[..size]) + Length(inti)
  {
    var r := arr'[..size + 1];
    assert r == arr[..size] + [inti];
    assert r[..size] == arr[..size];
    assert IsNormal(r) by {
      forall k | 0 <= k < size ensures arr[k].end < inti.begin { assert arr[k].end < sorted[i].begin; }
    }
    forall p ensures Has(r, p) <==> Has(sorted[..j], p) {
      HasAppend(arr[..size], inti, p);
      HasUpTo(sorted, i, j, p);
    }
    forall k, l | 0 <= k < size + 1 && j <= l < |sorted| ensures arr'[k].end < sorted[l].begin {
      assert l > j ==> !Less(sorted[l], sorted[j]);
    }
    assert arr'[j..] == arr[i..][j - i..];
  }

  lemma CompactedFinally(sorted: seq<Interval>, arr: seq<Interval>, size: nat)
    requires Compacted(sorted, arr, size, |sorted|)
    ensures IsNormal(arr[..size]) && SamePoints(arr[..size], sorted)
  {
    assert sorted[..|sorted|] == sorted;
  }

  // ------------------------------------------------------------ two lists side by side

  /** The first 'i' intervals of 'a' share no point with 'b'. */
  ghost predicate Apart(a: seq<Interval>, b: seq<Interval>, i: nat) {
    i <= |a| && forall k, l :: 0 <= k < i && 0 <= l < |b| ==> a[k].end <= b[l].begin || b[l].end <= a[k].begin
  }

  ghost predicate Meet(a: seq<Interval>, b: seq<Interval>) {
    exists p :: Has(a, p) && Has(b, p)
  }

  /** 'a' has a point outside 'b'. */
  ghost predicate Beyond(a: seq<Interval>, b: seq<Interval>) {
    exists p :: Has(a, p) && !Has(b, p)
  }

  lemma ApartNext(a: seq<Interval>, b: seq<Interval>, i: nat, j: nat)
    requires IsNormal(b) && Apart(a, b, i) && Apart(b, a, j) && i < |a| && j < |b| && a[i].end <= b[j].begin
    ensures Apart(a, b, i + 1)
  {
    forall l | 0 <= l < |b| ensures a[i].end <= b[l].begin || b[l].end <= a[i].begin {
      if l > j { assert b[j].begin < b[j].end < b[l].begin; }
    }
  }

  lemma ApartDoNotMeet(a: seq<Interval>, b: seq<Interval>)
    requires Apart(a, b, |a|)
    ensures !Meet(a, b) && !Meet(b, a)
  {
    forall p | Has(a, p) ensures !Has(b, p) {
      var k :| 0 <= k < |a| && In(a[k], p);
      forall l | 0 <= l < |b| ensures !In(b[l], p) { assert a[k].end <= b[l].begin || b[l].end <= a[k].begin; }
    }
  }

  lemma MeetAt(a: seq<Interval>, b: seq<Interval>, i: nat, j: nat)
    requires IsNormal(a) && IsNormal(b) && i < |a| && j < |b| && a[i].end > b[j].begin && b[j].end > a[i].begin
    ensures Meet(a, b)
  {
    var p := Max(a[i].begin, b[j].begin);
    assert In(a[i], p) && In(b[j], p);
    assert Has(a, p) && Has(b, p);
  }

  /** What is known about the points of 'a' outside 'b' when the first 'i' and 'j' intervals have
      been passed: either one was found, or there is none yet and 'b' ends before a[i]. */
  ghost predicate Half(a: seq<Interval>, b: seq<Interval>, i: nat, j: nat, found: bool) {
    && i <= |a| && j <= |b|
    && (found ==> Beyond(a, b))
    && (!found ==> forall p :: Has(a[..i], p) ==> Has(b, p))
    && (!found ==> Before(b, j, a, i))
  }

  /** The first 'j' intervals of 'b' end where a[i] begins, or before. */
  ghost predicate Before(b: seq<Interval>, j: nat, a: seq<Interval>, i: nat) {
    j <= |b| && forall l :: 0 <= l < j && i < |a| ==> b[l].end <= a[i].begin
  }

  /** A point of a[i] that lies after b[..j] and before b[j]. */
  lemma BeyondAtBegin(a: seq<Interval>, b: seq<Interval>, i: nat, j: nat)
    requires IsNormal(a) && IsNormal(b) && i < |a| && Before(b, j, a, i) && (j < |b| ==> a[i].begin < b[j].begin)
    ensures Beyond(a, b)
  {
    var p := a[i].begin;
    assert In(a[i], p);
    forall l | 0 <= l < |b| ensures !In(b[l], p) {
      if l > j { assert b[j].begin < b[j].end < b[l].begin; }
    }
    assert Has(a, p) && !Has(b, p);
  }

  /** Intervals never touch, so the point where b[j] ends is not in 'b'. */
  lemma BeyondAtEnd(a: seq<Interval>, b: seq<Interval>, i: nat, j: nat)
    requires IsNormal(b) && i < |a| && j < |b| && a[i].begin <= b[j].end < a[i].end
    ensures Beyond(a, b)
  {
    var p := b[j].end;
    assert In(a[i], p);
    forall l | 0 <= l < |b| ensures !In(b[l], p) {
      if l < j { assert b[l].end < b[j].begin < b[j].end; }
      if l > j { assert b[j].end < b[l].begin; }
    }
    assert Has(a, p) && !Has(b, p);
  }

  /** a[i] ends before b[j] begins. */
  lemma HalfFirst(a: seq<Interval>, b: seq<Interval>, i: nat, j: nat, only1: bool, only2: bool)
    requires IsNormal(a) && IsNormal(b) && i < |a| && j < |b| && a[i].end <= b[j].begin
    requires Half(a, b, i, j, only1) && Half(b, a, j, i, only2)
    ensures Half(a, b, i + 1, j, true) && Half(b, a, j, i + 1, only2)
  {
    if !only1 { BeyondAtBegin(a, b, i, j); }
    if !only2 {
      forall l | 0 <= l < i + 1 ensures a[l].end <= b[j].begin { assert l < i ==> a[l].end <= b[j].begin; }
    }
  }

  lemma HalfPass(a: seq<Interval>, b: seq<Interval>, i: nat, j: nat, found: bool)
    requires IsNormal(b) && i < |a| && j < |b| && a[i].end <= b[j].begin && Half(b, a, j, i, found)
    ensures Half(b, a, j, i + 1, found)
  {
    if !found {
      forall l | 0 <= l < i + 1 ensures a[l].end <= b[j].begin { assert l < i ==> a[l].end <= b[j].begin; }
    }
  }

  /** a[i] lies within b[j]; 'j2' is where 'b' goes on. */
  lemma HalfInside(a: seq<Interval>, b: seq<Interval>, i: nat, j: nat, j2: nat, found: bool)
    requires IsNormal(a) && IsNormal(b) && i < |a| && j < |b| && b[j].begin <= a[i].begin && a[i].end <= b[j].end
    requires Half(a, b, i, j, found) && (j2 == j || (j2 == j + 1 && b[j].end == a[i].end))
    ensures Half(a, b, i + 1, j2, found)
  {
    if !found {
      forall p | Has(a[..i + 1], p) ensures Has(b, p) {
        HasPrefix(a, i, p);
        if In(a[i], p) { assert In(b[j], p); }
      }
      forall l | 0 <= l < j2 && i + 1 < |a| ensures b[l].end <= a[i + 1].begin {
        assert a[i].end < a[i + 1].begin;
        assert l < j ==> b[l].end <= a[i].begin;
      }
    }
  }

  /** b[j] reaches beyond a[i], which lies within it. */
  lemma HalfOutside(a: seq<Interval>, b: seq<Interval>, i: nat, j: nat, found: bool)
    requires IsNormal(a) && IsNormal(b) && i < |a| && j < |b| && b[j].begin <= a[i].begin && a[i].end <= b[j].end
    requires a[i] != b[j] && Half(b, a, j, i, found)
    ensures Half(b, a, j, i + 1, true)
  {
    if !found {
      if b[j].begin < a[i].begin { BeyondAtBegin(b, a, j, i); } else { BeyondAtEnd(b, a, j, i); }
    }
  }

  lemma HalfFinally(a: seq<Interval>, b: seq<Interval>, i: nat, j: nat, found: bool)
    requires IsNormal(a) && IsNormal(b) && Half(a, b, i, j, found) && (i == |a| || j == |b|)
    ensures (found || i < |a|) <==> Beyond(a, b)
  {
    if !found {
      if i < |a| { BeyondAtBegin(a, b, i, j); } else { assert a[..i] == a; }
    }
  }

  lemma HalfInitially(a: seq<Interval>, b: seq<Interval>)
    ensures Half(a, b, 0, 0, false)
  {
  }

  /** Points seen by the loop of StrictlyOverlaps. */
  ghost predicate Seen(a: seq<Interval>, b: seq<Interval>, i: nat, j: nat, overlap: bool) {
    (overlap ==> Meet(a, b)) && (!overlap ==> Apart(a, b, i) && Apart(b, a, j))
  }

  lemma ApartAll(a: seq<Interval>, b: seq<Interval>, i: nat, j: nat)
    requires Apart(a, b, i) && Apart(b, a, j) && (i == |a| || j == |b|)
    ensures !Meet(a, b)
  {
    if i == |a| { ApartDoNotMeet(a, b); } else { ApartDoNotMeet(b, a); }
  }

  // ------------------------------------------------------------ intersection and complement

  /** The common points are those stored already and those of the rests. */
  ghost predicate Common(a: seq<Interval>, b: seq<Interval>, i: nat, j: nat, o: seq<Interval>) {
    && i <= |a| && j <= |b| && IsNormal(o)
    && (forall p :: Has(a, p) && Has(b, p) <==> Has(o, p) || (Has(a[i..], p) && Has(b[j..], p)))
    && (o != [] ==> (i < |a| ==> o[|o| - 1].end < a[i].begin) || (j < |b| ==> o[|o| - 1].end < b[j].begin))
  }

  lemma CommonInitially(a: seq<Interval>, b: seq<Interval>)
    ensures Common(a, b, 0, 0, [])
  {
    assert a[0..] == a && b[0..] == b;
  }

  lemma CommonSwap(a: seq<Interval>, b: seq<Interval>, i: nat, j: nat, o: seq<Interval>)
    requires Common(a, b, i, j, o)
    ensures Common(b, a, j, i, o)
  {
  }

  lemma RestSplit(a: seq<Interval>, i: nat, p: int)
    requires i < |a|
    ensures Has(a[i..], p) <==> In(a[i], p) || Has(a[i + 1..], p)
  {
    HasFrom(a[i..], p);
    assert a[i..][1..] == a[i + 1..];
  }

  lemma RestIsAfter(a: seq<Interval>, i: nat, p: int)
    requires IsNormal(a) && i < |a|
    ensures Has(a[i..], p) ==> p >= a[i].begin
    ensures Has(a[i + 1..], p) ==> p > a[i].end
  {
    if Has(a[i..], p) {
      var k :| 0 <= k < |a[i..]| && In(a[i..][k], p);
      if k > 0 { assert a[i].end < a[i + k].begin; }
    }
    if Has(a[i + 1..], p) {
      var k :| 0 <= k < |a[i + 1..]| && In(a[i + 1..][k], p);
      assert a[i].end < a[i + 1 + k].begin;
    }
  }

  /** a[i] shares no point with what is left of 'b'. */
  lemma CommonPass(a: seq<Interval>, b: seq<Interval>, i: nat, j: nat, o: seq<Interval>)
    requires IsNormal(a) && IsNormal(b) && Common(a, b, i, j, o) && i < |a| && j < |b| && a[i].end <= b[j].begin
    ensures Common(a, b, i + 1, j, o)
  {
    forall p ensures Has(a, p) && Has(b, p) <==> Has(o, p) || (Has(a[i + 1..], p) && Has(b[j..], p)) {
      RestSplit(a, i, p);
      RestIsAfter(b, j, p);
    }
    if i + 1 < |a| { assert a[i].begin < a[i].end < a[i + 1].begin; }
  }

  /** a[i] and b[j] overlap, and a[i] does not end later: their common part is stored. */
  lemma CommonPush(a: seq<Interval>, b: seq<Interval>, i: nat, j: nat, o: seq<Interval>)
    requires IsNormal(a) && IsNormal(b) && Common(a, b, i, j, o) && i < |a| && j < |b|
    requires a[i].end > b[j].begin && b[j].end > a[i].begin && a[i].end <= b[j].end
    ensures var x := Interval(Max(a[i].begin, b[j].begin), a[i].end); Common(a, b, i + 1, j, o + [x])
  {
    var x := Interval(Max(a[i].begin, b[j].begin), a[i].end);
    if i + 1 < |a| { assert a[i].end < a[i + 1].begin; }
    assert x.begin < x.end by { assert a[i].begin < a[i].end && b[j].begin < b[j].end; }
    assert o != [] ==> o[|o| - 1].end < x.begin;
    hide IsNormal, Has, Total;
    forall p ensures Has(a, p) && Has(b, p) <==> Has(o + [x], p) || (Has(a[i + 1..], p) && Has(b[j..], p)) {
      RestSplit(a, i, p);
      RestSplit(b, j, p);
      RestIsAfter(b, j, p);
      HasAppend(o, x, p);
    }
    NormalAppend(o, x);
  }

  lemma NormalAppend(o: seq<Interval>, x: Interval)
    requires IsNormal(o) && x.begin < x.end && (o != [] ==> o[|o| - 1].end < x.begin)
    ensures IsNormal(o + [x]) && Total(o + [x]) == Total(o) + Length(x)
  {
    hide Total, IsNormal;
    TotalAppend(o, x);
    NormalAppendOnly(o, x);
  }

  lemma NormalAppendOnly(o: seq<Interval>, x: Interval)
    requires IsNormal(o) && x.begin < x.end && (o != [] ==> o[|o| - 1].end < x.begin)
    ensures IsNormal(o + [x])
  {
    var n := |o|;
    forall k | 0 <= k < n ensures o[k].end < x.begin {
      if k < n - 1 { assert o[k].end < o[n - 1].begin < o[n - 1].end; }
    }
    var r := o + [x];
    forall k, l | 0 <= k < l < |r| ensures r[k].end < r[l].begin {
      if l < n { assert o[k].end < o[l].begin; }
    }
  }

  lemma CommonFinally(a: seq<Interval>, b: seq<Interval>, i: nat, j: nat, o: seq<Interval>)
    requires Common(a, b, i, j, o) && (i == |a| || j == |b|)
    ensures IsNormal(o) && forall p :: Has(o, p) <==> Has(a, p) && Has(b, p)
  {
  }

  /** 'p' is not negative, or comes after one of the first 'i' intervals. */
  ghost predicate NotBelow(a: seq<Interval>, i: nat, p: int)
    requires i <= |a|
  {
    p >= 0 || exists k :: 0 <= k < i && a[k].end <= p
  }

  /** The gaps before 'begin' have been stored. */
  ghost predicate Gaps(a: seq<Interval>, i: nat, maxval: int, begin: int, o: seq<Interval>) {
    && i <= |a| && IsNormal(o)
    && begin == (if i == 0 then 0 else a[i - 1].end)
    && (forall p :: Has(o, p) <==> p < maxval && p < begin && NotBelow(a, i, p) && !Has(a[..i], p))
    && (o != [] ==> i > 0 && o[|o| - 1].end < begin)
  }

  function Gap(begin: int, end: int): seq<Interval> {
    if begin < end then [Interval(begin, end)] else []
  }

  lemma HasGap(o: seq<Interval>, begin: int, end: int, p: int)
    ensures Has(o + Gap(begin, end), p) <==> Has(o, p) || begin <= p < end
  {
    if begin < end { HasAppend(o, Interval(begin, end), p); } else { assert o + [] == o; }
  }

  lemma PassedAreBefore(a: seq<Interval>, i: nat, p: int)
    requires IsNormal(a) && 0 < i <= |a| && p >= a[i - 1].end
    ensures !Has(a[..i], p)
  {
    assert a[i - 1].begin < a[i - 1].end;
    forall k | 0 <= k < i ensures !In(a[..i][k], p) { assert k < i - 1 ==> a[k].end < a[i - 1].begin; }
  }

  lemma GapsPoint(a: seq<Interval>, i: nat, maxval: int, begin: int, o: seq<Interval>, p: int)
    requires IsNormal(a) && i < |a| && Gaps(a, i, maxval, begin, o)
    ensures Has(o + Gap(begin, Min(a[i].begin, maxval)), p)
            <==> p < maxval && p < a[i].end && NotBelow(a, i + 1, p) && !Has(a[..i + 1], p)
  {
    assert i > 0 ==> a[i - 1].end < a[i].begin;
    assert a[i].begin < a[i].end;
    assert Has(o, p) <==> p < maxval && p < begin && NotBelow(a, i, p) && !Has(a[..i], p);
    HasGap(o, begin, Min(a[i].begin, maxval), p);
    HasPrefix(a, i, p);
    if p >= begin && i > 0 { PassedAreBefore(a, i, p); }
    NotBelowNext(a, i, p);
    assert i == 0 ==> (NotBelow(a, 0, p) <==> p >= 0) && !Has(a[..0], p);
    hide IsNormal, Has, NotBelow, Gaps;
  }

  lemma GapsNext(a: seq<Interval>, i: nat, maxval: int, begin: int, o: seq<Interval>)
    requires IsNormal(a) && i < |a| && Gaps(a, i, maxval, begin, o)
    ensures Gaps(a, i + 1, maxval, a[i].end, o + Gap(begin, Min(a[i].begin, maxval)))
  {
    var o' := o + Gap(begin, Min(a[i].begin, maxval));
    assert i > 0 ==> a[i - 1].end < a[i].begin;
    assert a[i].begin < a[i].end;
    assert IsNormal(o') by {
      if begin < Min(a[i].begin, maxval) { NormalAppend(o, Interval(begin, Min(a[i].begin, maxval))); } else { assert o' == o; }
    }
    assert o' != [] ==> o'[|o'| - 1].end < a[i].end;
    hide IsNormal, Has, NotBelow;
    forall p ensures Has(o', p) <==> p < maxval && p < a[i].end && NotBelow(a, i + 1, p) && !Has(a[..i + 1], p) {
      GapsPoint(a, i, maxval, begin, o, p);
    }
  }

  lemma NotBelowNext(a: seq<Interval>, i: nat, p: int)
    requires i < |a|
    ensures NotBelow(a, i + 1, p) <==> NotBelow(a, i, p) || a[i].end <= p
    ensures i > 0 && p >= a[i - 1].end ==> NotBelow(a, i, p)
  {
  }

  lemma GapsFinally(a: seq<Interval>, maxval: int, begin: int, o: seq<Interval>)
    requires IsNormal(a) && Gaps(a, |a|, maxval, begin, o)
    ensures var r := o + Gap(begin, maxval);
            IsNormal(r) && forall p :: Has(r, p) <==> p < maxval && NotBelow(a, |a|, p) && !Has(a, p)
  {
    var r := o + Gap(begin, maxval);
    assert a[..|a|] == a;
    forall p ensures Has(r, p) <==> p < maxval && NotBelow(a, |a|, p) && !Has(a, p) {
      HasGap(o, begin, maxval, p);
      if p >= begin && |a| > 0 {
        PassedAreBefore(a, |a|, p);
        assert a[|a| - 1].end <= p;
      }
    }
    if begin < maxval { NormalAppend(o, Interval(begin, maxval)); }
  }

  // ------------------------------------------------------------ the class

  class IntervalSet {
    var intervals: seq<Interval>
    var count: int

    constructor ()
      ensures intervals == [] && count == -1
    {
      intervals, count := [], -1;
    }

    /** What the other operations require of their arguments, and leave in their results. */
    ghost predicate Normalized()
      reads this
    {
      IsNormal(intervals) && count == Total(intervals)
    }

    /** Adds an interval set to the set; the result may not be normalized. */
    method Union(other: IntervalSet)
      modifies this
      ensures forall p :: Has(intervals, p) <==> old(Has(intervals, p)) || old(Has(other.intervals, p))
      ensures count == old(count)
    {
      forall p ensures Has(intervals + other.intervals, p) <==> Has(intervals, p) || Has(other.intervals, p) {
        HasConcat(intervals, other.intervals, p);
      }
      intervals := intervals + other.intervals;
    }

    /** Extends the interval at 'i0' in place over those that overlap or touch it, and says
        which of them is the last. */
    method Absorb(ghost sorted: seq<Interval>, i0: nat) returns (i: nat)
      requires IsSorted(sorted) && i0 < |intervals| == |sorted| && intervals[i0].begin < intervals[i0].end
      requires forall k :: i0 <= k < |sorted| ==> intervals[k] == sorted[k]
      modifies this`intervals
      ensures i0 <= i < |intervals| == |sorted| && intervals == old(intervals)[i0 := intervals[i0]]
      ensures Merged(sorted, i0, i + 1, intervals[i0])
      ensures i + 1 < |sorted| ==> sorted[i + 1].begin > intervals[i0].end
    {
      hide Merged, IsSorted;
      i := i0;
      MergedInitially(sorted, i0);
      var j := i + 1;
      while j < |intervals| && intervals[j].begin <= intervals[i0].end
        invariant i0 <= i < |intervals| == |sorted| && j == i + 1
        invariant intervals == old(intervals)[i0 := intervals[i0]]
        invariant Merged(sorted, i0, j, intervals[i0])
        decreases |intervals| - j
      {
        MergedStep(sorted, i0, j, intervals[i0]);
        if intervals[j].end > intervals[i0].end {
          intervals := intervals[i0 := Interval(intervals[i0].begin, intervals[j].end)];
        }
        i := i + 1;
        j := j + 1;
      }
    }

    /** The call of std::sort. */
    method SortIntervals()
      requires forall k :: 0 <= k < |intervals| ==> intervals[k].begin <= intervals[k].end
      modifies this`intervals
      ensures IsSorted(intervals) && SamePoints(intervals, old(intervals))
      ensures multiset(intervals) == multiset(old(intervals))
      ensures forall k :: 0 <= k < |intervals| ==> intervals[k].begin <= intervals[k].end
    {
      intervals := Sort(intervals);
      SamePointsOfMultiset(intervals, old(intervals));
      SortedWellFormed(intervals, old(intervals));
    }

    /** Collapses the intervals from position 'i' on that make up one, and stores it at 'size'. */
    method CollapseOne(ghost sorted: seq<Interval>, size: nat, i: nat) returns (next: nat)
      requires IsSorted(sorted) && Compacted(sorted, intervals, size, i)
      requires i < |intervals| && intervals[i].begin < intervals[i].end
      requires count == Total(intervals[..size])
      modifies this
      ensures i < next <= |intervals| == |sorted| && size + 1 <= next
      ensures Compacted(sorted, intervals, size + 1, next)
      ensures count == Total(intervals[..size + 1])
    {
      CompactedReads(sorted, intervals, size, i);
      hide Compacted, Merged, IsSorted, Total;
      ghost var arr := intervals;
      var last := Absorb(sorted, i);
      var inti := intervals[i];
      intervals := intervals[size := inti];
      CompactedNext(sorted, arr, intervals, size, i, last + 1, inti);
      count := count + Length(inti);
      next := last + 1;
    }

    /** Sorts, collapses overlapping and adjacent intervals, and sets the count. */
    method Normalize()
      requires forall k :: 0 <= k < |intervals| ==> intervals[k].begin <= intervals[k].end
      modifies this
      ensures Normalized()
      ensures SamePoints(intervals, old(intervals))
    {
      hide Compacted, IsSorted, SamePoints, IsNormal, Has, Total;
      SortIntervals();
      ghost var sorted := intervals;
      var size := 0;
      count := 0;
      var i := 0;
      CompactedInitially(sorted);
      TotalOfNone(intervals);
      while i < |intervals|
        invariant size <= i <= |intervals| == |sorted|
        invariant Compacted(sorted, intervals, size, i)
        invariant count == Total(intervals[..size])
        decreases |sorted| - i
      {
        CompactedReads(sorted, intervals, size, i);
        if intervals[i].begin == intervals[i].end {
          CompactedSkip(sorted, intervals, size, i);
          i := i + 1;
        } else {
          i := CollapseOne(sorted, size, i);
          size := size + 1;
        }
      }
      CompactedFinally(sorted, intervals, size);
      SamePointsTrans(intervals[..size], sorted, old(intervals));
      intervals := intervals[..size];
    }

    /** std::lower_bound over the intervals. */
    method LowerBound(x: Interval) returns (lb: nat)
      requires IsNormal(intervals)
      ensures lb <= |intervals|
      ensures forall k :: 0 <= k < lb ==> Less(intervals[k], x)
      ensures forall k :: lb <= k < |intervals| ==> !Less(intervals[k], x)
    {
      lb := 0;
      var len := |intervals|;
      while len > 0
        invariant 0 <= lb <= lb + len <= |intervals|
        invariant forall k :: 0 <= k < lb ==> Less(intervals[k], x)
        invariant forall k :: lb + len <= k < |intervals| ==> !Less(intervals[k], x)
      {
        var half := len / 2;
        var mid := lb + half;
        NormalIsIncreasing(intervals, mid);
        if Less(intervals[mid], x) {
          lb, len := mid + 1, len - half - 1;
        } else {
          len := half;
        }
      }
    }

    /** Binary search decides membership. */
    method Member(value: int) returns (r: bool)
      requires IsNormal(intervals)
      ensures r <==> Has(intervals, value)
    {
      var lb := LowerBound(Interval(value, value));
      MemberAt(intervals, value, lb);
      if lb == 0 { return false; }
      r := intervals[lb - 1].end > value;
    }

    method Intersect(other: IntervalSet, oset: IntervalSet)
      requires IsNormal(intervals) && IsNormal(other.intervals)
      requires oset != this && oset != other
      modifies oset
      ensures oset.Normalized()
      ensures forall p :: Has(oset.intervals, p) <==> Has(intervals, p) && Has(other.intervals, p)
    {
      var it1, it2 := intervals, other.intervals;
      var i, j := 0, 0;
      hide Common, Has, IsNormal, Total;
      var o, n := [], 0;
      CommonInitially(it1, it2);
      TotalOfNone([]);
      while i < |it1| && j < |it2|
        invariant i <= |it1| && j <= |it2|
        invariant Common(it1, it2, i, j, o) && n == Total(o)
        decreases |it1| - i + |it2| - j
      {
        CommonSwap(it1, it2, i, j, o);
        if it1[i].end <= it2[j].begin {
          CommonPass(it1, it2, i, j, o);
          i := i + 1;
        } else if it2[j].end <= it1[i].begin {
          CommonPass(it2, it1, j, i, o);
          CommonSwap(it2, it1, j + 1, i, o);
          j := j + 1;
        } else {
          var x := Interval(Max(it1[i].begin, it2[j].begin), Min(it1[i].end, it2[j].end));
          TotalAppend(o, x);
          if it1[i].end < it2[j].end {
            CommonPush(it1, it2, i, j, o);
          } else {
            CommonPush(it2, it1, j, i, o);
            CommonSwap(it2, it1, j + 1, i, o + [x]);
          }
          o := o + [x];
          n := n + x.end - x.begin;
          if it1[i].end < it2[j].end { i := i + 1; } else { j := j + 1; }
        }
      }
      CommonFinally(it1, it2, i, j, o);
      oset.intervals, oset.count := o, n;
    }

    /** The numbers below 'maxval' that are not in the set; negative ones among them only where
        they come after an interval that ends below zero. */
    method Complement(maxval: int, oset: IntervalSet)
      requires IsNormal(intervals) && oset != this
      modifies oset
      ensures oset.Normalized()
      ensures forall p :: Has(oset.intervals, p) <==>
                p < maxval && NotBelow(intervals, |intervals|, p) && !Has(intervals, p)
    {
      var it := intervals;
      hide Has, IsNormal, Total, Gaps;
      var o, n, begin := [], 0, 0;
      var i := 0;
      GapsInitially(it, maxval);
      TotalOfNone([]);
      while i < |it|
        invariant i <= |it| && Gaps(it, i, maxval, begin, o) && n == Total(o)
      {
        GapsNext(it, i, maxval, begin, o);
        var end := Min(it[i].begin, maxval);
        if begin < end {
          TotalAppend(o, Interval(begin, end));
          o := o + [Interval(begin, end)];
          n := n + end - begin;
        } else {
          assert o + Gap(begin, end) == o;
        }
        begin := it[i].end;
        i := i + 1;
      }
      GapsFinally(it, maxval, begin, o);
      if begin < maxval {
        TotalAppend(o, Interval(begin, maxval));
        o := o + [Interval(begin, maxval)];
        n := n + maxval - begin;
      } else {
        assert o + Gap(begin, maxval) == o;
      }
      oset.intervals, oset.count := o, n;
    }

    /** The points of this set that are not in the other, as far as the complement knows them. */
    method Difference(other: IntervalSet, oset: IntervalSet)
      requires IsNormal(intervals) && IsNormal(other.intervals)
      requires oset != this && oset != other
      modifies oset
      ensures oset.Normalized()
      ensures forall p :: Has(oset.intervals, p) <==>
                Has(intervals, p) && !Has(other.intervals, p) && NotBelow(other.intervals, |other.intervals|, p)
    {
      if |intervals| == 0 {
        oset.intervals, oset.count := [], 0;
      } else {
        var cset := new IntervalSet();
        var end := intervals[|intervals| - 1].end;
        other.Complement(end, cset);
        Intersect(cset, oset);
        forall p | Has(intervals, p) ensures p < end { BelowLastEnd(intervals, p); }
      }
    }

    /** True iff the sets share a point. */
    method Overlaps(other: IntervalSet) returns (r: bool)
      requires IsNormal(intervals) && IsNormal(other.intervals)
      ensures r <==> Meet(intervals, other.intervals)
    {
      var it1, it2 := intervals, other.intervals;
      var i, j := 0, 0;
      hide Meet, IsNormal;
      while i < |it1| && j < |it2|
        invariant i <= |it1| && j <= |it2| && Apart(it1, it2, i) && Apart(it2, it1, j)
        decreases |it1| - i + |it2| - j
      {
        if it1[i].end <= it2[j].begin {
          ApartNext(it1, it2, i, j);
          i := i + 1;
        } else if it2[j].end <= it1[i].begin {
          ApartNext(it2, it1, j, i);
          j := j + 1;
        } else {
          MeetAt(it1, it2, i, j);
          return true;
        }
      }
      ApartAll(it1, it2, i, j);
      return false;
    }

    /** True iff the sets share a point and each has one outside the other. */
    method StrictlyOverlaps(other: IntervalSet) returns (r: bool)
      requires IsNormal(intervals) && IsNormal(other.intervals)
      ensures r <==> Meet(intervals, other.intervals)
                     && Beyond(intervals, other.intervals) && Beyond(other.intervals, intervals)
    {
      var it1, it2 := intervals, other.intervals;
      var i, j := 0, 0;
      var only1, only2, overlap := false, false, false;
      HalfInitially(it1, it2);
      HalfInitially(it2, it1);
      hide Meet, Beyond, IsNormal, Half, Before, Has;
      while i < |it1| && j < |it2|
        invariant i <= |it1| && j <= |it2|
        invariant Half(it1, it2, i, j, only1) && Half(it2, it1, j, i, only2) && Seen(it1, it2, i, j, overlap)
        decreases |it1| - i + |it2| - j
      {
        if it1[i].end <= it2[j].begin {
          HalfFirst(it1, it2, i, j, only1, only2);
          SeenPass(it1, it2, i, j, overlap);
          only1 := true;
          i := i + 1;
        } else if it2[j].end <= it1[i].begin {
          HalfFirst(it2, it1, j, i, only2, only1);
          SeenSwap(it1, it2, i, j, overlap);
          SeenPass(it2, it1, j, i, overlap);
          SeenSwap(it2, it1, j + 1, i, overlap);
          only2 := true;
          j := j + 1;
        } else {
          MeetAt(it1, it2, i, j);
          overlap := true;
          if it2[j].begin == it1[i].begin && it2[j].end == it1[i].end {
            HalfInside(it1, it2, i, j, j + 1, only1);
            HalfInside(it2, it1, j, i, i + 1, only2);
            i, j := i + 1, j + 1;
          } else if it2[j].begin <= it1[i].begin && it2[j].end >= it1[i].end {
            HalfOutside(it1, it2, i, j, only2);
            HalfInside(it1, it2, i, j, j, only1);
            only2 := true;
            i := i + 1;
          } else if it1[i].begin <= it2[j].begin && it1[i].end >= it2[j].end {
            HalfOutside(it2, it1, j, i, only1);
            HalfInside(it2, it1, j, i, i, only2);
            only1 := true;
            j := j + 1;
          } else {
            CrossingReachesBeyond(it1, it2, i, j);
            only1, only2 := true, true;
            return true;
          }
        }
        if only1 && only2 && overlap {
          FoundAll(it1, it2, i, j);
          return true;
        }
      }
      HalfFinally(it1, it2, i, j, only1);
      HalfFinally(it2, it1, j, i, only2);
      if !overlap { ApartAll(it1, it2, i, j); }
      if i < |it1| { only1 := true; }
      if j < |it2| { only2 := true; }
      r := only1 && only2 && overlap;
    }

    /** True iff every point of the other set is in this one. */
    method Contains(other: IntervalSet) returns (r: bool)
      requires Normalized() && other.Normalized()
      ensures r <==> forall p :: Has(other.intervals, p) ==> Has(intervals, p)
    {
      var it1, it2 := intervals, other.intervals;
      if other.count > count {
        TooManyPoints(it1, it2);
        return false;
      }
      var i, j := 0, 0;
      HalfInitially(it2, it1);
      hide IsNormal, Half, Before, Has, Total;
      while i < |it1| && j < |it2|
        invariant i <= |it1| && j <= |it2| && Half(it2, it1, j, i, false)
        decreases |it1| - i + |it2| - j
      {
        if it1[i].end <= it2[j].begin {
          HalfPass(it1, it2, i, j, false);
          i := i + 1;
        } else if it2[j].begin < it1[i].begin || it2[j].end > it1[i].end {
          NotInside(it1, it2, i, j);
          return false;
        } else if it2[j].end == it1[i].end {
          HalfInside(it2, it1, j, i, i + 1, false);
          i, j := i + 1, j + 1;
        } else {
          HalfInside(it2, it1, j, i, i, false);
          j := j + 1;
        }
      }
      HalfFinally(it2, it1, j, i, false);
      r := j == |it2|;
    }
  }

  lemma NotInside(a: seq<Interval>, b: seq<Interval>, i: nat, j: nat)
    requires IsNormal(a) && IsNormal(b) && i < |a| && j < |b| && Half(b, a, j, i, false)
    requires a[i].end > b[j].begin && (b[j].begin < a[i].begin || b[j].end > a[i].end)
    ensures Beyond(b, a)
  {
    if b[j].begin < a[i].begin { BeyondAtBegin(b, a, j, i); } else { BeyondAtEnd(b, a, j, i); }
  }

  lemma TooManyPoints(a: seq<Interval>, b: seq<Interval>)
    requires IsNormal(a) && IsNormal(b) && Total(b) > Total(a)
    ensures Beyond(b, a)
  {
    TotalIsNumberOfPoints(a);
    TotalIsNumberOfPoints(b);
    if Points(b) <= Points(a) {
      SubsetIsSmaller(Points(b), Points(a));
    }
    if !Beyond(b, a) {
      assert forall p :: p in Points(b) ==> Has(b, p);
    }
  }

  /** Two intervals that overlap, neither inside the other: both sets have points of their own. */
  lemma CrossingReachesBeyond(a: seq<Interval>, b: seq<Interval>, i: nat, j: nat)
    requires IsNormal(a) && IsNormal(b) && i < |a| && j < |b| && a[i].end > b[j].begin && b[j].end > a[i].begin
    requires !(b[j].begin <= a[i].begin && b[j].end >= a[i].end) && !(a[i].begin <= b[j].begin && a[i].end >= b[j].end)
    ensures Beyond(a, b) && Beyond(b, a) && Meet(a, b)
  {
    MeetAt(a, b, i, j);
    if a[i].begin < b[j].begin {
      BeyondAtEnd(b, a, j, i);
      BeyondJustBefore(a, b, i, j);
    } else {
      BeyondAtEnd(a, b, i, j);
      BeyondJustBefore(b, a, j, i);
    }
  }

  /** Intervals never touch, so the number just before b[j] is not in 'b'. */
  lemma BeyondJustBefore(a: seq<Interval>, b: seq<Interval>, i: nat, j: nat)
    requires IsNormal(b) && i < |a| && j < |b| && a[i].begin < b[j].begin < a[i].end
    ensures Beyond(a, b)
  {
    var p := b[j].begin - 1;
    assert In(a[i], p);
    forall l | 0 <= l < |b| ensures !In(b[l], p) {
      if l < j { assert b[l].end < b[j].begin; }
      if l > j { assert b[j].begin < b[j].end < b[l].begin; }
    }
    assert Has(a, p) && !Has(b, p);
  }

  lemma FoundAll(a: seq<Interval>, b: seq<Interval>, i: nat, j: nat)
    requires Half(a, b, i, j, true) && Half(b, a, j, i, true) && Seen(a, b, i, j, true)
    ensures Meet(a, b) && Beyond(a, b) && Beyond(b, a)
  {
  }

  lemma SeenPass(a: seq<Interval>, b: seq<Interval>, i: nat, j: nat, overlap: bool)
    requires IsNormal(b) && Seen(a, b, i, j, overlap) && i < |a| && j < |b| && a[i].end <= b[j].begin
    ensures Seen(a, b, i + 1, j, overlap)
  {
    if !overlap { ApartNext(a, b, i, j); }
  }

  lemma SeenSwap(a: seq<Interval>, b: seq<Interval>, i: nat, j: nat, overlap: bool)
    requires Seen(a, b, i, j, overlap)
    ensures Seen(b, a, j, i, overlap)
  {
  }

  lemma NormalIsIncreasing(s: seq<Interval>, mid: nat)
    requires IsNormal(s) && mid < |s|
    ensures forall k :: 0 <= k < mid ==> s[k].begin < s[mid].begin
    ensures forall k :: mid < k < |s| ==> s[mid].begin < s[k].begin
  {
    forall k | 0 <= k < mid ensures s[k].begin < s[mid].begin { assert s[k].begin < s[k].end < s[mid].begin; }
    forall k | mid < k < |s| ensures s[mid].begin < s[k].begin { assert s[mid].begin < s[mid].end < s[k].begin; }
  }

  /** Only the interval before the lower bound can hold the value. */
  lemma MemberAt(s: seq<Interval>, value: int, lb: nat)
    requires IsNormal(s) && lb <= |s|
    requires forall k :: 0 <= k < lb ==> Less(s[k], Interval(value, value))
    requires forall k :: lb <= k < |s| ==> !Less(s[k], Interval(value, value))
    ensures Has(s, value) <==> lb > 0 && s[lb - 1].end > value
  {
    if lb > 0 && s[lb - 1].end > value {
      assert In(s[lb - 1], value);
    }
    if Has(s, value) {
      var k :| 0 <= k < |s| && In(s[k], value);
      assert k < lb;
      assert k < lb - 1 ==> s[k].end < s[lb - 1].begin;
    }
  }

  lemma TotalAppend(o: seq<Interval>, x: Interval)
    ensures Total(o + [x]) == Total(o) + Length(x)
  {
    assert (o + [x])[..|o|] == o;
  }

  lemma GapsInitially(a: seq<Interval>, maxval: int)
    ensures Gaps(a, 0, maxval, 0, [])
  {
  }

  lemma BelowLastEnd(s: seq<Interval>, p: int)
    requires IsNormal(s) && s != [] && Has(s, p)
    ensures p < s[|s| - 1].end
  {
    var k :| 0 <= k < |s| && In(s[k], p);
    if k < |s| - 1 { assert s[k].end < s[|s| - 1].begin < s[|s| - 1].end; }
  }

  // ------------------------------------------------------------ negative numbers

  /** Complement answers [0, maxval) minus the set iff no interval ends below both 0 and 'maxval'. */
  lemma ComplementIsExactWhen(a: seq<Interval>, maxval: int)
    requires IsNormal(a)
    ensures (forall p :: (p < maxval && NotBelow(a, |a|, p) && !Has(a, p)) <==> (0 <= p < maxval && !Has(a, p)))
            <==> (forall k :: 0 <= k < |a| ==> a[k].end >= 0 || a[k].end >= maxval)
  {
    forall k | 0 <= k < |a| && a[k].end < 0 && a[k].end < maxval
      ensures var p := a[k].end; p < maxval && NotBelow(a, |a|, p) && !Has(a, p)
    {
      EndIsOutside(a, k);
    }
  }

  /** The intervals [-5, -3), within [0, 10), and [-5, -3) with nothing taken out. */
  lemma NegativeExample()
    ensures var a := [Interval(-5, -3)];
            && IsNormal(a)
            && !(forall p :: (p < 10 && NotBelow(a, |a|, p) && !Has(a, p)) <==> (0 <= p < 10 && !Has(a, p)))
            && !(forall p :: Has(a, p) && !Has([], p) ==> NotBelow([], 0, p))
  {
    var a := [Interval(-5, -3)];
    assert IsNormal(a);
    ComplementIsExactWhen(a, 10);
    assert a[0].end == -3;
    DifferenceIsExactWhen(a, []);
    assert a[0].begin == -5;
  }

  lemma EndIsOutside(a: seq<Interval>, k: nat)
    requires IsNormal(a) && k < |a|
    ensures !Has(a, a[k].end)
  {
    forall l | 0 <= l < |a| ensures !In(a[l], a[k].end) {
      if l < k { assert a[l].end < a[k].begin < a[k].end; }
      if l > k { assert a[k].end < a[l].begin; }
    }
  }

  /** Difference answers the set difference iff this set begins at 0 or later, or not before the
      other does. */
  lemma DifferenceIsExactWhen(a: seq<Interval>, b: seq<Interval>)
    requires IsNormal(a) && IsNormal(b)
    ensures (forall p :: Has(a, p) && !Has(b, p) ==> NotBelow(b, |b|, p))
            <==> (a == [] || a[0].begin >= 0 || (b != [] && b[0].begin <= a[0].begin))
  {
    if a != [] && a[0].begin < 0 && (b == [] || a[0].begin < b[0].begin) {
      var p := a[0].begin;
      assert In(a[0], p);
      assert Has(a, p);
      forall l | 0 <= l < |b| ensures !In(b[l], p) && b[l].end > p {
        if l > 0 { assert b[0].begin < b[0].end < b[l].begin < b[l].end; }
      }
      assert !Has(b, p) && !NotBelow(b, |b|, p);
    } else if a != [] {
      forall p | Has(a, p) && !Has(b, p) ensures NotBelow(b, |b|, p) {
        BelowFirst(a, p);
        if p < 0 { assert !In(b[0], p); }
      }
    }
  }

  lemma HasConcat(s: seq<Interval>, t: seq<Interval>, p: int)
    ensures Has(s + t, p) <==> Has(s, p) || Has(t, p)
  {
    if Has(s, p) {
      var k :| 0 <= k < |s| && In(s[k], p);
      assert In((s + t)[k], p);
    }
    if Has(t, p) {
      var k :| 0 <= k < |t| && In(t[k], p);
      assert In((s + t)[|s| + k], p);
    }
  }

  lemma SortedWellFormed(sorted: seq<Interval>, s: seq<Interval>)
    requires multiset(sorted) == multiset(s) && forall k :: 0 <= k < |s| ==> s[k].begin <= s[k].end
    ensures forall k :: 0 <= k < |sorted| ==> sorted[k].begin <= sorted[k].end
  {
    forall k | 0 <= k < |sorted| ensures sorted[k].begin <= sorted[k].end {
      assert sorted[k] in multiset(s);
      assert sorted[k] in s;
    }
  }

  lemma TotalOfNone(s: seq<Interval>)
    ensures Total(s[..0]) == 0
  {
  }

  lemma CompactedReads(sorted: seq<Interval>, arr: seq<Interval>, size: nat, i: nat)
    requires Compacted(sorted, arr, size, i)
    ensures size <= i <= |arr| == |sorted|
    ensures forall k :: i <= k < |arr| ==> arr[k] == sorted[k]
  {
    forall k | i <= k < |arr| ensures arr[k] == sorted[k] { assert arr[k] == arr[i..][k - i] == sorted[i..][k - i]; }
  }

  lemma SamePointsTrans(s: seq<Interval>, t: seq<Interval>, u: seq<Interval>)
    requires SamePoints(s, t) && SamePoints(t, u)
    ensures SamePoints(s, u)
  {
  }
}
