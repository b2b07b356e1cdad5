/** Which arcs of a sorted range carry a label that can be reached: two search strategies. */
module LabelReach {
  import opened Fst
  import opened IntervalSets

  /** A range of arcs is searched for labels that lie in a set of intervals. */
  datatype Query<!W> = Query(arcs: seq<Arc<W>>, input: bool, s: seq<Interval>, zero: W, plus: (W, W) -> W) {

    function LabelAt(k: nat): int
      requires k < |arcs|
    {
      MatchLabel(arcs[k], input)
    }

    /** The arcs are sorted by non-negative labels, and the intervals are normalized. */
    ghost predicate Valid() {
      && IsNormal(s)
      && (forall k :: 0 <= k < |arcs| ==> LabelAt(k) >= 0)
      && (forall k, l :: 0 <= k < l < |arcs| ==> LabelAt(k) <= LabelAt(l))
    }
  }

  // ------------------------------------------------------------ what a search finds

  /** The set holds the label; 'skipZero' tells whether label 0 is left out nevertheless. */
  ghost predicate Hit<W>(q: Query<W>, skipZero: bool, k: nat)
    requires k < |q.arcs|
  {
    Has(q.s, q.LabelAt(k)) && !(skipZero && q.LabelAt(k) == EPSILON)
  }

  /** ReachBegin, ReachEnd and ReachWeight. */
  datatype Found<W> = Found(begin: int, end: int, weight: W)

  ghost function FoundIn<W>(q: Query<W>, skipZero: bool, weigh: bool, b: nat, e: nat): Found<W>
    requires e <= |q.arcs|
  {
    if e <= b then Found(-1, -1, q.zero)
    else
      var f := FoundIn(q, skipZero, weigh, b, e - 1);
      if !Hit(q, skipZero, e - 1) then f
      else Found(if f.begin < 0 then e - 1 else f.begin, e,
                 if weigh then q.plus(f.weight, q.arcs[e - 1].weight) else f.weight)
  }

  /** The hits of a range, in order. */
  ghost function Hits<W>(q: Query<W>, skipZero: bool, b: nat, e: nat): seq<nat>
    requires e <= |q.arcs|
  {
    if e <= b then []
    else
      var r := Hits(q, skipZero, b, e - 1);
      if Hit(q, skipZero, e - 1) then r + [e - 1] else r
  }

  /** The list is increasing, and holds the hits of the range and nothing else. */
  ghost predicate AreHits<W>(q: Query<W>, skipZero: bool, b: nat, e: nat, r: seq<nat>)
    requires e <= |q.arcs|
  {
    && (forall i :: 0 <= i < |r| ==> b <= r[i] < e)
    && (forall i :: 0 <= i < |r| ==> Hit(q, skipZero, r[i]))
    && (forall i, j :: 0 <= i < j < |r| ==> r[i] < r[j])
    && (forall k :: b <= k < e && Hit(q, skipZero, k) ==> k in r)
  }

  lemma AreHitsNext<W>(q: Query<W>, skipZero: bool, b: nat, e: nat, r: seq<nat>)
    requires b < e <= |q.arcs| && AreHits(q, skipZero, b, e - 1, r)
    ensures AreHits(q, skipZero, b, e, if Hit(q, skipZero, e - 1) then r + [e - 1] else r)
  {
    hide Hit;
    if Hit(q, skipZero, e - 1) {
      var r2 := r + [e - 1];
      assert r2[|r|] == e - 1;
      assert forall i :: 0 <= i < |r| ==> r2[i] == r[i];
      forall k | b <= k < e && Hit(q, skipZero, k) ensures k in r2 {
        if k < e - 1 { assert k in r; }
      }
    }
  }

  lemma {:induction false} HitsAreAll<W>(q: Query<W>, skipZero: bool, b: nat, e: nat)
    requires e <= |q.arcs|
    ensures AreHits(q, skipZero, b, e, Hits(q, skipZero, b, e))
    decreases e
  {
    hide Hit;
    if e > b {
      HitsAreAll(q, skipZero, b, e - 1);
      AreHitsNext(q, skipZero, b, e, Hits(q, skipZero, b, e - 1));
    }
  }

  ghost function SumOf<W>(q: Query<W>, hits: seq<nat>): W
    requires forall i :: 0 <= i < |hits| ==> hits[i] < |q.arcs|
  {
    if hits == [] then q.zero else q.plus(SumOf(q, hits[..|hits| - 1]), q.arcs[hits[|hits| - 1]].weight)
  }

  lemma SumAppend<W>(q: Query<W>, hits: seq<nat>, k: nat)
    requires (forall i :: 0 <= i < |hits| ==> hits[i] < |q.arcs|) && k < |q.arcs|
    ensures SumOf(q, hits + [k]) == q.plus(SumOf(q, hits), q.arcs[k].weight)
  {
    assert (hits + [k])[..|hits|] == hits;
  }

  /** ReachBegin is the first hit, ReachEnd is one past the last, ReachWeight is the sum of their
      weights from left to right. */
  ghost predicate Describes<W>(q: Query<W>, weigh: bool, hits: seq<nat>, f: Found<W>) {
    && (forall i :: 0 <= i < |hits| ==> hits[i] < |q.arcs|)
    && f.begin == (if hits == [] then -1 else hits[0])
    && f.end == (if hits == [] then -1 else hits[|hits| - 1] + 1)
    && f.weight == if weigh then SumOf(q, hits) else q.zero
  }

  lemma DescribesAppend<W>(q: Query<W>, weigh: bool, hits: seq<nat>, f: Found<W>, k: nat)
    requires Describes(q, weigh, hits, f) && k < |q.arcs|
    ensures Describes(q, weigh, hits + [k],
                      Found(if f.begin < 0 then k else f.begin, k + 1,
                            if weigh then q.plus(f.weight, q.arcs[k].weight) else f.weight))
  {
    SumAppend(q, hits, k);
    hide SumOf;
    assert hits != [] ==> (hits + [k])[0] == hits[0];
  }

  lemma {:induction false} FoundMeans<W>(q: Query<W>, skipZero: bool, weigh: bool, b: nat, e: nat)
    requires e <= |q.arcs|
    ensures Describes(q, weigh, Hits(q, skipZero, b, e), FoundIn(q, skipZero, weigh, b, e))
    decreases e
  {
    if e > b {
      hide Describes, Hit, FoundIn, Hits, SumOf;
      FoundMeans(q, skipZero, weigh, b, e - 1);
      FoundNext(q, skipZero, weigh, b, e);
      if Hit(q, skipZero, e - 1) {
        DescribesAppend(q, weigh, Hits(q, skipZero, b, e - 1), FoundIn(q, skipZero, weigh, b, e - 1), e - 1);
      }
    } else {
      NoneFound(q, skipZero, weigh, b, e);
    }
  }

  lemma NoneFound<W>(q: Query<W>, skipZero: bool, weigh: bool, b: nat, e: nat)
    requires e <= b && e <= |q.arcs|
    ensures Describes(q, weigh, Hits(q, skipZero, b, e), FoundIn(q, skipZero, weigh, b, e))
  {
  }

  lemma FoundNext<W>(q: Query<W>, skipZero: bool, weigh: bool, b: nat, e: nat)
    requires b < e <= |q.arcs|
    ensures var f := FoundIn(q, skipZero, weigh, b, e - 1);
            FoundIn(q, skipZero, weigh, b, e) ==
            if !Hit(q, skipZero, e - 1) then f
            else Found(if f.begin < 0 then e - 1 else f.begin, e,
                       if weigh then q.plus(f.weight, q.arcs[e - 1].weight) else f.weight)
    ensures var r := Hits(q, skipZero, b, e - 1);
            Hits(q, skipZero, b, e) == if Hit(q, skipZero, e - 1) then r + [e - 1] else r
  {
    hide Hit;
  }

  /** Arcs that are no hits add nothing. */
  lemma {:induction false} FoundSkip<W>(q: Query<W>, skipZero: bool, weigh: bool, b: nat, e: nat, e': nat)
    requires b <= e <= e' <= |q.arcs|
    requires forall k :: e <= k < e' ==> !Hit(q, skipZero, k)
    ensures FoundIn(q, skipZero, weigh, b, e') == FoundIn(q, skipZero, weigh, b, e)
    decreases e'
  {
    if e < e' { FoundSkip(q, skipZero, weigh, b, e, e' - 1); }
  }

  /** The sum that the accumulator adds for the positions from 'i' to 'e'. */
  function AddAll<W>(q: Query<W>, w: W, i: nat, e: nat): W
    requires e <= |q.arcs|
  {
    if e <= i then w else q.plus(AddAll(q, w, i, e - 1), q.arcs[e - 1].weight)
  }

  /** A run of arcs all of which are hits. */
  lemma {:induction false} FoundRun<W>(q: Query<W>, skipZero: bool, weigh: bool, b: nat, e: nat, e': nat)
    requires b <= e < e' <= |q.arcs|
    requires forall k :: e <= k < e' ==> Hit(q, skipZero, k)
    ensures var f := FoundIn(q, skipZero, weigh, b, e);
            FoundIn(q, skipZero, weigh, b, e')
            == Found(if f.begin < 0 then e else f.begin, e', if weigh then AddAll(q, f.weight, e, e') else f.weight)
    decreases e'
  {
    if e + 1 < e' { FoundRun(q, skipZero, weigh, b, e, e' - 1); }
  }

  ghost predicate LabelsBelow<W>(q: Query<W>, b: nat, e: nat, l: int) {
    e <= |q.arcs| && forall k :: b <= k < e ==> q.LabelAt(k) < l
  }

  ghost predicate LabelsFrom<W>(q: Query<W>, b: nat, e: nat, l: int) {
    e <= |q.arcs| && forall k :: b <= k < e ==> q.LabelAt(k) >= l
  }

  // ------------------------------------------------------------ when the strategies agree

  /** Both strategies find the same, unless the range has an arc labelled 0 and 0 is in the set. */
  lemma StrategiesAgreeWhen<W>(q: Query<W>, weigh: bool, b: nat, e: nat)
    requires q.Valid() && b <= e <= |q.arcs|
    ensures FoundIn(q, true, weigh, b, e) == FoundIn(q, false, weigh, b, e)
            <==> (Has(q.s, EPSILON) ==> forall k :: b <= k < e ==> q.LabelAt(k) != EPSILON)
  {
    if Has(q.s, EPSILON) && exists k :: b <= k < e && q.LabelAt(k) == EPSILON {
      var k :| b <= k < e && q.LabelAt(k) == EPSILON;
      assert q.LabelAt(b) == EPSILON;
      assert Hit(q, false, b) && !Hit(q, true, b);
      FoundMeans(q, true, weigh, b, e);
      FoundMeans(q, false, weigh, b, e);
      FirstHit(q, b, e);
      HitsAreAll(q, true, b, e);
      if Hits(q, true, b, e) != [] {
        assert Hits(q, true, b, e)[0] != b;
      }
    } else {
      forall k | b <= k < e ensures Hit(q, true, k) <==> Hit(q, false, k) { }
      SameHits(q, weigh, b, e);
    }
  }

  /** The intervals that the program builds begin at 1 or later: for these the strategies agree. */
  lemma StrategiesAgreeFromOne<W>(q: Query<W>, weigh: bool, b: nat, e: nat)
    requires q.Valid() && b <= e <= |q.arcs| && (q.s != [] ==> q.s[0].begin >= 1)
    ensures FoundIn(q, true, weigh, b, e) == FoundIn(q, false, weigh, b, e)
  {
    StrategiesAgreeWhen(q, weigh, b, e);
    forall k | 0 <= k < |q.s| ensures q.s[k].begin >= 1 {
      if k > 0 { assert q.s[0].begin < q.s[0].end < q.s[k].begin; }
    }
  }

  lemma FirstHit<W>(q: Query<W>, b: nat, e: nat)
    requires b < e <= |q.arcs| && Hit(q, false, b)
    ensures Hits(q, false, b, e) != [] && Hits(q, false, b, e)[0] == b
  {
    HitsAreAll(q, false, b, e);
    var r := Hits(q, false, b, e);
    assert b in r;
    var i :| 0 <= i < |r| && r[i] == b;
  }

  lemma {:induction false} SameHits<W>(q: Query<W>, weigh: bool, b: nat, e: nat)
    requires e <= |q.arcs| && forall k :: b <= k < e ==> (Hit(q, true, k) <==> Hit(q, false, k))
    ensures FoundIn(q, true, weigh, b, e) == FoundIn(q, false, weigh, b, e)
    decreases e
  {
    if e > b { SameHits(q, weigh, b, e - 1); }
  }

  // ------------------------------------------------------------ the searches

  /** Position in a list of arcs. */
  class ArcIterator<W> {
    const arcs: seq<Arc<W>>
    var pos: int

    constructor (arcs: seq<Arc<W>>)
      ensures this.arcs == arcs && pos == 0
    {
      this.arcs, pos := arcs, 0;
    }

    method Seek(p: int)
      modifies this
      ensures pos == p
    {
      pos := p;
    }

    method Next()
      modifies this
      ensures pos == old(pos) + 1
    {
      pos := pos + 1;
    }

    function Value(): Arc<W>
      requires 0 <= pos < |arcs|
      reads this
    {
      arcs[pos]
    }
  }

  class LabelReachable<!W(==)> {
    const zero: W
    const plus: (W, W) -> W
    const intervalSet: IntervalSet
    var reachFstInput: bool
    var reachBegin: int
    var reachEnd: int
    var reachWeight: W

    constructor (zero: W, plus: (W, W) -> W, intervalSet: IntervalSet, input: bool)
      ensures this.zero == zero && this.plus == plus && this.intervalSet == intervalSet && reachFstInput == input
    {
      this.zero, this.plus, this.intervalSet, reachFstInput := zero, plus, intervalSet, input;
      reachBegin, reachEnd, reachWeight := -1, -1, zero;
    }

    function QueryOf(aiter: ArcIterator<W>): Query<W>
      reads this, intervalSet
    {
      Query(aiter.arcs, reachFstInput, intervalSet.intervals, zero, plus)
    }

    function Result(): Found<W>
      reads this
    {
      Found(reachBegin, reachEnd, reachWeight)
    }

    /** Can this label be reached from the current state? Never so for label 0. */
    method ReachLabel(l: int) returns (r: bool)
      requires IsNormal(intervalSet.intervals)
      ensures r <==> l != EPSILON && Has(intervalSet.intervals, l)
    {
      if l == EPSILON { return false; }
      r := intervalSet.Member(l);
    }

    /** First position from 'begin' on whose label is not below 'matchLabel'. */
    method LowerBound(aiter: ArcIterator<W>, begin: nat, end: nat, matchLabel: int) returns (low: nat)
      requires QueryOf(aiter).Valid() && begin <= end <= |aiter.arcs|
      modifies aiter
      ensures begin <= low <= end && aiter.pos == low
      ensures LabelsBelow(QueryOf(aiter), begin, low, matchLabel)
      ensures LabelsFrom(QueryOf(aiter), low, end, matchLabel)
    {
      low := begin;
      var high := end;
      while low < high
        invariant begin <= low <= high <= end
        invariant LabelsBelow(QueryOf(aiter), begin, low, matchLabel)
        invariant LabelsFrom(QueryOf(aiter), high, end, matchLabel)
      {
        var mid := low + (high - low) / 2;
        aiter.Seek(mid);
        var l := MatchLabel(aiter.Value(), reachFstInput);
        assert l == QueryOf(aiter).LabelAt(mid);
        if l < matchLabel { low := mid + 1; } else { high := mid; }
      }
      aiter.Seek(low);
    }

    /** Adds the weights of a run of arcs to 'w', from left to right. */
    method Sum(w: W, aiter: ArcIterator<W>, begin: nat, end: nat) returns (sum: W)
      requires begin <= end <= |aiter.arcs|
      modifies aiter
      ensures sum == AddAll(QueryOf(aiter), w, begin, end)
    {
      sum := w;
      aiter.Seek(begin);
      var pos := begin;
      while pos < end
        invariant begin <= pos <= end && aiter.pos == pos
        invariant sum == AddAll(QueryOf(aiter), w, begin, pos)
      {
        sum := plus(sum, aiter.Value().weight);
        aiter.Next();
        pos := pos + 1;
      }
    }

    /** Checks each arc against the intervals. */
    method ReachByArcs(aiter: ArcIterator<W>, aiterBegin: nat, aiterEnd: nat, computeWeight: bool)
      requires QueryOf(aiter).Valid() && aiterBegin <= aiterEnd <= |aiter.arcs| && aiter.pos == aiterBegin
      requires Result() == Found(-1, -1, zero)
      modifies `reachBegin, `reachEnd, `reachWeight, aiter
      ensures Result() == FoundIn(QueryOf(aiter), true, computeWeight, aiterBegin, aiterEnd)
    {
      ghost var q := QueryOf(aiter);
      var reachLabel := NO_LABEL;
      var aiterPos := aiterBegin;
      while aiterPos < aiterEnd
        invariant aiterBegin <= aiterPos <= aiterEnd && aiter.pos == aiterPos && QueryOf(aiter) == q
        invariant reachLabel == NO_LABEL || (reachLabel != EPSILON && Has(q.s, reachLabel))
        invariant Result() == FoundIn(q, true, computeWeight, aiterBegin, aiterPos)
      {
        var arc := aiter.Value();
        var l := MatchLabel(arc, reachFstInput);
        assert l == q.LabelAt(aiterPos);
        var reached := l == reachLabel;
        if !reached { reached := ReachLabel(l); }
        if reached {
          reachLabel := l;
          if reachBegin < 0 { reachBegin := aiterPos; }
          reachEnd := aiterPos + 1;
          if computeWeight { reachWeight := plus(reachWeight, arc.weight); }
        }
        aiter.Next();
        aiterPos := aiterPos + 1;
      }
    }

    /** Checks each interval against the arcs; each search starts where the one before ended. */
    method ReachByIntervals(aiter: ArcIterator<W>, aiterBegin: nat, aiterEnd: nat, computeWeight: bool)
      requires QueryOf(aiter).Valid() && aiterBegin <= aiterEnd <= |aiter.arcs|
      requires Result() == Found(-1, -1, zero)
      modifies `reachBegin, `reachEnd, `reachWeight, aiter
      ensures Result() == FoundIn(QueryOf(aiter), false, computeWeight, aiterBegin, aiterEnd)
    {
      hide FoundIn, Hit, Query.Valid, LabelsBelow, LabelsFrom, AddAll;
      ghost var q := QueryOf(aiter);
      PassedNone(q, aiterBegin, aiterEnd);
      FoundNone(q, computeWeight, aiterBegin);
      var beginLow, endLow := aiterBegin, aiterBegin;
      var i := 0;
      while i < |intervalSet.intervals|
        invariant i <= |q.s| && QueryOf(aiter) == q && aiterBegin <= endLow <= aiterEnd
        invariant Passed(q, i, endLow, aiterEnd)
        invariant Result() == FoundIn(q, false, computeWeight, aiterBegin, endLow)
      {
        var interval := intervalSet.intervals[i];
        ghost var was := endLow;
        beginLow := LowerBound(aiter, endLow, aiterEnd, interval.begin);
        endLow := LowerBound(aiter, beginLow, aiterEnd, interval.end);
        PassInterval(q, i, was, beginLow, endLow, aiterEnd);
        FoundSkip(q, false, computeWeight, aiterBegin, was, beginLow);
        if endLow - beginLow > 0 {
          FoundRun(q, false, computeWeight, aiterBegin, beginLow, endLow);
          if reachBegin < 0 { reachBegin := beginLow; }
          reachEnd := endLow;
          if computeWeight { reachWeight := Sum(reachWeight, aiter, beginLow, endLow); }
        }
        i := i + 1;
      }
      PassedAll(q, endLow, aiterEnd);
      FoundSkip(q, false, computeWeight, aiterBegin, endLow, aiterEnd);
    }

    /** Searches a range of arcs, by the strategy that promises less work. */
    method Reach(aiter: ArcIterator<W>, aiterBegin: nat, aiterEnd: nat, computeWeight: bool) returns (r: bool)
      requires QueryOf(aiter).Valid() && aiterBegin <= aiterEnd <= |aiter.arcs|
      modifies `reachBegin, `reachEnd, `reachWeight, aiter
      ensures Result() == FoundIn(QueryOf(aiter), 2 * (aiterEnd - aiterBegin) < |intervalSet.intervals|,
                                  computeWeight, aiterBegin, aiterEnd)
      ensures r <==> reachBegin >= 0
    {
      reachBegin, reachEnd, reachWeight := -1, -1, zero;
      aiter.Seek(aiterBegin);
      if 2 * (aiterEnd - aiterBegin) < |intervalSet.intervals| {
        ReachByArcs(aiter, aiterBegin, aiterEnd, computeWeight);
      } else {
        ReachByIntervals(aiter, aiterBegin, aiterEnd, computeWeight);
      }
      r := reachBegin >= 0;
    }
  }

  /** From 'low' on, no label lies in the first 'i' intervals. */
  ghost predicate Passed<W>(q: Query<W>, i: nat, low: nat, end: nat) {
    i <= |q.s| && end <= |q.arcs| && forall k, j :: low <= k < end && 0 <= j < i ==> q.LabelAt(k) >= q.s[j].end
  }

  lemma PassedNone<W>(q: Query<W>, low: nat, end: nat)
    requires end <= |q.arcs|
    ensures Passed(q, 0, low, end)
  {
  }

  lemma FoundNone<W>(q: Query<W>, weigh: bool, b: nat)
    requires b <= |q.arcs|
    ensures FoundIn(q, false, weigh, b, b) == Found(-1, -1, q.zero)
  {
  }

  lemma PassInterval<W>(q: Query<W>, i: nat, was: nat, beginLow: nat, endLow: nat, end: nat)
    requires q.Valid() && i < |q.s| && was <= beginLow <= endLow <= end && Passed(q, i, was, end)
    requires LabelsBelow(q, was, beginLow, q.s[i].begin) && LabelsFrom(q, beginLow, end, q.s[i].begin)
    requires LabelsBelow(q, beginLow, endLow, q.s[i].end) && LabelsFrom(q, endLow, end, q.s[i].end)
    ensures forall k :: was <= k < beginLow ==> !Hit(q, false, k)
    ensures forall k :: beginLow <= k < endLow ==> Hit(q, false, k)
    ensures Passed(q, i + 1, endLow, end)
  {
    forall k | was <= k < beginLow ensures !Has(q.s, q.LabelAt(k)) {
      forall j | 0 <= j < |q.s| ensures !In(q.s[j], q.LabelAt(k)) {
        if j > i { assert q.s[i].begin < q.s[i].end < q.s[j].begin; }
      }
    }
    forall k | beginLow <= k < endLow ensures Has(q.s, q.LabelAt(k)) {
      assert In(q.s[i], q.LabelAt(k));
    }
  }

  lemma PassedAll<W>(q: Query<W>, low: nat, end: nat)
    requires Passed(q, |q.s|, low, end)
    ensures forall k :: low <= k < end ==> !Hit(q, false, k)
  {
    forall k | low <= k < end ensures !Has(q.s, q.LabelAt(k)) {
      forall j | 0 <= j < |q.s| ensures !In(q.s[j], q.LabelAt(k)) {
        assert q.LabelAt(k) >= q.s[j].end;
      }
    }
  }
}
