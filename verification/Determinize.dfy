/** Weighted determinization over exact tropical weights: the subset construction. */
module Determinize {
  import opened Fst

  // ------------------------------------------------------------ exact tropical weights

  datatype Tropical = Infinite | Finite(n: int)

  const ZERO := Infinite
  const ONE := Finite(0)

  function Plus(a: Tropical, b: Tropical): Tropical {
    if a.Infinite? then b else if b.Infinite? then a else if a.n <= b.n then a else b
  }

  function Times(a: Tropical, b: Tropical): Tropical {
    if a.Infinite? || b.Infinite? then Infinite else Finite(a.n + b.n)
  }

  /** Left division; dividing by Infinite has no result in the source. */
  function Divide(a: Tropical, b: Tropical): Tropical
    requires b.Finite?
  {
    if a.Infinite? then Infinite else Finite(a.n - b.n)
  }

  predicate Below(a: Tropical, b: Tropical) {
    b.Infinite? || (a.Finite? && a.n <= b.n)
  }

  // ------------------------------------------------------------ weighted subsets

  /** An input state with its residual weight. */
  datatype Element = Element(state: nat, weight: Tropical)

  /** Sum of the weights that a list gives to a state. */
  function WeightAt(elements: seq<Element>, q: nat): Tropical {
    if elements == [] then ZERO
    else Plus(if elements[0].state == q then elements[0].weight else ZERO, WeightAt(elements[1..], q))
  }

  /** Sum of all weights of a list. */
  function Total(elements: seq<Element>): Tropical {
    if elements == [] then ZERO else Plus(elements[0].weight, Total(elements[1..]))
  }

  /** No weight of the list is less than 'w', and one is 'w'. */
  ghost predicate IsLeast(w: Tropical, elements: seq<Element>) {
    && (forall i :: 0 <= i < |elements| ==> Below(w, elements[i].weight))
    && exists i :: 0 <= i < |elements| && elements[i].weight == w
  }

  predicate AllFinite(elements: seq<Element>) {
    forall i :: 0 <= i < |elements| ==> elements[i].weight.Finite?
  }

  /** Strictly increasing in states: the form in which subsets are compared. */
  ghost predicate Canonical(elements: seq<Element>) {
    forall i, j :: 0 <= i < j < |elements| ==> elements[i].state < elements[j].state
  }

  ghost predicate SortedByState(elements: seq<Element>) {
    forall i, j :: 0 <= i < j < |elements| ==> elements[i].state <= elements[j].state
  }

  /** The lists give the same weight to every state, and the same weight altogether. */
  ghost predicate SameWeights(a: seq<Element>, b: seq<Element>) {
    Total(a) == Total(b) && forall q: nat :: WeightAt(a, q) == WeightAt(b, q)
  }

  lemma {:induction false} WeightOfConcat(a: seq<Element>, b: seq<Element>, q: nat)
    ensures WeightAt(a + b, q) == Plus(WeightAt(a, q), WeightAt(b, q))
  {
    if a == [] {
      assert a + b == b;
    } else {
      assert (a + b)[1..] == a[1..] + b;
      WeightOfConcat(a[1..], b, q);
    }
  }

  lemma {:induction false} TotalOfConcat(a: seq<Element>, b: seq<Element>)
    ensures Total(a + b) == Plus(Total(a), Total(b))
  {
    if a == [] {
      assert a + b == b;
    } else {
      assert (a + b)[1..] == a[1..] + b;
      TotalOfConcat(a[1..], b);
    }
  }

  /** With finite weights, a state has weight Zero exactly when it is not listed. */
  lemma {:induction false} WeightIsFinite(elements: seq<Element>, q: nat)
    requires AllFinite(elements)
    ensures WeightAt(elements, q).Finite? <==> exists i :: 0 <= i < |elements| && elements[i].state == q
  {
    if elements != [] {
      WeightIsFinite(elements[1..], q);
      if i :| 0 <= i < |elements| && elements[i].state == q {
        assert i > 0 ==> elements[1..][i - 1].state == q;
      }
    }
  }

  /** In a canonical list the weight of a state is that of its element. */
  lemma {:induction false} WeightInCanonical(elements: seq<Element>, i: nat)
    requires Canonical(elements) && i < |elements|
    ensures WeightAt(elements, elements[i].state) == elements[i].weight
  {
    if i == 0 {
      NoWeightBelow(elements[1..], elements[0].state);
    } else {
      WeightInCanonical(elements[1..], i - 1);
    }
  }

  lemma {:induction false} NoWeightBelow(elements: seq<Element>, q: nat)
    requires forall i :: 0 <= i < |elements| ==> elements[i].state != q
    ensures WeightAt(elements, q) == ZERO
  {
    if elements != [] { NoWeightBelow(elements[1..], q); }
  }

  /** The sum of all weights is the least of them. */
  lemma {:induction false} TotalIsLeast(elements: seq<Element>)
    requires elements != []
    ensures IsLeast(Total(elements), elements)
  {
    var rest := elements[1..];
    assert elements == [elements[0]] + rest;
    if rest != [] {
      TotalIsLeast(rest);
      assert forall i :: 0 < i < |elements| ==> elements[i] == rest[i - 1];
      var i :| 0 <= i < |rest| && rest[i].weight == Total(rest);
      assert elements[i + 1].weight == Total(rest);
    }
  }

  // ------------------------------------------------------------ sorting a subset

  function InsertElement(e: Element, sorted: seq<Element>): seq<Element> {
    if sorted == [] || e.state <= sorted[0].state then [e] + sorted
    else [sorted[0]] + InsertElement(e, sorted[1..])
  }

  /** The library's stable list sort. */
  function SortElements(elements: seq<Element>): seq<Element> {
    if elements == [] then [] else InsertElement(elements[0], SortElements(elements[1..]))
  }

  /** No state of the list is below 'b'. */
  ghost predicate FromState(elements: seq<Element>, b: nat) {
    forall i :: 0 <= i < |elements| ==> b <= elements[i].state
  }

  lemma FromStateCons(e: Element, rest: seq<Element>, b: nat)
    ensures FromState([e] + rest, b) <==> b <= e.state && FromState(rest, b)
  {
    if FromState([e] + rest, b) {
      assert ([e] + rest)[0] == e;
      forall i | 0 <= i < |rest| ensures b <= rest[i].state { assert rest[i] == ([e] + rest)[i + 1]; }
    }
  }

  lemma SortedCons(e: Element, rest: seq<Element>)
    ensures SortedByState([e] + rest) <==> SortedByState(rest) && FromState(rest, e.state)
  {
    var r := [e] + rest;
    assert forall i :: 0 <= i < |rest| ==> r[i + 1] == rest[i];
    if SortedByState(r) {
      forall i, j | 0 <= i < j < |rest| ensures rest[i].state <= rest[j].state { assert r[i + 1].state <= r[j + 1].state; }
      forall i | 0 <= i < |rest| ensures e.state <= rest[i].state { assert r[0].state <= r[i + 1].state; }
    }
  }

  lemma InsertElementStep(e: Element, sorted: seq<Element>)
    requires sorted != []
    ensures InsertElement(e, sorted) ==
            if e.state <= sorted[0].state then [e] + sorted else [sorted[0]] + InsertElement(e, sorted[1..])
  {
  }

  lemma {:induction false} InsertElementFrom(e: Element, sorted: seq<Element>, b: nat)
    requires FromState(sorted, b) && b <= e.state
    ensures FromState(InsertElement(e, sorted), b)
    decreases |sorted|
  {
    hide FromState, InsertElement;
    FromStateCons(e, sorted, b);
    if sorted == [] {
      InsertElementNone(e);
    } else {
      InsertElementStep(e, sorted);
      assert sorted == [sorted[0]] + sorted[1..];
      FromStateCons(sorted[0], sorted[1..], b);
      InsertElementFrom(e, sorted[1..], b);
      FromStateCons(sorted[0], InsertElement(e, sorted[1..]), b);
    }
  }

  lemma InsertElementNone(e: Element)
    ensures InsertElement(e, []) == [e] + []
  {
  }

  lemma SameWeightsCons(x: Element, a: seq<Element>, b: seq<Element>)
    requires SameWeights(a, b)
    ensures SameWeights([x] + a, [x] + b)
  {
    assert ([x] + a)[1..] == a && ([x] + b)[1..] == b;
  }

  lemma SameWeightsSwap(x: Element, y: Element, a: seq<Element>)
    ensures SameWeights([x] + ([y] + a), [y] + ([x] + a))
  {
    assert ([x] + ([y] + a))[1..] == [y] + a && ([y] + ([x] + a))[1..] == [x] + a;
    assert ([y] + a)[1..] == a && ([x] + a)[1..] == a;
  }

  lemma {:induction false} InsertElementSorted(e: Element, sorted: seq<Element>)
    requires SortedByState(sorted)
    ensures var r := InsertElement(e, sorted);
            SortedByState(r) && SameWeights([e] + sorted, r) && |r| == |sorted| + 1
            && (AllFinite([e] + sorted) ==> AllFinite(r))
    decreases |sorted|
  {
    hide InsertElement, SortedByState, FromState, SameWeights;
    SortedCons(e, sorted);
    if sorted == [] {
      InsertElementNone(e);
      NothingSorted(e);
    } else {
      var x, rest := sorted[0], sorted[1..];
      assert sorted == [x] + rest;
      SortedCons(x, rest);
      InsertElementStep(e, sorted);
      if e.state <= x.state {
        FromStateUp(sorted, x, rest, e.state);
        SameWeightsSelf([e] + sorted);
      } else {
        InsertElementSorted(e, rest);
        var r := InsertElement(e, rest);
        InsertElementFrom(e, rest, x.state);
        SortedCons(x, r);
        SameWeightsCons(x, [e] + rest, r);
        SameWeightsSwap(e, x, rest);
        SameWeightsTrans([e] + sorted, [x] + ([e] + rest), [x] + r);
        FiniteCons(e, sorted);
        FiniteCons(x, rest);
        FiniteCons(e, rest);
        FiniteCons(x, r);
      }
    }
  }

  lemma NothingSorted(e: Element)
    ensures SortedByState([e] + []) && SameWeights([e] + [], [e] + [])
  {
  }

  lemma SameWeightsSelf(a: seq<Element>)
    ensures SameWeights(a, a)
  {
  }

  lemma SameWeightsTrans(a: seq<Element>, b: seq<Element>, c: seq<Element>)
    requires SameWeights(a, b) && SameWeights(b, c)
    ensures SameWeights(a, c)
  {
  }

  lemma FromStateUp(sorted: seq<Element>, x: Element, rest: seq<Element>, b: nat)
    requires sorted == [x] + rest && FromState(rest, x.state) && b <= x.state
    ensures FromState(sorted, b)
  {
  }

  lemma FiniteCons(e: Element, rest: seq<Element>)
    ensures AllFinite([e] + rest) <==> e.weight.Finite? && AllFinite(rest)
  {
    if AllFinite([e] + rest) {
      assert ([e] + rest)[0] == e;
      forall i | 0 <= i < |rest| ensures rest[i].weight.Finite? { assert rest[i] == ([e] + rest)[i + 1]; }
    }
  }

  lemma {:induction false} SortElementsSorted(elements: seq<Element>)
    ensures var r := SortElements(elements);
            SortedByState(r) && SameWeights(elements, r) && |r| == |elements| && (AllFinite(elements) ==> AllFinite(r))
  {
    if elements != [] {
      SortElementsSorted(elements[1..]);
      var sorted := SortElements(elements[1..]);
      InsertElementSorted(elements[0], sorted);
      assert ([elements[0]] + sorted)[1..] == sorted;
    }
  }

  // ------------------------------------------------------------ normalizing a proto-arc

  /** Merging two neighbours for the same state changes no weight. */
  lemma MergeNeighbours(kept: seq<Element>, e: Element, rest: seq<Element>)
    requires kept != [] && kept[|kept| - 1].state == e.state
    ensures var n := |kept| - 1;
            var merged := kept[n := Element(e.state, Plus(kept[n].weight, e.weight))];
            SameWeights(kept + [e] + rest, merged + rest)
  {
    var n := |kept| - 1;
    var m := Element(e.state, Plus(kept[n].weight, e.weight));
    var merged := kept[n := m];
    var a, b := kept[n], kept[..n];
    assert kept + [e] + rest == b + ([a] + [e] + rest);
    assert merged + rest == b + ([m] + rest);
    assert ([a] + [e] + rest)[1..] == [e] + rest && ([e] + rest)[1..] == rest && ([m] + rest)[1..] == rest;
    TotalOfConcat(b, [a] + [e] + rest);
    TotalOfConcat(b, [m] + rest);
    forall q: nat ensures WeightAt(kept + [e] + rest, q) == WeightAt(merged + rest, q) {
      WeightOfConcat(b, [a] + [e] + rest, q);
      WeightOfConcat(b, [m] + rest, q);
    }
  }

  /** The result of normalizing a list: canonical, with the least weight divided out, so that the
      least residual is One. */
  ghost predicate IsNormalized(elements: seq<Element>, weight: Tropical, subset: seq<Element>) {
    && IsLeast(weight, elements)
    && Canonical(subset) && AllFinite(subset) && IsLeast(ONE, subset)
    && forall q: nat :: WeightAt(elements, q) == Times(weight, WeightAt(subset, q))
  }

  lemma CanonicalExtends(subset: seq<Element>, d: nat)
    requires d < |subset| && Canonical(subset[..d]) && SortedByState(subset)
    requires d > 0 ==> subset[d - 1].state != subset[d].state
    ensures Canonical(subset[..d + 1])
  {
    forall i | 0 <= i < d ensures subset[i].state < subset[d].state {
      assert subset[..d][i] == subset[i];
      if i < d - 1 { assert subset[..d][i].state < subset[..d][d - 1].state; }
    }
    assert forall i, j :: 0 <= i < j < d ==> subset[..d][i].state < subset[..d][j].state;
  }

  lemma MergeKeeps(sorted: seq<Element>, subset: seq<Element>, d: nat)
    requires 0 < d < |subset| && AllFinite(subset) && Canonical(subset[..d]) && SortedByState(subset)
    requires SameWeights(sorted, subset) && subset[d - 1].state == subset[d].state
    ensures var p := d - 1;
            var merged := subset[p := Element(subset[p].state, Plus(subset[p].weight, subset[d].weight))];
            var shorter := merged[..d] + merged[d + 1..];
            && |shorter| == |subset| - 1 && AllFinite(shorter) && shorter[d..] == subset[d + 1..]
            && Canonical(shorter[..d]) && SortedByState(shorter) && SameWeights(sorted, shorter)
  {
    hide SameWeights, Total, WeightAt;
    MergeNeighbours(subset[..d], subset[d], subset[d + 1..]);
    assert subset == subset[..d] + [subset[d]] + subset[d + 1..];
    var p := d - 1;
    var m := Element(subset[p].state, Plus(subset[p].weight, subset[d].weight));
    var shorter := subset[..d][p := m] + subset[d + 1..];
    assert subset[p := m][..d] + subset[p := m][d + 1..] == shorter;
    assert shorter[..d] == subset[..d][p := m] && shorter[d..] == subset[d + 1..];
    SameWeightsTrans(sorted, subset, shorter);
    forall i | 0 <= i < |shorter| ensures shorter[i].state == subset[if i < d then i else i + 1].state {}
    assert forall i :: 0 <= i < d ==> shorter[..d][i].state == subset[..d][i].state;
  }

  /** NormArc: sorts the subset, sums duplicates in place while adding up the arc weight,
      and divides the arc weight out. */
  method NormArc(dest: seq<Element>) returns (weight: Tropical, subset: seq<Element>)
    requires dest != [] && AllFinite(dest)
    ensures weight.Finite? && subset != [] && IsNormalized(dest, weight, subset)
    ensures (forall i :: 0 <= i < |subset| ==> Below(ONE, subset[i].weight)) && exists i :: 0 <= i < |subset| && subset[i].weight == ONE
  {
    hide SameWeights, Total, WeightAt, Canonical, SortedByState;
    subset := SortElements(dest);
    ghost var sorted := subset;
    SortElementsSorted(dest);
    weight, subset := SumDuplicates(subset);
    ghost var merged := subset;
    subset := DivideOut(subset, weight);
    DividedLeast(dest, sorted, merged, weight, subset);
    NormalizedFrom(dest, sorted, merged, weight, subset);
  }

  lemma NormalizedFrom(dest: seq<Element>, sorted: seq<Element>, merged: seq<Element>, w: Tropical, subset: seq<Element>)
    requires SameWeights(dest, sorted) && SameWeights(sorted, merged) && IsLeast(w, dest) && IsLeast(ONE, subset)
    requires Canonical(subset) && AllFinite(subset) && forall q: nat :: WeightAt(merged, q) == Times(w, WeightAt(subset, q))
    ensures IsNormalized(dest, w, subset)
  {
    hide Total, WeightAt;
  }

  /** The loop over the sorted subset: sums duplicates in place and all weights together. */
  method SumDuplicates(sorted: seq<Element>) returns (weight: Tropical, subset: seq<Element>)
    requires sorted != [] && AllFinite(sorted) && SortedByState(sorted)
    ensures weight.Finite? && weight == Total(sorted)
    ensures subset != [] && Canonical(subset) && AllFinite(subset) && SameWeights(sorted, subset)
  {
    subset := sorted;
    SameWeightsSelf(sorted);
    weight := ZERO;
    var p, d := 0, 0;
    while d < |subset|
      invariant 0 <= d <= |subset| && p == (if d == 0 then 0 else d - 1)
      invariant subset != [] && AllFinite(subset)
      invariant Canonical(subset[..d]) && SortedByState(subset)
      invariant SameWeights(sorted, subset)
      invariant Plus(weight, Total(subset[d..])) == Total(sorted) && (d > 0 ==> weight.Finite?)
      decreases |subset| - d
    {
      hide SameWeights, Canonical, SortedByState, WeightAt;
      var e := subset[d];
      assert subset[d..][0] == e && subset[d..][1..] == subset[d + 1..];
      weight := Plus(weight, e.weight);
      if p != d && e.state == subset[p].state {
        MergeKeeps(sorted, subset, d);
        var merged := subset[p := Element(subset[p].state, Plus(subset[p].weight, e.weight))];
        subset := merged[..d] + merged[d + 1..];
      } else {
        CanonicalExtends(subset, d);
        p := d;
        d := d + 1;
      }
    }
    assert subset[..d] == subset;
  }

  lemma DividedLeast(dest: seq<Element>, sorted: seq<Element>, merged: seq<Element>, w: Tropical, subset: seq<Element>)
    requires dest != [] && merged != [] && w.Finite? && w == Total(sorted) && SameWeights(dest, sorted) && SameWeights(sorted, merged)
    requires IsDivided(merged, subset, w)
    ensures IsLeast(w, dest) && IsLeast(ONE, subset)
  {
    TotalIsLeast(dest);
    TotalIsLeast(merged);
    hide Total, WeightAt;
    var i :| 0 <= i < |merged| && merged[i].weight == w;
    assert subset[i].weight == ONE;
  }

  /** The weight is divided out of every element. */
  ghost predicate IsDivided(a: seq<Element>, b: seq<Element>, w: Tropical)
    requires w.Finite?
  {
    |a| == |b| && forall i :: 0 <= i < |a| ==> b[i] == Element(a[i].state, Divide(a[i].weight, w))
  }

  method DivideOut(subset0: seq<Element>, weight: Tropical) returns (subset: seq<Element>)
    requires weight.Finite? && Canonical(subset0) && AllFinite(subset0)
    ensures Canonical(subset) && AllFinite(subset) && IsDivided(subset0, subset, weight)
    ensures forall q: nat :: WeightAt(subset0, q) == Times(weight, WeightAt(subset, q))
  {
    subset := subset0;
    var d := 0;
    while d < |subset|
      invariant 0 <= d <= |subset| == |subset0|
      invariant forall i :: 0 <= i < d ==> subset[i] == Element(subset0[i].state, Divide(subset0[i].weight, weight))
      invariant forall i :: d <= i < |subset| ==> subset[i] == subset0[i]
    {
      subset := subset[d := Element(subset[d].state, Divide(subset[d].weight, weight))];
      d := d + 1;
    }
    forall q: nat ensures WeightAt(subset0, q) == Times(weight, WeightAt(subset, q)) {
      DividedWeight(subset0, subset, weight, q);
    }
  }

  lemma {:induction false} DividedWeight(a: seq<Element>, b: seq<Element>, w: Tropical, q: nat)
    requires w.Finite? && |a| == |b|
    requires forall i :: 0 <= i < |a| ==> b[i] == Element(a[i].state, Divide(a[i].weight, w))
    ensures WeightAt(a, q) == Times(w, WeightAt(b, q))
  {
    if a != [] { DividedWeight(a[1..], b[1..], w, q); }
  }

  // ------------------------------------------------------------ one step of the construction

  /** The input: an acceptor without Zero-weight arcs. */
  ghost predicate IsInput(f: Fst<Tropical>) {
    && f.Valid()
    && forall s, i :: 0 <= s < |f.arcs| && 0 <= i < |f.arcs[s]| ==>
         f.arcs[s][i].weight.Finite? && f.arcs[s][i].ilabel == f.arcs[s][i].olabel
  }

  ghost predicate IsSubset(f: Fst<Tropical>, subset: seq<Element>) {
    && subset != [] && Canonical(subset) && AllFinite(subset) && IsLeast(ONE, subset)
    && forall i :: 0 <= i < |subset| ==> subset[i].state < |f.arcs|
  }

  /** Arc 'k' of the i-th element is labelled 'a'. */
  predicate IsMove(f: Fst<Tropical>, subset: seq<Element>, a: int, i: nat, k: nat) {
    i < |subset| && subset[i].state < |f.arcs| && k < |f.arcs[subset[i].state]| && f.arcs[subset[i].state][k].ilabel == a
  }

  /** The destination element of such a move. */
  function Moved(f: Fst<Tropical>, subset: seq<Element>, a: int, i: nat, k: nat): Element
    requires IsMove(f, subset, a, i, k)
  {
    var arc := f.arcs[subset[i].state][k];
    Element(arc.nextstate, Times(subset[i].weight, arc.weight))
  }

  /** 'v' is the least weight that the moves on 'a' bring to state 'q'. */
  ghost predicate IsLeastMove(f: Fst<Tropical>, subset: seq<Element>, a: int, q: nat, v: Tropical) {
    && (forall i: nat, k: nat :: IsMove(f, subset, a, i, k) && Moved(f, subset, a, i, k).state == q
          ==> Below(v, Moved(f, subset, a, i, k).weight))
    && (v.Finite? ==> exists i: nat, k: nat :: IsMove(f, subset, a, i, k) && Moved(f, subset, a, i, k) == Element(q, v))
  }

  /** The subset after label 'a', with weight 'w' divided out. */
  ghost predicate IsStep(f: Fst<Tropical>, subset: seq<Element>, a: int, w: Tropical, next: seq<Element>) {
    && w.Finite? && IsSubset(f, next)
    && forall q: nat :: IsLeastMove(f, subset, a, q, Times(w, WeightAt(next, q)))
  }

  /** 'elements' are the destinations of all moves on 'a'. */
  ghost predicate CollectsMoves(f: Fst<Tropical>, subset: seq<Element>, a: int, elements: seq<Element>) {
    && (forall e :: e in elements ==> exists i: nat, k: nat :: IsMove(f, subset, a, i, k) && Moved(f, subset, a, i, k) == e)
    && (forall i: nat, k: nat :: IsMove(f, subset, a, i, k) ==> Moved(f, subset, a, i, k) in elements)
  }

  /** The weight of a state in a list is the least of its elements' weights. */
  lemma {:induction false} WeightIsLeast(elements: seq<Element>, q: nat)
    ensures forall e :: e in elements && e.state == q ==> Below(WeightAt(elements, q), e.weight)
    ensures WeightAt(elements, q).Finite? ==> Element(q, WeightAt(elements, q)) in elements
  {
    if elements != [] {
      WeightIsLeast(elements[1..], q);
      assert elements == [elements[0]] + elements[1..];
    }
  }

  lemma NormalizedIsStep(f: Fst<Tropical>, subset: seq<Element>, a: int, elements: seq<Element>, w: Tropical, next: seq<Element>)
    requires IsInput(f) && IsSubset(f, subset) && CollectsMoves(f, subset, a, elements)
    requires w.Finite? && next != [] && AllFinite(elements) && IsNormalized(elements, w, next)
    ensures IsStep(f, subset, a, w, next)
  {
    forall q: nat ensures IsLeastMove(f, subset, a, q, Times(w, WeightAt(next, q))) {
      WeightIsLeast(elements, q);
    }
    forall i | 0 <= i < |next| ensures next[i].state < |f.arcs| {
      WeightInCanonical(next, i);
      var q := next[i].state;
      WeightIsLeast(elements, q);
      assert Element(q, WeightAt(elements, q)) in elements;
    }
  }

  /** The arc weight is the least weight that a move on the label brings anywhere. */
  lemma StepWeightIsLeast(f: Fst<Tropical>, subset: seq<Element>, a: int, w: Tropical, next: seq<Element>)
    requires IsStep(f, subset, a, w, next)
    ensures forall i: nat, k: nat :: IsMove(f, subset, a, i, k) ==> Below(w, Moved(f, subset, a, i, k).weight)
    ensures exists i: nat, k: nat :: IsMove(f, subset, a, i, k) && Moved(f, subset, a, i, k).weight == w
  {
    forall i: nat, k: nat | IsMove(f, subset, a, i, k) ensures Below(w, Moved(f, subset, a, i, k).weight) {
      var q := Moved(f, subset, a, i, k).state;
      assert IsLeastMove(f, subset, a, q, Times(w, WeightAt(next, q)));
      WeightIsLeast(next, q);
    }
    var j :| 0 <= j < |next| && next[j].weight == ONE;
    WeightInCanonical(next, j);
    var q := next[j].state;
    assert IsLeastMove(f, subset, a, q, Times(w, WeightAt(next, q)));
  }
}
