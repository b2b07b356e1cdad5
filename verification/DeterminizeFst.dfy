/** On-demand determinization: the state table of subsets, and Expand. */
module DeterminizeFst {
  import opened Fst
  import opened Determinize
  import opened DeterminizePaths
  import opened FiniteSets

  /** A proto-arc: the arc weight and the destination subset for one label. */
  datatype DetArc = DetArc(weight: Tropical, subset: seq<Element>)

  /** All moves of the elements before 'i', and those before arc 'k' of element 'i'. */
  predicate Walked(i: nat, k: nat, i': nat, k': nat) {
    i' < i || (i' == i && k' < k)
  }

  ghost predicate CollectsBefore(f: Fst<Tropical>, subset: seq<Element>, a: int, elements: seq<Element>, i: nat, k: nat) {
    && (forall e :: e in elements ==> exists i': nat, k': nat :: Walked(i, k, i', k') && IsMove(f, subset, a, i', k') && Moved(f, subset, a, i', k') == e)
    && (forall i': nat, k': nat :: Walked(i, k, i', k') && IsMove(f, subset, a, i', k') ==> Moved(f, subset, a, i', k') in elements)
  }

  ghost predicate MapCollects(f: Fst<Tropical>, subset: seq<Element>, labelMap: map<int, seq<Element>>, i: nat, k: nat) {
    forall a :: CollectsBefore(f, subset, a, if a in labelMap then labelMap[a] else [], i, k)
  }

  /** DefaultDeterminizeFilter::FilterArc. */
  function FilterArc(labelMap: map<int, seq<Element>>, a: int, e: Element): map<int, seq<Element>> {
    labelMap[a := [e] + (if a in labelMap then labelMap[a] else [])]
  }

  lemma FilterArcCollects(f: Fst<Tropical>, subset: seq<Element>, labelMap: map<int, seq<Element>>, i: nat, k: nat, a: int)
    requires MapCollects(f, subset, labelMap, i, k) && IsMove(f, subset, a, i, k)
    ensures MapCollects(f, subset, FilterArc(labelMap, a, Moved(f, subset, a, i, k)), i, k + 1)
  {
    var labelMap' := FilterArc(labelMap, a, Moved(f, subset, a, i, k));
    forall b ensures CollectsBefore(f, subset, b, if b in labelMap' then labelMap'[b] else [], i, k + 1) {
      var elements := if b in labelMap then labelMap[b] else [];
      assert CollectsBefore(f, subset, b, elements, i, k);
      OneMore(f, subset, b, elements, i, k, a);
    }
  }

  lemma OneMore(f: Fst<Tropical>, subset: seq<Element>, b: int, elements: seq<Element>, i: nat, k: nat, a: int)
    requires CollectsBefore(f, subset, b, elements, i, k) && IsMove(f, subset, a, i, k)
    ensures CollectsBefore(f, subset, b, (if a == b then [Moved(f, subset, a, i, k)] else []) + elements, i, k + 1)
  {
    var elements' := (if a == b then [Moved(f, subset, a, i, k)] else []) + elements;
    forall e | e in elements'
      ensures exists i': nat, k': nat :: Walked(i, k + 1, i', k') && IsMove(f, subset, b, i', k') && Moved(f, subset, b, i', k') == e
    {
      if e in elements {
        var i': nat, k': nat :| Walked(i, k, i', k') && IsMove(f, subset, b, i', k') && Moved(f, subset, b, i', k') == e;
        assert Walked(i, k + 1, i', k');
      } else {
        assert Walked(i, k + 1, i, k);
      }
    }
    forall i': nat, k': nat | Walked(i, k + 1, i', k') && IsMove(f, subset, b, i', k')
      ensures Moved(f, subset, b, i', k') in elements'
    {
      if Walked(i, k, i', k') { assert Moved(f, subset, b, i', k') in elements; }
    }
  }

  /** Once all arcs of element 'i' are walked, the next element is up. */
  lemma NextElement(f: Fst<Tropical>, subset: seq<Element>, labelMap: map<int, seq<Element>>, i: nat, k: nat)
    requires MapCollects(f, subset, labelMap, i, k)
    requires forall a, k': nat :: k <= k' ==> !IsMove(f, subset, a, i, k')
    ensures MapCollects(f, subset, labelMap, i + 1, 0)
  {
    forall a ensures CollectsBefore(f, subset, a, if a in labelMap then labelMap[a] else [], i + 1, 0) {
      var elements := if a in labelMap then labelMap[a] else [];
      assert CollectsBefore(f, subset, a, elements, i, k);
      forall e | e in elements
        ensures exists i': nat, k': nat :: Walked(i + 1, 0, i', k') && IsMove(f, subset, a, i', k') && Moved(f, subset, a, i', k') == e
      {
        var i': nat, k': nat :| Walked(i, k, i', k') && IsMove(f, subset, a, i', k') && Moved(f, subset, a, i', k') == e;
        assert Walked(i + 1, 0, i', k');
      }
      forall i': nat, k': nat | Walked(i + 1, 0, i', k') && IsMove(f, subset, a, i', k')
        ensures Moved(f, subset, a, i', k') in elements
      {
        assert Walked(i, k, i', k');
      }
    }
  }

  // ------------------------------------------------------------ what an expansion is

  /** 'arcs' leave the state of 'subset': one for each label that moves somewhere, labels increasing. */
  ghost predicate IsExpansion(f: Fst<Tropical>, tuples: seq<seq<Element>>, subset: seq<Element>, arcs: seq<Arc<Tropical>>) {
    && (forall i, j :: 0 <= i < j < |arcs| ==> arcs[i].ilabel < arcs[j].ilabel)
    && (forall i :: 0 <= i < |arcs| ==> IsDetArc(f, tuples, subset, arcs[i]))
    && (forall a: int, i: nat, k: nat :: IsMove(f, subset, a, i, k) ==> HasArc(arcs, a))
  }

  ghost predicate IsDetArc(f: Fst<Tropical>, tuples: seq<seq<Element>>, subset: seq<Element>, arc: Arc<Tropical>) {
    && arc.olabel == arc.ilabel && arc.nextstate < |tuples|
    && IsStep(f, subset, arc.ilabel, arc.weight, tuples[arc.nextstate])
  }

  ghost predicate HasArc(arcs: seq<Arc<Tropical>>, a: int) {
    exists i :: 0 <= i < |arcs| && arcs[i].ilabel == a
  }

  ghost predicate TableOk(f: Fst<Tropical>, tuples: seq<seq<Element>>) {
    && (forall i, j :: 0 <= i < j < |tuples| ==> tuples[i] != tuples[j])
    && (forall s :: 0 <= s < |tuples| ==> IsSubset(f, tuples[s]))
  }

  ghost predicate CacheOk(f: Fst<Tropical>, tuples: seq<seq<Element>>, arcs: map<nat, seq<Arc<Tropical>>>) {
    forall s :: s in arcs ==> s < |tuples| && IsExpansion(f, tuples, tuples[s], arcs[s])
  }

  lemma CacheOkGrows(f: Fst<Tropical>, tuples: seq<seq<Element>>, tuples': seq<seq<Element>>, arcs: map<nat, seq<Arc<Tropical>>>)
    requires CacheOk(f, tuples, arcs) && tuples <= tuples'
    ensures CacheOk(f, tuples', arcs)
  {
    forall s | s in arcs ensures s < |tuples'| && IsExpansion(f, tuples', tuples'[s], arcs[s]) {
      assert IsExpansion(f, tuples, tuples[s], arcs[s]);
      forall i | 0 <= i < |arcs[s]| ensures IsDetArc(f, tuples', tuples[s], arcs[s][i]) {
        assert IsDetArc(f, tuples, tuples[s], arcs[s][i]);
      }
    }
  }

  /** The proto-arcs of all labels. */
  ghost predicate DetArcsOk(f: Fst<Tropical>, subset: seq<Element>, detArcs: map<int, DetArc>) {
    && (forall a :: a in detArcs ==> IsStep(f, subset, a, detArcs[a].weight, detArcs[a].subset))
    && (forall a: int, i: nat, k: nat :: IsMove(f, subset, a, i, k) ==> a in detArcs)
  }

  /** An entry of the finished label map holds what its label collects. */
  lemma EntryCollects(f: Fst<Tropical>, subset: seq<Element>, labelMap: map<int, seq<Element>>, a: int)
    requires IsInput(f) && IsSubset(f, subset) && MapCollects(f, subset, labelMap, |subset|, 0)
    ensures CollectsMoves(f, subset, a, if a in labelMap then labelMap[a] else [])
    ensures a in labelMap ==> AllFinite(labelMap[a])
  {
    var elements := if a in labelMap then labelMap[a] else [];
    assert CollectsBefore(f, subset, a, elements, |subset|, 0);
    forall i: nat, k: nat | IsMove(f, subset, a, i, k) ensures Moved(f, subset, a, i, k) in elements {
      assert Walked(|subset|, 0, i, k);
    }
    forall i | 0 <= i < |elements| ensures elements[i].weight.Finite? {
      assert elements[i] in elements;
    }
  }

  lemma SomeLabel(labels: set<int>) returns (l: int)
    requires labels != {}
    ensures l in labels
  {
    NoneMeansEmpty(labels);
    l :| l in labels;
  }

  lemma LeastLabel(labels: set<int>) returns (l: int)
    requires labels != {}
    ensures l in labels && forall a :: a in labels ==> l <= a
    decreases |labels|
  {
    l := SomeLabel(labels);
    if b :| b in labels && b < l {
      var smaller := set a | a in labels && a < l;
      assert b in smaller && l !in smaller;
      SubsetIsSmaller(smaller, labels);
      var m := LeastLabel(smaller);
      assert forall a :: a in labels ==> m <= a by {
        forall a | a in labels ensures m <= a {
          if a < l { assert a in smaller; }
        }
      }
      l := m;
    }
  }

  class DeterminizeFsaImpl {
    const fst: Fst<Tropical>

    var tuples: seq<seq<Element>>
    var arcs: map<nat, seq<Arc<Tropical>>>

    constructor (fst: Fst<Tropical>)
      requires IsInput(fst)
      ensures this.fst == fst && Valid() && tuples == [] && arcs == map[]
    {
      this.fst := fst;
      tuples, arcs := [], map[];
    }

    ghost predicate Valid()
      reads this
    {
      IsInput(fst) && TableOk(fst, tuples) && CacheOk(fst, tuples, arcs)
    }

    method FindState(subset: seq<Element>) returns (s: nat)
      requires TableOk(fst, tuples) && IsSubset(fst, subset)
      modifies this`tuples
      ensures TableOk(fst, tuples) && old(tuples) <= tuples
      ensures s < |tuples| && tuples[s] == subset
      ensures subset in old(tuples) ==> tuples == old(tuples)
    {
      s := 0;
      while s < |tuples|
        invariant s <= |tuples|
        invariant subset !in tuples[..s]
      {
        if tuples[s] == subset { return; }
        s := s + 1;
      }
      tuples := tuples + [subset];
    }

    method ComputeStart() returns (s: int)
      requires Valid()
      modifies this`tuples
      ensures Valid() && old(tuples) <= tuples
      ensures s == NO_STATE_ID <==> fst.start == NO_STATE_ID
      ensures s != NO_STATE_ID ==> 0 <= s < |tuples| && tuples[s] == [Element(fst.start, ONE)]
    {
      if fst.start == NO_STATE_ID { return NO_STATE_ID; }
      var subset := [Element(fst.start, ONE)];
      assert subset[0].weight == ONE;
      s := FindState(subset);
      CacheOkGrows(fst, old(tuples), tuples, arcs);
    }

    method ComputeFinal(s: nat) returns (w: Tropical)
      requires Valid() && s < |tuples|
      ensures forall i :: 0 <= i < |tuples[s]| ==> tuples[s][i].state < |fst.finals|
      ensures w == FinalWeight(fst, tuples[s])
    {
      var subset := tuples[s];
      assert IsSubset(fst, subset);
      w := ZERO;
      var i := 0;
      while i < |subset|
        invariant 0 <= i <= |subset|
        invariant w == FinalWeight(fst, subset[..i])
      {
        assert subset[..i + 1][..i] == subset[..i];
        w := Plus(w, Times(subset[i].weight, fst.finals[subset[i].state]));
        i := i + 1;
      }
      assert subset[..i] == subset;
    }

    method Expand(s: nat)
      requires Valid() && s < |tuples|
      modifies this
      ensures Valid() && old(tuples) <= tuples
      ensures arcs.Keys == old(arcs.Keys) + {s}
      ensures forall r :: r in old(arcs) && r != s ==> arcs[r] == old(arcs)[r]
    {
      var subset := tuples[s];
      var detArcs := GetLabelMap(subset);
      var pushed := AddArcs(subset, detArcs);
      CacheOkGrows(fst, old(tuples), tuples, arcs);
      arcs := arcs[s := pushed];
    }

    /** Collects the destinations of all moves by label, then normalizes each. */
    method GetLabelMap(subset: seq<Element>) returns (detArcs: map<int, DetArc>)
      requires IsInput(fst) && IsSubset(fst, subset)
      ensures DetArcsOk(fst, subset, detArcs)
      ensures forall a :: a in detArcs ==> IsLeast(ONE, detArcs[a].subset)
    {
      var labelMap := CollectMoves(subset);
      detArcs := map[];
      var labels := labelMap.Keys;
      while labels != {}
        invariant labels <= labelMap.Keys && detArcs.Keys == labelMap.Keys - labels
        invariant forall a :: a in detArcs ==> IsStep(fst, subset, a, detArcs[a].weight, detArcs[a].subset)
        decreases labels
      {
        ghost var some := SomeLabel(labels);
        var a :| a in labels;
        EntryCollects(fst, subset, labelMap, a);
        var weight, next := NormArc(labelMap[a]);
        NormalizedIsStep(fst, subset, a, labelMap[a], weight, next);
        detArcs := detArcs[a := DetArc(weight, next)];
        labels := labels - {a};
      }
      forall a: int, i: nat, k: nat | IsMove(fst, subset, a, i, k) ensures a in detArcs {
        EntryCollects(fst, subset, labelMap, a);
      }
    }

    method CollectMoves(subset: seq<Element>) returns (labelMap: map<int, seq<Element>>)
      requires IsInput(fst) && IsSubset(fst, subset)
      ensures MapCollects(fst, subset, labelMap, |subset|, 0)
      ensures forall a :: a in labelMap ==> labelMap[a] != []
    {
      labelMap := map[];
      var i := 0;
      while i < |subset|
        invariant 0 <= i <= |subset|
        invariant MapCollects(fst, subset, labelMap, i, 0)
        invariant forall a :: a in labelMap ==> labelMap[a] != []
      {
        var out := fst.arcs[subset[i].state];
        var k := 0;
        while k < |out|
          invariant 0 <= k <= |out|
          invariant MapCollects(fst, subset, labelMap, i, k)
          invariant forall a :: a in labelMap ==> labelMap[a] != []
        {
          FilterArcCollects(fst, subset, labelMap, i, k, out[k].ilabel);
          labelMap := FilterArc(labelMap, out[k].ilabel, Element(out[k].nextstate, Times(subset[i].weight, out[k].weight)));
          k := k + 1;
        }
        NextElement(fst, subset, labelMap, i, k);
        i := i + 1;
      }
    }

    /** Pushes one arc for each label, in increasing order of labels. */
    method AddArcs(subset: seq<Element>, detArcs: map<int, DetArc>) returns (pushed: seq<Arc<Tropical>>)
      requires TableOk(fst, tuples) && DetArcsOk(fst, subset, detArcs)
      modifies this`tuples
      ensures TableOk(fst, tuples) && old(tuples) <= tuples
      ensures IsExpansion(fst, tuples, subset, pushed)
    {
      hide HasArc;
      pushed := [];
      var labels := detArcs.Keys;
      while labels != {}
        invariant TableOk(fst, tuples) && old(tuples) <= tuples && labels <= detArcs.Keys
        invariant forall i :: 0 <= i < |pushed| ==> IsDetArc(fst, tuples, subset, pushed[i])
        invariant forall i, j :: 0 <= i < j < |pushed| ==> pushed[i].ilabel < pushed[j].ilabel
        invariant forall i, a :: 0 <= i < |pushed| && a in labels ==> pushed[i].ilabel < a
        invariant forall a :: a in detArcs && a !in labels ==> HasArc(pushed, a)
        decreases labels
      {
        ghost var least := LeastLabel(labels);
        var a :| a in labels && forall b :: b in labels ==> a <= b;
        ghost var before, soFar, todo := tuples, pushed, labels;
        var s := FindState(detArcs[a].subset);
        pushed := pushed + [Arc(a, a, detArcs[a].weight, s)];
        labels := labels - {a};
        DetArcsGrow(fst, before, tuples, subset, soFar, pushed[|soFar|]);
        forall b | b in detArcs && b !in labels ensures HasArc(pushed, b) {
          HasArcGrows(soFar, pushed[|soFar|], b);
        }
      }
    }
  }

  lemma DetArcsGrow(f: Fst<Tropical>, before: seq<seq<Element>>, tuples: seq<seq<Element>>, subset: seq<Element>,
                    arcs: seq<Arc<Tropical>>, arc: Arc<Tropical>)
    requires before <= tuples && IsDetArc(f, tuples, subset, arc)
    requires forall i :: 0 <= i < |arcs| ==> IsDetArc(f, before, subset, arcs[i])
    ensures forall i :: 0 <= i < |arcs + [arc]| ==> IsDetArc(f, tuples, subset, (arcs + [arc])[i])
  {
    hide IsStep;
    forall i | 0 <= i < |arcs| ensures IsDetArc(f, tuples, subset, arcs[i]) {
      assert IsDetArc(f, before, subset, arcs[i]);
    }
  }

  lemma HasArcGrows(arcs: seq<Arc<Tropical>>, arc: Arc<Tropical>, a: int)
    ensures HasArc(arcs, a) || arc.ilabel == a ==> HasArc(arcs + [arc], a)
  {
    if i :| 0 <= i < |arcs| && arcs[i].ilabel == a {
      assert (arcs + [arc])[i].ilabel == a;
    } else if arc.ilabel == a {
      assert (arcs + [arc])[|arcs|].ilabel == a;
    }
  }

  // ------------------------------------------------------------ the theorem

  /** The determinized FST as far as it has been expanded: other states show no arcs yet. */
  ghost function Result(f: Fst<Tropical>, tuples: seq<seq<Element>>, arcs: map<nat, seq<Arc<Tropical>>>, start: int): Fst<Tropical>
    requires TableOk(f, tuples) && IsInput(f)
  {
    Fst(start,
        seq(|tuples|, s requires 0 <= s < |tuples| => assert IsSubset(f, tuples[s]); FinalWeight(f, tuples[s])),
        seq(|tuples|, s requires 0 <= s < |tuples| => if s in arcs then arcs[s] else []))
  }

  /** What a DeterminizeFsaImpl holds, and what its ComputeStart answered. */
  ghost predicate Started(f: Fst<Tropical>, tuples: seq<seq<Element>>, arcs: map<nat, seq<Arc<Tropical>>>, start: int) {
    && IsInput(f) && TableOk(f, tuples) && CacheOk(f, tuples, arcs)
    && 0 <= f.start && 0 <= start < |tuples| && tuples[start] == [Element(f.start, ONE)]
  }

  lemma ExpandedArc(f: Fst<Tropical>, tuples: seq<seq<Element>>, arcs: map<nat, seq<Arc<Tropical>>>, start: int, s: nat, i: nat)
    requires Started(f, tuples, arcs, start)
    requires s < |tuples| && i < |Result(f, tuples, arcs, start).arcs[s]|
    ensures IsDetArc(f, tuples, tuples[s], Result(f, tuples, arcs, start).arcs[s][i])
  {
    assert IsExpansion(f, tuples, tuples[s], arcs[s]);
  }

  /** Every path of the result represents, at its end, all that its labels can lead to in the input:
      arc weights times residual are the least path weight, state by state. */
  lemma {:induction false} DetPathRepresents(f: Fst<Tropical>, tuples: seq<seq<Element>>, arcs: map<nat, seq<Arc<Tropical>>>,
                                             start: int, p: seq<nat>)
    requires Started(f, tuples, arcs, start)
    requires IsPath(Result(f, tuples, arcs, start), start, p)
    ensures var d := Result(f, tuples, arcs, start);
            PathEnd(d, start, p) < |tuples|
            && Represents(f, Labels(d, start, p), Weight(d, start, p), tuples[PathEnd(d, start, p)])
    decreases |p|
  {
    var d := Result(f, tuples, arcs, start);
    if p == [] {
      StartRepresents(f);
    } else {
      var n := |p| - 1;
      Snoc(d, start, p);
      DetPathRepresents(f, tuples, arcs, start, p[..n]);
      var s := PathEnd(d, start, p[..n]);
      ExpandedArc(f, tuples, arcs, start, s, p[n]);
      var arc := d.arcs[s][p[n]];
      StepRepresents(f, Labels(d, start, p[..n]), Weight(d, start, p[..n]), tuples[s], arc.ilabel, arc.weight, tuples[arc.nextstate]);
    }
  }

  /** The path of the result that reads 'u' gives 'u' the weight that the input gives it. */
  lemma DetPathKeepsWeight(f: Fst<Tropical>, tuples: seq<seq<Element>>, arcs: map<nat, seq<Arc<Tropical>>>, start: int, p: seq<nat>)
    requires Started(f, tuples, arcs, start)
    requires IsPath(Result(f, tuples, arcs, start), start, p)
    ensures var d := Result(f, tuples, arcs, start);
            PathEnd(d, start, p) < |tuples|
            && IsStringWeight(f, Labels(d, start, p), Times(Weight(d, start, p), d.finals[PathEnd(d, start, p)]))
  {
    var d := Result(f, tuples, arcs, start);
    DetPathRepresents(f, tuples, arcs, start, p);
    RepresentsStringWeight(f, Labels(d, start, p), Weight(d, start, p), tuples[PathEnd(d, start, p)]);
  }

  /** No state has two arcs with one label: a string is read by at most one path. */
  lemma {:induction false} DetPathUnique(f: Fst<Tropical>, tuples: seq<seq<Element>>, arcs: map<nat, seq<Arc<Tropical>>>,
                                         start: int, s: nat, p: seq<nat>, p': seq<nat>)
    requires Started(f, tuples, arcs, start)
    requires var d := Result(f, tuples, arcs, start);
             IsPath(d, s, p) && IsPath(d, s, p') && Labels(d, s, p) == Labels(d, s, p')
    ensures p == p'
    decreases |p|
  {
    hide IsExpansion, IsSubset, IsStep, CacheOk, TableOk;
    var d := Result(f, tuples, arcs, start);
    if p != [] { LabelsHead(d, s, p); }
    if p' != [] { LabelsHead(d, s, p'); }
    if p != [] && p' != [] {
      assert Labels(d, s, p)[0] == d.arcs[s][p[0]].ilabel && Labels(d, s, p')[0] == d.arcs[s][p'[0]].ilabel;
      SameArc(f, tuples, arcs, start, s, p[0], p'[0]);
      var t := d.arcs[s][p[0]].nextstate;
      assert Labels(d, s, p)[1..] == Labels(d, t, p[1..]) && Labels(d, s, p')[1..] == Labels(d, t, p'[1..]);
      DetPathUnique(f, tuples, arcs, start, t, p[1..], p'[1..]);
      assert p == [p[0]] + p[1..] && p' == [p'[0]] + p'[1..];
    }
  }

  lemma LabelsHead(d: Fst<Tropical>, s: nat, p: seq<nat>)
    requires IsPath(d, s, p) && p != []
    ensures IsPath(d, d.arcs[s][p[0]].nextstate, p[1..])
    ensures Labels(d, s, p) == [d.arcs[s][p[0]].ilabel] + Labels(d, d.arcs[s][p[0]].nextstate, p[1..])
  {
  }

  /** No state has two arcs with one label. */
  lemma SameArc(f: Fst<Tropical>, tuples: seq<seq<Element>>, arcs: map<nat, seq<Arc<Tropical>>>, start: int, s: nat, i: nat, j: nat)
    requires Started(f, tuples, arcs, start)
    requires var d := Result(f, tuples, arcs, start);
             s < |d.arcs| && i < |d.arcs[s]| && j < |d.arcs[s]| && d.arcs[s][i].ilabel == d.arcs[s][j].ilabel
    ensures i == j
  {
    hide IsDetArc, HasArc, IsSubset;
    if s in arcs { assert IsExpansion(f, tuples, tuples[s], arcs[s]); }
  }

  /** Every string that the input reads is read by the result, as far as it has been expanded. */
  lemma {:induction false} DetPathExists(f: Fst<Tropical>, tuples: seq<seq<Element>>, arcs: map<nat, seq<Arc<Tropical>>>,
                                         start: int, u: seq<int>, p0: seq<nat>) returns (p: seq<nat>)
    requires Started(f, tuples, arcs, start)
    requires IsPath(f, f.start, p0) && Labels(f, f.start, p0) == u
    requires forall s :: 0 <= s < |tuples| ==> s in arcs
    ensures IsPath(Result(f, tuples, arcs, start), start, p) && Labels(Result(f, tuples, arcs, start), start, p) == u
    decreases |u|
  {
    var d := Result(f, tuples, arcs, start);
    if p0 == [] {
      p := [];
    } else {
      var n := |p0| - 1;
      Snoc(f, f.start, p0);
      var q, a := PathEnd(f, f.start, p0[..n]), u[|u| - 1];
      var u' := Labels(f, f.start, p0[..n]);
      p := DetPathExists(f, tuples, arcs, start, u', p0[..n]);
      DetPathRepresents(f, tuples, arcs, start, p);
      var s := PathEnd(d, start, p);
      var i := MemberOf(f, u', Weight(d, start, p), tuples[s], q, p0[..n]);
      assert IsMove(f, tuples[s], a, i, p0[n]);
      assert IsExpansion(f, tuples, tuples[s], arcs[s]);
      var k: nat :| k < |arcs[s]| && arcs[s][k].ilabel == a;
      ResultValid(f, tuples, arcs, start);
      Extend(d, start, p, k);
      p := p + [k];
    }
  }

  lemma MemberOf(f: Fst<Tropical>, u: seq<int>, w: Tropical, subset: seq<Element>, q: nat, p: seq<nat>) returns (i: nat)
    requires IsInput(f) && Represents(f, u, w, subset) && Reads(f, u, q, p)
    ensures i < |subset| && subset[i].state == q
  {
    FiniteWeight(f, f.start, p);
    assert IsBest(f, u, q, Times(w, WeightAt(subset, q)));
    WeightIsFinite(subset, q);
    i :| 0 <= i < |subset| && subset[i].state == q;
  }

  lemma ResultValid(f: Fst<Tropical>, tuples: seq<seq<Element>>, arcs: map<nat, seq<Arc<Tropical>>>, start: int)
    requires Started(f, tuples, arcs, start)
    ensures Result(f, tuples, arcs, start).Valid()
  {
    var d := Result(f, tuples, arcs, start);
    forall s, i | 0 <= s < |d.arcs| && 0 <= i < |d.arcs[s]| ensures d.arcs[s][i].nextstate < |d.arcs| {
      ExpandedArc(f, tuples, arcs, start, s, i);
    }
  }

  /** Once every state met has been expanded, every string keeps its weight. */
  lemma DeterminizeKeepsStringWeights(f: Fst<Tropical>, tuples: seq<seq<Element>>, arcs: map<nat, seq<Arc<Tropical>>>,
                                      start: int, u: seq<int>, v: Tropical)
    requires Started(f, tuples, arcs, start)
    requires forall s :: 0 <= s < |tuples| ==> s in arcs
    ensures IsStringWeight(Result(f, tuples, arcs, start), u, v) <==> IsStringWeight(f, u, v)
  {
    var d := Result(f, tuples, arcs, start);
    if p :| IsPath(d, start, p) && Labels(d, start, p) == u {
      DetPathKeepsWeight(f, tuples, arcs, start, p);
      var w := Times(Weight(d, start, p), d.finals[PathEnd(d, start, p)]);
      assert Accepts(d, u, p, w);
      forall p', v' | Accepts(d, u, p', v') ensures v' == w {
        DetPathUnique(f, tuples, arcs, start, start, p, p');
      }
      StringWeightUnique(f, u, v, w);
      assert IsStringWeight(d, u, w);
      StringWeightUnique(d, u, v, w);
    } else {
      forall p, v' | Accepts(f, u, p, v') ensures false {
        var q := DetPathExists(f, tuples, arcs, start, u, p);
      }
    }
  }

  lemma StringWeightUnique(f: Fst<Tropical>, u: seq<int>, v: Tropical, w: Tropical)
    requires IsStringWeight(f, u, w)
    ensures IsStringWeight(f, u, v) <==> v == w
  {
  }
}
