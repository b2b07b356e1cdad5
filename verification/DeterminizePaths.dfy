/** Why the subset construction keeps the weight of every string. */
module DeterminizePaths {
  import opened Fst
  import opened Determinize

  /** The input labels along a path, epsilon included: determinization treats it as any label. */
  ghost function Labels(f: Fst<Tropical>, s: nat, p: seq<nat>): seq<int>
    requires IsPath(f, s, p)
    decreases |p|
  {
    if p == [] then []
    else [f.arcs[s][p[0]].ilabel] + Labels(f, f.arcs[s][p[0]].nextstate, p[1..])
  }

  ghost function Weight(f: Fst<Tropical>, s: nat, p: seq<nat>): Tropical
    requires IsPath(f, s, p)
    decreases |p|
  {
    if p == [] then ONE
    else Times(f.arcs[s][p[0]].weight, Weight(f, f.arcs[s][p[0]].nextstate, p[1..]))
  }

  /** A path taken apart at its last arc. */
  lemma {:induction false} Snoc(f: Fst<Tropical>, s: nat, p: seq<nat>)
    requires IsPath(f, s, p) && p != []
    ensures var n := |p| - 1;
            && IsPath(f, s, p[..n])
            && var e := PathEnd(f, s, p[..n]);
            && e < |f.arcs| && p[n] < |f.arcs[e]|
            && PathEnd(f, s, p) == f.arcs[e][p[n]].nextstate < |f.arcs|
            && Labels(f, s, p) == Labels(f, s, p[..n]) + [f.arcs[e][p[n]].ilabel]
            && Weight(f, s, p) == Times(Weight(f, s, p[..n]), f.arcs[e][p[n]].weight)
    decreases |p|
  {
    var n := |p| - 1;
    if n > 0 {
      var t := f.arcs[s][p[0]].nextstate;
      Snoc(f, t, p[1..]);
      assert p[1..][..n - 1] == p[..n][1..];
    }
  }

  lemma {:induction false} Extend(f: Fst<Tropical>, s: nat, p: seq<nat>, k: nat)
    requires f.Valid() && IsPath(f, s, p) && PathEnd(f, s, p) < |f.arcs| && k < |f.arcs[PathEnd(f, s, p)]|
    ensures var e := PathEnd(f, s, p);
            && IsPath(f, s, p + [k])
            && PathEnd(f, s, p + [k]) == f.arcs[e][k].nextstate
            && Labels(f, s, p + [k]) == Labels(f, s, p) + [f.arcs[e][k].ilabel]
            && Weight(f, s, p + [k]) == Times(Weight(f, s, p), f.arcs[e][k].weight)
    decreases |p|
  {
    if p == [] {
      assert p + [k] == [k] && [k][1..] == [];
    } else {
      Extend(f, f.arcs[s][p[0]].nextstate, p[1..], k);
      assert (p + [k])[1..] == p[1..] + [k];
    }
  }

  /** 'p' reads 'u' from the start state to 'q'. */
  ghost predicate Reads(f: Fst<Tropical>, u: seq<int>, q: nat, p: seq<nat>) {
    0 <= f.start && IsPath(f, f.start, p) && PathEnd(f, f.start, p) == q && Labels(f, f.start, p) == u
  }

  /** 'v' is the sum (the least) of the weights of all paths that read 'u' from the start to 'q'. */
  ghost predicate IsBest(f: Fst<Tropical>, u: seq<int>, q: nat, v: Tropical) {
    && (forall p :: Reads(f, u, q, p) ==> Below(v, Weight(f, f.start, p)))
    && (v.Finite? ==> exists p :: Reads(f, u, q, p) && Weight(f, f.start, p) == v)
  }

  /** A subset reached with weight 'w' represents all that 'u' can lead to. */
  ghost predicate Represents(f: Fst<Tropical>, u: seq<int>, w: Tropical, subset: seq<Element>) {
    && w.Finite? && IsSubset(f, subset)
    && forall q: nat :: IsBest(f, u, q, Times(w, WeightAt(subset, q)))
  }

  lemma EmptyStringIsBest(f: Fst<Tropical>, q: nat)
    requires 0 <= f.start < |f.arcs|
    ensures IsBest(f, [], q, if q == f.start then ONE else ZERO)
  {
    forall p | Reads(f, [], q, p) ensures p == [] && q == f.start {}
    if q == f.start { assert Reads(f, [], q, []) && Weight(f, f.start, []) == ONE; }
  }

  lemma SingletonWeight(s: nat, q: nat)
    ensures Times(ONE, WeightAt([Element(s, ONE)], q)) == if q == s then ONE else ZERO
  {
    assert [Element(s, ONE)][1..] == [];
    assert WeightAt([], q) == ZERO;
  }

  lemma StartRepresents(f: Fst<Tropical>)
    requires IsInput(f) && 0 <= f.start < |f.arcs|
    ensures Represents(f, [], ONE, [Element(f.start, ONE)])
  {
    var subset := [Element(f.start, ONE)];
    assert subset[0].weight == ONE;
    hide IsBest;
    forall q: nat ensures IsBest(f, [], q, Times(ONE, WeightAt(subset, q))) {
      SingletonWeight(f.start, q);
      EmptyStringIsBest(f, q);
    }
  }

  lemma StepIsBelow(f: Fst<Tropical>, u: seq<int>, w: Tropical, subset: seq<Element>, a: int, w': Tropical,
                    next: seq<Element>, q: nat, p: seq<nat>)
    requires IsInput(f) && Represents(f, u, w, subset) && IsStep(f, subset, a, w', next)
    requires Reads(f, u + [a], q, p)
    ensures Below(Times(Times(w, w'), WeightAt(next, q)), Weight(f, f.start, p))
  {
    var n := |p| - 1;
    assert p != [];
    Snoc(f, f.start, p);
    var q0, k := PathEnd(f, f.start, p[..n]), p[n];
    assert (u + [a])[..|u|] == u && (Labels(f, f.start, p[..n]) + [f.arcs[q0][k].ilabel])[..|u|] == Labels(f, f.start, p[..n]);
    assert Reads(f, u, q0, p[..n]);
    FiniteWeight(f, f.start, p[..n]);
    assert IsBest(f, u, q0, Times(w, WeightAt(subset, q0)));
    WeightIsFinite(subset, q0);
    var i :| 0 <= i < |subset| && subset[i].state == q0;
    WeightInCanonical(subset, i);
    assert IsMove(f, subset, a, i, k);
    assert IsLeastMove(f, subset, a, q, Times(w', WeightAt(next, q)));
    assert Below(Times(w', WeightAt(next, q)), Moved(f, subset, a, i, k).weight);
  }

  lemma {:induction false} FiniteWeight(f: Fst<Tropical>, s: nat, p: seq<nat>)
    requires IsInput(f) && IsPath(f, s, p)
    ensures Weight(f, s, p).Finite?
    decreases |p|
  {
    if p != [] { FiniteWeight(f, f.arcs[s][p[0]].nextstate, p[1..]); }
  }

  lemma StepIsAttained(f: Fst<Tropical>, u: seq<int>, w: Tropical, subset: seq<Element>, a: int, w': Tropical,
                       next: seq<Element>, q: nat) returns (p: seq<nat>)
    requires IsInput(f) && Represents(f, u, w, subset) && IsStep(f, subset, a, w', next)
    requires WeightAt(next, q).Finite?
    ensures Reads(f, u + [a], q, p) && Weight(f, f.start, p) == Times(Times(w, w'), WeightAt(next, q))
  {
    var v := Times(w', WeightAt(next, q));
    assert IsLeastMove(f, subset, a, q, v);
    var i: nat, k: nat :| IsMove(f, subset, a, i, k) && Moved(f, subset, a, i, k) == Element(q, v);
    var q0 := subset[i].state;
    WeightInCanonical(subset, i);
    assert IsBest(f, u, q0, Times(w, WeightAt(subset, q0)));
    var p0 :| Reads(f, u, q0, p0) && Weight(f, f.start, p0) == Times(w, WeightAt(subset, q0));
    Extend(f, f.start, p0, k);
    p := p0 + [k];
  }

  /** The invariant of the construction: one step later, the next subset represents the longer string. */
  lemma StepRepresents(f: Fst<Tropical>, u: seq<int>, w: Tropical, subset: seq<Element>, a: int, w': Tropical, next: seq<Element>)
    requires IsInput(f) && Represents(f, u, w, subset) && IsStep(f, subset, a, w', next)
    ensures Represents(f, u + [a], Times(w, w'), next)
  {
    forall q: nat ensures IsBest(f, u + [a], q, Times(Times(w, w'), WeightAt(next, q))) {
      forall p | Reads(f, u + [a], q, p) ensures Below(Times(Times(w, w'), WeightAt(next, q)), Weight(f, f.start, p)) {
        StepIsBelow(f, u, w, subset, a, w', next, q, p);
      }
      if WeightAt(next, q).Finite? {
        var p := StepIsAttained(f, u, w, subset, a, w', next, q);
      }
    }
  }

  // ------------------------------------------------------------ final weights

  /** What a subset adds up to with the final weights of its states, from the front. */
  function FinalWeight(f: Fst<Tropical>, subset: seq<Element>): Tropical
    requires forall i :: 0 <= i < |subset| ==> subset[i].state < |f.finals|
  {
    if subset == [] then ZERO
    else
      var n := |subset| - 1;
      Plus(FinalWeight(f, subset[..n]), Times(subset[n].weight, f.finals[subset[n].state]))
  }

  lemma {:induction false} FinalWeightIsLeast(f: Fst<Tropical>, subset: seq<Element>)
    requires forall i :: 0 <= i < |subset| ==> subset[i].state < |f.finals|
    ensures var v := FinalWeight(f, subset);
            && (forall i :: 0 <= i < |subset| ==> Below(v, Times(subset[i].weight, f.finals[subset[i].state])))
            && (v.Finite? ==> exists i :: 0 <= i < |subset| && Times(subset[i].weight, f.finals[subset[i].state]) == v)
    decreases |subset|
  {
    if subset != [] { FinalWeightIsLeast(f, subset[..|subset| - 1]); }
  }

  /** 'p' reads 'u' and its weight, final weight included, is 'v'. */
  ghost predicate Accepts(f: Fst<Tropical>, u: seq<int>, p: seq<nat>, v: Tropical) {
    && 0 <= f.start && IsPath(f, f.start, p) && Labels(f, f.start, p) == u
    && PathEnd(f, f.start, p) < |f.finals|
    && v == Times(Weight(f, f.start, p), f.finals[PathEnd(f, f.start, p)])
  }

  /** 'v' is the weight that 'f' gives to the string 'u': the sum over all its paths. */
  ghost predicate IsStringWeight(f: Fst<Tropical>, u: seq<int>, v: Tropical) {
    && (forall p, v' :: Accepts(f, u, p, v') ==> Below(v, v'))
    && (v.Finite? ==> exists p :: Accepts(f, u, p, v))
  }

  lemma RepresentsStringWeight(f: Fst<Tropical>, u: seq<int>, w: Tropical, subset: seq<Element>)
    requires IsInput(f) && Represents(f, u, w, subset)
    ensures IsStringWeight(f, u, Times(w, FinalWeight(f, subset)))
  {
    FinalWeightIsLeast(f, subset);
    var v := FinalWeight(f, subset);
    forall p, v' | Accepts(f, u, p, v') ensures Below(Times(w, v), v') {
      var q := PathEnd(f, f.start, p);
      assert Reads(f, u, q, p) && IsBest(f, u, q, Times(w, WeightAt(subset, q)));
      FiniteWeight(f, f.start, p);
      WeightIsFinite(subset, q);
      var i :| 0 <= i < |subset| && subset[i].state == q;
      WeightInCanonical(subset, i);
    }
    if v.Finite? {
      var i :| 0 <= i < |subset| && Times(subset[i].weight, f.finals[subset[i].state]) == v;
      var q := subset[i].state;
      WeightInCanonical(subset, i);
      assert IsBest(f, u, q, Times(w, WeightAt(subset, q)));
      var p :| Reads(f, u, q, p) && Weight(f, f.start, p) == Times(w, WeightAt(subset, q));
      assert Accepts(f, u, p, Times(w, v));
    }
  }
}
