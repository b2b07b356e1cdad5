/** Weighted finite-state transducers as values: the shared vocabulary of the other modules.

A path is the sequence of the positions, in the arc lists of the states it
visits, of the arcs it takes; parallel arcs therefore give different paths.
*/
module Fst {

  const NO_LABEL: int := -1
  const EPSILON: int := 0
  const NO_STATE_ID: int := -1

  datatype Arc<+W> = Arc(ilabel: int, olabel: int, weight: W, nextstate: nat)

  /** A commutative semiring, as far as the modelled algorithms use one. */
  datatype Semiring<!W> = Semiring(zero: W, one: W, times: (W, W) -> W)

  ghost predicate IsCommutative<W(!new)>(sr: Semiring<W>) {
    && (forall x, y :: sr.times(x, y) == sr.times(y, x))
    && (forall x, y, z :: sr.times(sr.times(x, y), z) == sr.times(x, sr.times(y, z)))
    && (forall x :: sr.times(sr.one, x) == x)
    && (forall x :: sr.times(sr.zero, x) == sr.zero)
  }

  /** An expanded FST: states are 0..|arcs|, 'finals' holds their final weights. */
  datatype Fst<+W> = Fst(start: int, finals: seq<W>, arcs: seq<seq<Arc<W>>>) {

    ghost predicate Valid() {
      && |finals| == |arcs|
      && NO_STATE_ID <= start < |arcs|
      && forall s, i :: 0 <= s < |arcs| && 0 <= i < |arcs[s]| ==> arcs[s][i].nextstate < |arcs|
    }
  }

  /** 'p' follows arcs of 'f' out of state 's'. */
  ghost predicate IsPath<W>(f: Fst<W>, s: nat, p: seq<nat>)
    decreases |p|
  {
    s < |f.arcs| &&
    (p == [] || (p[0] < |f.arcs[s]| && IsPath(f, f.arcs[s][p[0]].nextstate, p[1..])))
  }

  /** The state a path ends in. */
  ghost function PathEnd<W>(f: Fst<W>, s: nat, p: seq<nat>): nat
    requires IsPath(f, s, p)
    decreases |p|
  {
    if p == [] then s else PathEnd(f, f.arcs[s][p[0]].nextstate, p[1..])
  }

  /** The labels other than epsilon along a path, on its input or its output side. */
  ghost function PathString<W>(f: Fst<W>, s: nat, p: seq<nat>, input: bool): seq<int>
    requires IsPath(f, s, p)
    decreases |p|
  {
    if p == [] then []
    else
      var arc := f.arcs[s][p[0]];
      NonEpsilon(MatchLabel(arc, input)) + PathString(f, arc.nextstate, p[1..], input)
  }

  function NonEpsilon(l: int): seq<int> {
    if l == EPSILON then [] else [l]
  }

  function MatchLabel<W>(arc: Arc<W>, input: bool): int {
    if input then arc.ilabel else arc.olabel
  }

  ghost function PathWeight<W>(sr: Semiring<W>, f: Fst<W>, s: nat, p: seq<nat>): W
    requires IsPath(f, s, p)
    decreases |p|
  {
    if p == [] then sr.one
    else sr.times(f.arcs[s][p[0]].weight, PathWeight(sr, f, f.arcs[s][p[0]].nextstate, p[1..]))
  }

  lemma PathCons<W>(f: Fst<W>, s: nat, i: nat, p: seq<nat>)
    requires s < |f.arcs| && i < |f.arcs[s]|
    requires IsPath(f, f.arcs[s][i].nextstate, p)
    ensures var arc := f.arcs[s][i];
            && IsPath(f, s, [i] + p)
            && PathEnd(f, s, [i] + p) == PathEnd(f, arc.nextstate, p)
            && PathString(f, s, [i] + p, true) == NonEpsilon(arc.ilabel) + PathString(f, arc.nextstate, p, true)
            && PathString(f, s, [i] + p, false) == NonEpsilon(arc.olabel) + PathString(f, arc.nextstate, p, false)
  {
    assert ([i] + p)[1..] == p;
  }
}
