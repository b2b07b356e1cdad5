/** Reachability in the graph of an FST. */
module Reach {
  import opened Fst

  ghost predicate PathTo<W>(f: Fst<W>, u: nat, v: nat, p: seq<nat>) {
    IsPath(f, u, p) && PathEnd(f, u, p) == v
  }

  ghost predicate Reaches<W>(f: Fst<W>, u: nat, v: nat) {
    exists p :: PathTo(f, u, v, p)
  }

  /** Target of the i-th arc of a state; any number where there is no such arc. */
  function Target<W>(f: Fst<W>, s: nat, i: nat): nat {
    if s < |f.arcs| && i < |f.arcs[s]| then f.arcs[s][i].nextstate else 0
  }

  function OutDegree<W>(f: Fst<W>, s: nat): nat {
    if s < |f.arcs| then |f.arcs[s]| else 0
  }

  lemma ReachesSelf<W>(f: Fst<W>, u: nat)
    requires u < |f.arcs|
    ensures Reaches(f, u, u)
  {
    assert PathTo(f, u, u, []);
  }

  lemma ReachesArc<W>(f: Fst<W>, u: nat, i: nat)
    requires f.Valid() && u < |f.arcs| && i < OutDegree(f, u)
    ensures Reaches(f, u, Target(f, u, i))
  {
    assert [i][1..] == [];
    assert IsPath(f, Target(f, u, i), []);
    assert IsPath(f, u, [i]) && PathEnd(f, u, [i]) == Target(f, u, i);
    assert PathTo(f, u, Target(f, u, i), [i]);
  }

  lemma {:induction false} PathJoin<W>(f: Fst<W>, u: nat, v: nat, w: nat, p: seq<nat>, q: seq<nat>)
    requires PathTo(f, u, v, p) && PathTo(f, v, w, q)
    ensures PathTo(f, u, w, p + q)
    decreases |p|
  {
    if p == [] {
      assert p + q == q;
    } else {
      PathJoin(f, f.arcs[u][p[0]].nextstate, v, w, p[1..], q);
      assert (p + q)[1..] == p[1..] + q;
    }
  }

  lemma ReachesTransitive<W>(f: Fst<W>, u: nat, v: nat, w: nat)
    requires Reaches(f, u, v) && Reaches(f, v, w)
    ensures Reaches(f, u, w)
  {
    var p :| PathTo(f, u, v, p);
    var q :| PathTo(f, v, w, q);
    PathJoin(f, u, v, w, p, q);
  }

  ghost predicate Closed<W>(f: Fst<W>, states: set<nat>) {
    forall u: nat, i: nat :: u in states && i < OutDegree(f, u) ==> Target(f, u, i) in states
  }

  /** A path never leaves a set of states that is closed under arcs. */
  lemma {:induction false} PathStaysInside<W>(f: Fst<W>, states: set<nat>, u: nat, v: nat, p: seq<nat>)
    requires Closed(f, states) && u in states && PathTo(f, u, v, p)
    ensures v in states
    decreases |p|
  {
    if p != [] {
      assert Target(f, u, p[0]) in states;
      PathStaysInside(f, states, f.arcs[u][p[0]].nextstate, v, p[1..]);
    }
  }

  lemma ReachesStaysInside<W>(f: Fst<W>, states: set<nat>, u: nat, v: nat)
    requires Closed(f, states) && u in states && Reaches(f, u, v)
    ensures v in states
  {
    var p :| PathTo(f, u, v, p);
    PathStaysInside(f, states, u, v, p);
  }

  /** Some final state can be reached from 's'. */
  ghost predicate Coaccessible<W>(f: Fst<W>, zero: W, s: nat) {
    exists t :: Reaches(f, s, t) && IsFinal(f, zero, t)
  }

  predicate IsFinal<W(==)>(f: Fst<W>, zero: W, s: nat) {
    s < |f.finals| && f.finals[s] != zero
  }

  lemma CoaccessibleBack<W>(f: Fst<W>, zero: W, u: nat, v: nat)
    requires Reaches(f, u, v) && Coaccessible(f, zero, v)
    ensures Coaccessible(f, zero, u)
  {
    var t :| Reaches(f, v, t) && IsFinal(f, zero, t);
    ReachesTransitive(f, u, v, t);
  }
}
