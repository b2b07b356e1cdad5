/** Renumbering the states of an FST in place, by following the cycles of a permutation. */
module StateSorting {
  import opened Fst
  import opened VectorFst

  ghost predicate IsPermutation(order: seq<nat>) {
    && (forall s :: 0 <= s < |order| ==> order[s] < |order|)
    && (forall s, t :: 0 <= s < t < |order| ==> order[s] != order[t])
  }

  /** The arcs with their targets renamed. */
  function Renamed<W>(arcs: seq<Arc<W>>, order: seq<nat>): (r: seq<Arc<W>>)
    requires forall i :: 0 <= i < |arcs| ==> arcs[i].nextstate < |order|
    ensures |r| == |arcs|
    ensures forall i :: 0 <= i < |arcs| ==> r[i] == arcs[i].(nextstate := order[arcs[i].nextstate])
  {
    seq(|arcs|, i requires 0 <= i < |arcs| => arcs[i].(nextstate := order[arcs[i].nextstate]))
  }

  /** State order[s] of 'g' is state 's' of 'f'. */
  ghost predicate MovedState<W>(f: Fst<W>, order: seq<nat>, finals: seq<W>, arcs: seq<seq<Arc<W>>>, s: nat)
    requires f.Valid() && |order| == |f.arcs|
  {
    && s < |order| && order[s] < |finals| && order[s] < |arcs|
    && finals[order[s]] == f.finals[s] && arcs[order[s]] == Renamed(f.arcs[s], order)
  }

  /** 'g' is 'f' with state 's' called order[s]. */
  ghost predicate IsReordering<W>(f: Fst<W>, order: seq<nat>, g: Fst<W>)
    requires f.Valid() && |order| == |f.arcs|
  {
    && |g.arcs| == |g.finals| == |f.arcs|
    && g.start == (if f.start < 0 then f.start else order[f.start])
    && forall s: nat {:trigger order[s]} :: s < |order| ==> MovedState(f, order, g.finals, g.arcs, s)
  }

  /** Equal but for where the arcs lead. */
  ghost predicate LooksAlike<W>(f: Fst<W>, s: nat, t: nat) {
    && s < |f.arcs| && t < |f.arcs| && |f.finals| == |f.arcs| && f.finals[s] == f.finals[t] && |f.arcs[s]| == |f.arcs[t]|
    && forall i :: 0 <= i < |f.arcs[s]| ==> f.arcs[s][i].(nextstate := f.arcs[t][i].nextstate) == f.arcs[t][i]
  }

  ghost predicate StatesDiffer<W>(f: Fst<W>) {
    forall s: nat, t: nat :: LooksAlike(f, s, t) ==> s == t
  }

  predicate IsIdentity(order: seq<nat>) {
    forall s :: 0 <= s < |order| ==> order[s] == s
  }

  // ------------------------------------------------------------ what a reordering keeps

  /** A path of 'f' is a path of 'g', by the same arc positions, with the same strings; its end
      and its weight correspond. */
  lemma {:induction false} PathIsRenamed<W>(f: Fst<W>, order: seq<nat>, g: Fst<W>, s: nat, p: seq<nat>)
    requires f.Valid() && |order| == |f.arcs| && IsPermutation(order) && IsReordering(f, order, g) && s < |f.arcs|
    ensures IsPath(g, order[s], p) <==> IsPath(f, s, p)
    ensures IsPath(f, s, p) ==> PathEnd(f, s, p) < |order| && PathEnd(g, order[s], p) == order[PathEnd(f, s, p)]
    ensures IsPath(f, s, p) ==> forall side :: PathString(g, order[s], p, side) == PathString(f, s, p, side)
    decreases |p|
  {
    assert MovedState(f, order, g.finals, g.arcs, s);
    assert |g.arcs[order[s]]| == |f.arcs[s]|;
    if p != [] && p[0] < |f.arcs[s]| {
      PathIsRenamed(f, order, g, f.arcs[s][p[0]].nextstate, p[1..]);
    }
  }

  lemma {:induction false} PathWeightIsKept<W>(sr: Semiring<W>, f: Fst<W>, order: seq<nat>, g: Fst<W>, s: nat, p: seq<nat>)
    requires f.Valid() && |order| == |f.arcs| && IsPermutation(order) && IsReordering(f, order, g) && s < |f.arcs|
    requires IsPath(f, s, p)
    ensures IsPath(g, order[s], p) && PathWeight(sr, g, order[s], p) == PathWeight(sr, f, s, p)
    decreases |p|
  {
    assert MovedState(f, order, g.finals, g.arcs, s);
    PathIsRenamed(f, order, g, s, p);
    if p != [] { PathWeightIsKept(sr, f, order, g, f.arcs[s][p[0]].nextstate, p[1..]); }
  }

  // ------------------------------------------------------------ the invariant

  /** States that are done have been written to their place; a place that no done state goes to
      is as it was. */
  ghost predicate InProgress<W>(f: Fst<W>, order: seq<nat>, finals: seq<W>, arcs: seq<seq<Arc<W>>>, done: seq<bool>)
    requires f.Valid() && |order| == |f.arcs|
  {
    && |finals| == |arcs| == |done| == |order|
    && (forall s: nat {:trigger done[s]} :: s < |done| && done[s] ==> MovedState(f, order, finals, arcs, s))
    && (forall t: nat {:trigger finals[t]} {:trigger arcs[t]} :: t < |order| && !Written(order, done, t) ==>
          finals[t] == f.finals[t] && arcs[t] == f.arcs[t])
  }

  ghost predicate Written(order: seq<nat>, done: seq<bool>, t: nat) {
    |done| == |order| && exists s: nat :: s < |done| && done[s] && order[s] == t
  }

  /** The done states make up whole cycles, except for one that has come as far as 's1'. */
  ghost predicate CyclesUpTo(order: seq<nat>, done: seq<bool>, s1: nat) {
    |done| == |order| && forall s: nat {:trigger done[s]} :: s < |done| && done[s] ==>
      order[s] == s1 || (order[s] < |done| && done[order[s]])
  }

  /** Writing the state at hand to its place. */
  lemma WriteKeepsProgress<W>(f: Fst<W>, order: seq<nat>, finals: seq<W>, arcs: seq<seq<Arc<W>>>, done: seq<bool>, s1: nat)
    requires f.Valid() && |order| == |f.arcs| && IsPermutation(order)
    requires InProgress(f, order, finals, arcs, done) && s1 < |order| && !done[s1] && CyclesUpTo(order, done, s1)
    ensures var s2 := order[s1];
            && InProgress(f, order, finals[s2 := f.finals[s1]], arcs[s2 := Renamed(f.arcs[s1], order)], done[s1 := true])
            && CyclesUpTo(order, done[s1 := true], s2)
  {
    var s2 := order[s1];
    var finals', arcs', done' := finals[s2 := f.finals[s1]], arcs[s2 := Renamed(f.arcs[s1], order)], done[s1 := true];
    forall s: nat | s < |done| && done'[s] ensures MovedState(f, order, finals', arcs', s) {
      if s != s1 {
        assert done[s];
        assert order[s] != order[s1];
      }
    }
    forall t: nat | t < |order| && !Written(order, done', t) ensures finals'[t] == f.finals[t] && arcs'[t] == f.arcs[t] {
      assert done'[s1];
      assert t != s2;
      forall s: nat | s < |done| && done[s] ensures order[s] != t { assert done'[s]; }
      assert finals'[t] == finals[t] && arcs'[t] == arcs[t];
    }
  }

  /** A place is read before any state is written to it. */
  lemma NotYetWritten(order: seq<nat>, done: seq<bool>, s1: nat)
    requires IsPermutation(order) && CyclesUpTo(order, done, s1) && s1 < |order| && !done[s1]
    ensures !Written(order, done, order[s1])
  {
    forall s: nat | s < |done| && done[s] ensures order[s] != order[s1] { assert s != s1; }
  }

  lemma CycleStart(order: seq<nat>, done: seq<bool>, s: nat)
    requires CyclesUpTo(order, done, |order|) && IsPermutation(order) && s < |order| && !done[s]
    ensures !Written(order, done, s) && CyclesUpTo(order, done, s)
  {
    forall u: nat | u < |done| && done[u] ensures order[u] != s { assert done[order[u]]; }
  }

  lemma CycleEnd(order: seq<nat>, done: seq<bool>, s1: nat)
    requires CyclesUpTo(order, done, s1) && s1 < |order| && done[s1]
    ensures CyclesUpTo(order, done, |order|)
  {
  }

  lemma NothingDone<W>(f: Fst<W>, order: seq<nat>, done: seq<bool>)
    requires f.Valid() && |order| == |f.arcs| == |done| && forall s :: 0 <= s < |done| ==> !done[s]
    ensures InProgress(f, order, f.finals, f.arcs, done) && CyclesUpTo(order, done, |order|)
    ensures IsPermutation(order) && f.start >= 0 ==> order[f.start] < |order|
  {
  }

  lemma AllDone<W>(f: Fst<W>, order: seq<nat>, finals: seq<W>, arcs: seq<seq<Arc<W>>>, done: seq<bool>)
    requires f.Valid() && |order| == |f.arcs| && InProgress(f, order, finals, arcs, done) && f.start >= 0
    requires forall s :: 0 <= s < |done| ==> done[s]
    ensures IsReordering(f, order, Fst(order[f.start], finals, arcs))
  {
    forall s: nat | s < |order| ensures MovedState(f, order, finals, arcs, s) { assert done[s]; }
  }

  function Undone(done: seq<bool>): set<nat> {
    set s: nat | s < |done| && !done[s]
  }

  lemma DoneShrinks(done: seq<bool>, s: nat)
    requires s < |done| && !done[s]
    ensures Undone(done[s := true]) < Undone(done)
  {
    assert s in Undone(done) && s !in Undone(done[s := true]);
  }

  // ------------------------------------------------------------ the methods

  /** Replaces a state by a final weight and a list of arcs whose targets are renamed. */
  method WriteState<W>(fst: VectorFst<W>, order: seq<nat>, s2: nat, final1: W, arcsa: seq<Arc<W>>)
    requires s2 < |fst.finals| == |fst.arcs|
    requires forall i :: 0 <= i < |arcsa| ==> arcsa[i].nextstate < |order|
    modifies fst`finals, fst`arcs
    ensures fst.finals == old(fst.finals)[s2 := final1]
    ensures fst.arcs == old(fst.arcs)[s2 := Renamed(arcsa, order)]
  {
    fst.SetFinal(s2, final1);
    fst.DeleteArcs(s2);
    ghost var arcs0 := fst.arcs;
    var r := Renamed(arcsa, order);
    var i := 0;
    while i < |arcsa|
      invariant i <= |arcsa| && fst.finals == old(fst.finals)[s2 := final1]
      invariant fst.arcs == arcs0[s2 := r[..i]]
    {
      var arc := arcsa[i].(nextstate := order[arcsa[i].nextstate]);
      assert r[..i] + [arc] == r[..i + 1];
      fst.AddArc(s2, arc);
      i := i + 1;
    }
    assert r[..i] == r;
  }

  /** Moves every state of the cycle that 's' is on. */
  method FollowCycle<W>(fst: VectorFst<W>, ghost f: Fst<W>, order: seq<nat>, done0: seq<bool>, s: nat) returns (done: seq<bool>)
    requires f.Valid() && |order| == |f.arcs| && IsPermutation(order)
    requires InProgress(f, order, fst.finals, fst.arcs, done0) && CyclesUpTo(order, done0, |order|)
    requires s < |order| && !done0[s]
    modifies fst`finals, fst`arcs
    ensures |fst.arcs| == |order| && InProgress(f, order, fst.finals, fst.arcs, done) && CyclesUpTo(order, done, |order|)
    ensures |done| == |done0| && done[s] && forall t :: 0 <= t < |done| && done0[t] ==> done[t]
  {
    hide Written, MovedState;
    CycleStart(order, done0, s);
    done := done0;
    var s1 := s;
    var final1, arcsa := fst.finals[s1], fst.arcs[s1];
    while !done[s1]
      invariant InProgress(f, order, fst.finals, fst.arcs, done) && CyclesUpTo(order, done, s1) && s1 < |order|
      invariant !done[s1] ==> final1 == f.finals[s1] && arcsa == f.arcs[s1]
      invariant forall t :: 0 <= t < |done| && done0[t] ==> done[t]
      invariant s1 == s || done[s]
      decreases Undone(done)
    {
      var s2 := order[s1];
      var final2, arcsb := final1, arcsa;
      if !done[s2] {
        NotYetWritten(order, done, s1);
        final2, arcsb := fst.finals[s2], fst.arcs[s2];
      }
      WriteKeepsProgress(f, order, fst.finals, fst.arcs, done, s1);
      WriteState(fst, order, s2, final1, arcsa);
      DoneShrinks(done, s1);
      done := done[s1 := true];
      s1, final1, arcsa := s2, final2, arcsb;
    }
    CycleEnd(order, done, s1);
  }

  /** Sorts the states: order[s] is to be the new number of state 's'. */
  method StateSort<W>(fst: VectorFst<W>, order: seq<nat>) returns (error: bool)
    requires fst.View().Valid() && (|order| == |fst.arcs| ==> IsPermutation(order))
    modifies fst
    ensures error <==> |order| != old(|fst.arcs|)
    ensures error || old(fst.start) == NO_STATE_ID ==> fst.View() == old(fst.View())
    ensures !error && old(fst.start) != NO_STATE_ID ==> IsReordering(old(fst.View()), order, fst.View())
    ensures !error && StatesDiffer(old(fst.View())) ==>
              (IsReordering(old(fst.View()), order, fst.View()) <==> old(fst.start) != NO_STATE_ID || IsIdentity(order))
  {
    hide InProgress, MovedState, CyclesUpTo, IsPermutation, IsReordering;
    if |order| != |fst.arcs| { return true; }
    if fst.start == NO_STATE_ID {
      WithoutStart(fst.View(), order);
      return false;
    }
    ghost var f := fst.View();
    var done := seq(|order|, _ => false);
    NothingDone(f, order, done);
    fst.SetStart(order[fst.start]);
    var s := 0;
    while s < |fst.arcs|
      invariant s <= |fst.arcs| == |order| == |done| && fst.start == order[f.start]
      invariant InProgress(f, order, fst.finals, fst.arcs, done) && CyclesUpTo(order, done, |order|)
      invariant forall t :: 0 <= t < s ==> done[t]
    {
      if !done[s] {
        done := FollowCycle(fst, f, order, done, s);
      }
      s := s + 1;
    }
    AllDone(f, order, fst.finals, fst.arcs, done);
    assert fst.View() == Fst(order[f.start], fst.finals, fst.arcs);
    return false;
  }

  // ------------------------------------------------------------ without a start state

  /** Without a start state nothing is moved. If the order is to move a state to one that looks
      different, that is wrong; if it moves none, that is right. */
  lemma UnsortedKeepsLooks<W>(f: Fst<W>, order: seq<nat>)
    requires f.Valid() && |order| == |f.arcs| && f.start == NO_STATE_ID
    ensures IsReordering(f, order, f) ==> forall s: nat :: s < |order| ==> LooksAlike(f, s, order[s])
    ensures IsIdentity(order) ==> IsReordering(f, order, f)
  {
    if IsReordering(f, order, f) {
      forall s: nat | s < |order| ensures LooksAlike(f, s, order[s]) {
        assert MovedState(f, order, f.finals, f.arcs, s);
      }
    }
    if IsIdentity(order) {
      forall s: nat | s < |order| ensures MovedState(f, order, f.finals, f.arcs, s) {
        assert f.arcs[s] == Renamed(f.arcs[s], order);
      }
    }
  }

  /** For an FST whose states differ in their weights or labels, leaving it as it is without a start
      state is right if and only if the order is the identity. */
  lemma UnsortedIsReorderingWhen<W>(f: Fst<W>, order: seq<nat>)
    requires f.Valid() && |order| == |f.arcs| && IsPermutation(order) && f.start == NO_STATE_ID && StatesDiffer(f)
    ensures IsReordering(f, order, f) <==> IsIdentity(order)
  {
    UnsortedKeepsLooks(f, order);
    if IsReordering(f, order, f) {
      forall s: nat | s < |order| ensures order[s] == s { assert LooksAlike(f, s, order[s]); }
    }
  }

  lemma WithoutStart<W>(f: Fst<W>, order: seq<nat>)
    requires f.Valid() && |order| == |f.arcs| && IsPermutation(order) && f.start == NO_STATE_ID
    ensures StatesDiffer(f) ==> (IsReordering(f, order, f) <==> IsIdentity(order))
  {
    if StatesDiffer(f) { UnsortedIsReorderingWhen(f, order); }
  }

  /** Two states with different weights, to be exchanged, stay where they are. */
  lemma UnsortedExample()
    ensures var f := Fst(NO_STATE_ID, [0, 1], [[], []]);
            f.Valid() && IsPermutation([1, 0]) && !IsReordering(f, [1, 0], f)
  {
    var f := Fst(NO_STATE_ID, [0, 1], [[], []]);
    assert [1, 0][0] == 1;
    assert !MovedState(f, [1, 0], f.finals, f.arcs, 0);
  }
}
