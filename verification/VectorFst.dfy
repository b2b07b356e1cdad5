/** The mutable FST that the algorithms edit in place: states hold a final weight and an arc vector. */
module VectorFst {
  import opened Fst

  /** How many states below 's' are kept. */
  function Rank(dead: set<nat>, s: nat): (r: nat)
    ensures r <= s
  {
    if s == 0 then 0 else Rank(dead, s - 1) + (if s - 1 in dead then 0 else 1)
  }

  /** The number of a state after the deletion. */
  function NewId(dead: set<nat>, s: nat): int {
    if s in dead then NO_STATE_ID else Rank(dead, s)
  }

  lemma RankNext(dead: set<nat>, s: nat)
    ensures Rank(dead, s + 1) == Rank(dead, s) + (if s in dead then 0 else 1)
  {
  }

  lemma {:induction false} RankMonotone(dead: set<nat>, s: nat, t: nat)
    requires s < t
    ensures Rank(dead, s) <= Rank(dead, t)
    ensures s !in dead ==> Rank(dead, s) < Rank(dead, t)
  {
    if s + 1 < t { RankMonotone(dead, s, t - 1); }
  }

  /** The arcs that do not lead to a deleted state, in order, with targets renumbered. */
  function KeepArcs<W>(dead: set<nat>, arcs: seq<Arc<W>>): (kept: seq<Arc<W>>)
    ensures |kept| <= |arcs|
  {
    if arcs == [] then []
    else
      var n := |arcs| - 1;
      KeepArcs(dead, arcs[..n]) +
      (if arcs[n].nextstate in dead then [] else [arcs[n].(nextstate := Rank(dead, arcs[n].nextstate))])
  }

  lemma KeepArcsStep<W>(dead: set<nat>, arcs: seq<Arc<W>>, i: nat)
    requires i < |arcs|
    ensures KeepArcs(dead, arcs[..i + 1]) == KeepArcs(dead, arcs[..i]) +
              (if arcs[i].nextstate in dead then [] else [arcs[i].(nextstate := Rank(dead, arcs[i].nextstate))])
  {
    assert arcs[..i + 1][..i] == arcs[..i];
  }

  ghost function AsSet(states: seq<nat>): set<nat> {
    set s | s in states
  }

  /** 'g' is 'f' without the dead states. */
  ghost predicate IsDeletion<W>(f: Fst<W>, dead: set<nat>, g: Fst<W>) {
    && |g.arcs| == |g.finals| == Rank(dead, |f.arcs|)
    && |f.finals| == |f.arcs|
    && (forall s: nat {:trigger Rank(dead, s)} :: s < |f.arcs| && s !in dead ==>
          && Rank(dead, s) < |g.arcs|
          && g.finals[Rank(dead, s)] == f.finals[s]
          && g.arcs[Rank(dead, s)] == KeepArcs(dead, f.arcs[s]))
    && g.start == if f.start < 0 then NO_STATE_ID else NewId(dead, f.start)
  }

  class VectorFst<W> {
    var start: int
    var finals: seq<W>
    var arcs: seq<seq<Arc<W>>>

    constructor (f: Fst<W>)
      ensures View() == f
    {
      start, finals, arcs := f.start, f.finals, f.arcs;
    }

    function View(): Fst<W>
      reads this
    {
      Fst(start, finals, arcs)
    }

    method SetStart(s: int)
      modifies this`start
      ensures start == s
    {
      start := s;
    }

    method SetFinal(s: nat, w: W)
      requires s < |finals|
      modifies this`finals
      ensures finals == old(finals)[s := w]
    {
      finals := finals[s := w];
    }

    method AddState(zero: W) returns (s: nat)
      requires |finals| == |arcs|
      modifies this`finals, this`arcs
      ensures s == old(|arcs|) && finals == old(finals) + [zero] && arcs == old(arcs) + [[]]
    {
      s := |arcs|;
      finals, arcs := finals + [zero], arcs + [[]];
    }

    method AddArc(s: nat, arc: Arc<W>)
      requires s < |arcs|
      modifies this`arcs
      ensures arcs == old(arcs)[s := old(arcs)[s] + [arc]]
    {
      arcs := arcs[s := arcs[s] + [arc]];
    }

    /** Removes all arcs of a state. */
    method DeleteArcs(s: nat)
      requires s < |arcs|
      modifies this`arcs
      ensures arcs == old(arcs)[s := []]
    {
      arcs := arcs[s := []];
    }

    /** Removes the last 'n' arcs of a state. */
    method DeleteLastArcs(s: nat, n: nat)
      requires s < |arcs| && n <= |arcs[s]|
      modifies this`arcs
      ensures arcs == old(arcs)[s := old(arcs)[s][..|old(arcs)[s]| - n]]
    {
      arcs := arcs[s := arcs[s][..|arcs[s]| - n]];
    }

    /** Numbers the states that are not marked, and moves them down in place. */
    method MoveStates(marked: seq<int>, ghost dead: set<nat>) returns (newid: seq<int>)
      requires |finals| == |arcs| == |marked|
      requires forall s: nat :: s < |marked| ==> marked[s] == if s in dead then NO_STATE_ID else 0
      modifies this`finals, this`arcs
      ensures |newid| == |marked| && forall s: nat :: s < |newid| ==> newid[s] == NewId(dead, s)
      ensures |finals| == |arcs| == Rank(dead, |newid|)
      ensures forall s: nat {:trigger Rank(dead, s)} :: s < |newid| && s !in dead ==>
                Rank(dead, s) < |arcs| && finals[Rank(dead, s)] == old(finals)[s] && arcs[Rank(dead, s)] == old(arcs)[s]
    {
      assert Rank(dead, 0) == 0;
      hide Rank;
      newid := marked;
      ghost var finals0, arcs0 := finals, arcs;
      var nstates := 0;
      var state := 0;
      while state < |newid|
        invariant state <= |newid| == |marked| == |finals| == |arcs|
        invariant nstates == Rank(dead, state)
        invariant forall s: nat {:trigger newid[s]} :: s < state ==> newid[s] == NewId(dead, s)
        invariant forall s: nat {:trigger newid[s]} :: state <= s < |newid| ==> newid[s] == marked[s]
        invariant forall s: nat {:trigger Rank(dead, s)} :: s < state && s !in dead ==>
                    Rank(dead, s) < nstates && finals[Rank(dead, s)] == finals0[s] && arcs[Rank(dead, s)] == arcs0[s]
        invariant forall s: nat {:trigger finals0[s]} {:trigger arcs0[s]} :: state <= s < |newid| ==> finals[s] == finals0[s] && arcs[s] == arcs0[s]
      {
        RankNext(dead, state);
        assert finals0[state] == finals[state];
        if newid[state] != NO_STATE_ID {
          newid := newid[state := nstates];
          if state != nstates {
            finals := finals[nstates := finals[state]];
            arcs := arcs[nstates := arcs[state]];
          }
          nstates := nstates + 1;
        }
        state := state + 1;
      }
      finals, arcs := finals[..nstates], arcs[..nstates];
    }

    /** Deletes the listed states. */
    method DeleteStates(dstates: seq<nat>)
      requires View().Valid() && forall s :: s in dstates ==> s < |arcs|
      modifies this
      ensures IsDeletion(old(View()), AsSet(dstates), View())
    {
      ghost var dead := AsSet(dstates);
      ghost var f := View();
      var marked := MarkStates(|arcs|, dstates);
      var newid := MoveStates(marked, dead);
      var state := 0;
      while state < |arcs|
        invariant state <= |arcs| == Rank(dead, |f.arcs|) && start == f.start && |finals| == |arcs|
        invariant forall s: nat {:trigger Rank(dead, s)} :: s < |f.arcs| && s !in dead ==>
                    && Rank(dead, s) < |arcs| && finals[Rank(dead, s)] == f.finals[s]
                    && arcs[Rank(dead, s)] == if Rank(dead, s) < state then KeepArcs(dead, f.arcs[s]) else f.arcs[s]
      {
        ghost var s := Ranked(dead, |f.arcs|, state);
        var kept := CompactArcs(newid, dead, arcs[state]);
        arcs := arcs[state := kept];
        state := state + 1;
      }
      if start != NO_STATE_ID { start := newid[start]; }
    }
  }

  method MarkStates(n: nat, dstates: seq<nat>) returns (marked: seq<int>)
    requires forall s :: s in dstates ==> s < n
    ensures |marked| == n && forall s: nat :: s < n ==> marked[s] == if s in AsSet(dstates) then NO_STATE_ID else 0
  {
    marked := seq(n, _ => 0);
    var i := 0;
    while i < |dstates|
      invariant i <= |dstates| && |marked| == n
      invariant forall s :: 0 <= s < n ==> marked[s] == if s in dstates[..i] then NO_STATE_ID else 0
    {
      assert dstates[i] in dstates;
      marked := marked[dstates[i] := NO_STATE_ID];
      i := i + 1;
    }
    assert dstates[..i] == dstates;
  }

  /** Drops the arcs to deleted states, moving the others down and renumbering their targets. */
  method CompactArcs<W>(newid: seq<int>, ghost dead: set<nat>, arcs0: seq<Arc<W>>) returns (arcs: seq<Arc<W>>)
    requires forall s :: 0 <= s < |newid| ==> newid[s] == NewId(dead, s)
    requires forall i :: 0 <= i < |arcs0| ==> arcs0[i].nextstate < |newid|
    ensures arcs == KeepArcs(dead, arcs0)
  {
    arcs := arcs0;
    var narcs, i := 0, 0;
    while i < |arcs|
      invariant narcs <= i <= |arcs| == |arcs0|
      invariant arcs[..narcs] == KeepArcs(dead, arcs0[..i])
      invariant forall k :: i <= k < |arcs0| ==> arcs[k] == arcs0[k]
    {
      KeepArcsStep(dead, arcs0, i);
      var t := newid[arcs[i].nextstate];
      if t != NO_STATE_ID {
        arcs := arcs[narcs := arcs[i].(nextstate := t)];
        narcs := narcs + 1;
      }
      i := i + 1;
    }
    assert arcs0[..i] == arcs0;
    arcs := arcs[..narcs];
  }

  /** Every new number is that of exactly one kept state. */
  lemma {:induction false} Ranked(dead: set<nat>, n: nat, r: nat) returns (s: nat)
    requires r < Rank(dead, n)
    ensures s < n && s !in dead && Rank(dead, s) == r
    ensures forall s': nat :: s' < n && s' !in dead && Rank(dead, s') == r ==> s' == s
  {
    if Rank(dead, n - 1) == r {
      s := n - 1;
    } else {
      s := Ranked(dead, n - 1, r);
    }
    forall s': nat | s' < n && s' !in dead && Rank(dead, s') == r ensures s' == s {
      if s' < s { RankMonotone(dead, s', s); } else if s < s' { RankMonotone(dead, s, s'); }
    }
  }
}
