/** Connect: deletes the states that the visit found inaccessible or not coaccessible. */
module Connect {
  import opened Fst
  import opened Reach
  import opened VectorFst
  import opened SccVisit
  import opened Dfs

  ghost predicate Useful<W>(f: Fst<W>, zero: W, s: nat) {
    0 <= f.start && Reaches(f, f.start, s) && Coaccessible(f, zero, s)
  }

  ghost function Useless<W>(f: Fst<W>, zero: W): set<nat> {
    set s: nat | s < |f.arcs| && !Useful(f, zero, s)
  }

  /** Trims an FST. Without a start state the visit sees nothing, and nothing is deleted. */
  method Connect<W(==)>(fst: VectorFst<W>, zero: W)
    requires fst.View().Valid()
    modifies fst
    ensures old(fst.start) == NO_STATE_ID ==> fst.View() == old(fst.View())
    ensures old(fst.start) != NO_STATE_ID ==>
              IsDeletion(old(fst.View()), Useless(old(fst.View()), zero), fst.View())
  {
    hide IsDeletion, Reaches, Coaccessible;
    var f := fst.View();
    var visitor := new SccVisitor<W>(f, zero);
    DfsVisit(f, zero, visitor);
    var dstates := ListUseless(visitor.access, visitor.coaccess);
    if f.start == NO_STATE_ID {
      assert AsSet(dstates) == {};
      DeletingNothing(f);
      fst.DeleteStates(dstates);
      DeletionIsUnique(f, {}, f, fst.View());
    } else {
      assert AsSet(dstates) == Useless(f, zero);
      fst.DeleteStates(dstates);
    }
  }

  method ListUseless(access: seq<bool>, coaccess: seq<bool>) returns (dstates: seq<nat>)
    requires |access| == |coaccess|
    ensures forall x: nat :: x in dstates <==> x < |access| && !(access[x] && coaccess[x])
  {
    dstates := [];
    var s := 0;
    while s < |access|
      invariant s <= |access|
      invariant forall x: nat :: x in dstates <==> x < s && !(access[x] && coaccess[x])
    {
      if !access[s] || !coaccess[s] {
        dstates := dstates + [s];
      }
      s := s + 1;
    }
  }

  lemma {:induction false} RankOfNothing(n: nat)
    ensures Rank({}, n) == n
  {
    if n > 0 { RankOfNothing(n - 1); }
  }

  lemma {:induction false} KeepEverything<W>(arcs: seq<Arc<W>>)
    ensures KeepArcs({}, arcs) == arcs
  {
    if arcs != [] {
      var n := |arcs| - 1;
      KeepEverything(arcs[..n]);
      RankOfNothing(arcs[n].nextstate);
      hide Rank;
      assert arcs[n].(nextstate := arcs[n].nextstate) == arcs[n];
      assert arcs == arcs[..n] + [arcs[n]];
    }
  }

  lemma DeletingNothing<W>(f: Fst<W>)
    requires f.Valid()
    ensures IsDeletion(f, {}, f)
  {
    forall n: nat ensures Rank({}, n) == n { RankOfNothing(n); }
    forall s: nat | s < |f.arcs| ensures KeepArcs({}, f.arcs[s]) == f.arcs[s] { KeepEverything(f.arcs[s]); }
  }

  lemma DeletionIsUnique<W>(f: Fst<W>, dead: set<nat>, g: Fst<W>, h: Fst<W>)
    requires IsDeletion(f, dead, g) && IsDeletion(f, dead, h)
    ensures g == h
  {
    forall r: nat | r < |g.arcs| ensures g.arcs[r] == h.arcs[r] && g.finals[r] == h.finals[r] {
      var s := Ranked(dead, |f.arcs|, r);
    }
  }

  // ------------------------------------------------------------ arcs and paths of a deletion

  /** Where a kept arc ends up. */
  function KeepIndex<W>(dead: set<nat>, arcs: seq<Arc<W>>, i: nat): nat
    requires i <= |arcs|
  {
    |KeepArcs(dead, arcs[..i])|
  }

  lemma {:induction false} KeepAt<W>(dead: set<nat>, arcs: seq<Arc<W>>, i: nat)
    requires i < |arcs| && arcs[i].nextstate !in dead
    ensures KeepIndex(dead, arcs, i) < |KeepArcs(dead, arcs)|
    ensures KeepArcs(dead, arcs)[KeepIndex(dead, arcs, i)] == arcs[i].(nextstate := Rank(dead, arcs[i].nextstate))
    decreases |arcs|
  {
    var n := |arcs| - 1;
    if i < n {
      assert arcs[..n][..i] == arcs[..i];
      KeepAt(dead, arcs[..n], i);
    }
  }

  lemma {:induction false} KeptFrom<W>(dead: set<nat>, arcs: seq<Arc<W>>, k: nat) returns (i: nat)
    requires k < |KeepArcs(dead, arcs)|
    ensures i < |arcs| && arcs[i].nextstate !in dead && KeepIndex(dead, arcs, i) == k
    decreases |arcs|
  {
    var n := |arcs| - 1;
    if k < |KeepArcs(dead, arcs[..n])| {
      i := KeptFrom(dead, arcs[..n], k);
      assert arcs[..n][..i] == arcs[..i];
    } else {
      i := n;
    }
  }

  lemma {:induction false} KeepIndexMonotone<W>(dead: set<nat>, arcs: seq<Arc<W>>, i: nat, j: nat)
    requires i < j <= |arcs| && arcs[i].nextstate !in dead
    ensures KeepIndex(dead, arcs, i) < KeepIndex(dead, arcs, j)
    decreases j
  {
    KeepArcsStep(dead, arcs, j - 1);
    if i < j - 1 { KeepIndexMonotone(dead, arcs, i, j - 1); }
  }

  /** All states of the path are kept. */
  ghost predicate StaysAlive<W>(f: Fst<W>, dead: set<nat>, s: nat, p: seq<nat>)
    decreases |p|
  {
    && IsPath(f, s, p) && s !in dead
    && (p == [] || StaysAlive(f, dead, f.arcs[s][p[0]].nextstate, p[1..]))
  }

  /** The same path after the deletion. */
  ghost function TrimPath<W>(f: Fst<W>, dead: set<nat>, s: nat, p: seq<nat>): seq<nat>
    requires StaysAlive(f, dead, s, p)
    decreases |p|
  {
    if p == [] then []
    else [KeepIndex(dead, f.arcs[s], p[0])] + TrimPath(f, dead, f.arcs[s][p[0]].nextstate, p[1..])
  }

  datatype Step<+W> = Step(ilabel: int, olabel: int, weight: W)

  /** What a path reads, writes and weighs, arc by arc. */
  ghost function Trace<W>(f: Fst<W>, s: nat, p: seq<nat>): seq<Step<W>>
    requires IsPath(f, s, p)
    decreases |p|
  {
    if p == [] then []
    else
      var arc := f.arcs[s][p[0]];
      [Step(arc.ilabel, arc.olabel, arc.weight)] + Trace(f, arc.nextstate, p[1..])
  }

  lemma ArcAfterDeletion<W>(f: Fst<W>, dead: set<nat>, g: Fst<W>, s: nat, i: nat)
    requires f.Valid() && IsDeletion(f, dead, g)
    requires s < |f.arcs| && s !in dead && i < |f.arcs[s]| && f.arcs[s][i].nextstate !in dead
    ensures Rank(dead, s) < |g.arcs| && KeepIndex(dead, f.arcs[s], i) < |g.arcs[Rank(dead, s)]|
    ensures var arc := f.arcs[s][i];
            g.arcs[Rank(dead, s)][KeepIndex(dead, f.arcs[s], i)] == arc.(nextstate := Rank(dead, arc.nextstate))
  {
    KeepAt(dead, f.arcs[s], i);
  }

  lemma {:induction false} TrimIsPath<W>(f: Fst<W>, dead: set<nat>, g: Fst<W>, s: nat, p: seq<nat>)
    requires f.Valid() && IsDeletion(f, dead, g) && StaysAlive(f, dead, s, p)
    ensures var q := TrimPath(f, dead, s, p);
            && IsPath(g, Rank(dead, s), q)
            && PathEnd(f, s, p) !in dead && PathEnd(g, Rank(dead, s), q) == Rank(dead, PathEnd(f, s, p))
            && Trace(g, Rank(dead, s), q) == Trace(f, s, p)
    decreases |p|
  {
    if p != [] {
      var t := f.arcs[s][p[0]].nextstate;
      ArcAfterDeletion(f, dead, g, s, p[0]);
      TrimIsPath(f, dead, g, t, p[1..]);
      hide KeepIndex, Rank, KeepArcs, IsDeletion;
      assert TrimPath(f, dead, s, p)[1..] == TrimPath(f, dead, t, p[1..]);
    }
  }

  lemma {:induction false} UntrimPath<W>(f: Fst<W>, dead: set<nat>, g: Fst<W>, s: nat, q: seq<nat>) returns (p: seq<nat>)
    requires f.Valid() && IsDeletion(f, dead, g)
    requires s < |f.arcs| && s !in dead && IsPath(g, Rank(dead, s), q)
    ensures StaysAlive(f, dead, s, p) && TrimPath(f, dead, s, p) == q
    decreases |q|
  {
    if q == [] {
      p := [];
    } else {
      var i := KeptFrom(dead, f.arcs[s], q[0]);
      ArcAfterDeletion(f, dead, g, s, i);
      hide KeepIndex, Rank, KeepArcs, IsDeletion;
      var rest := UntrimPath(f, dead, g, f.arcs[s][i].nextstate, q[1..]);
      p := [i] + rest;
      assert p[1..] == rest;
    }
  }

  lemma {:induction false} TrimIsInjective<W>(f: Fst<W>, dead: set<nat>, s: nat, p: seq<nat>, p': seq<nat>)
    requires StaysAlive(f, dead, s, p) && StaysAlive(f, dead, s, p')
    requires TrimPath(f, dead, s, p) == TrimPath(f, dead, s, p')
    ensures p == p'
    decreases |p|
  {
    if p != [] && p' != [] {
      var q, q' := TrimPath(f, dead, s, p), TrimPath(f, dead, s, p');
      assert q[0] == KeepIndex(dead, f.arcs[s], p[0]) && q'[0] == KeepIndex(dead, f.arcs[s], p'[0]);
      if p[0] < p'[0] { KeepIndexMonotone(dead, f.arcs[s], p[0], p'[0]); }
      if p'[0] < p[0] { KeepIndexMonotone(dead, f.arcs[s], p'[0], p[0]); }
      hide KeepIndex;
      var t := f.arcs[s][p[0]].nextstate;
      assert q[1..] == TrimPath(f, dead, t, p[1..]) && q'[1..] == TrimPath(f, dead, t, p'[1..]);
      TrimIsInjective(f, dead, t, p[1..], p'[1..]);
      assert p == [p[0]] + p[1..] && p' == [p'[0]] + p'[1..];
    }
  }

  // ------------------------------------------------------------ what Connect keeps

  ghost predicate Accepting<W>(f: Fst<W>, zero: W, p: seq<nat>) {
    0 <= f.start && IsPath(f, f.start, p) && IsFinal(f, zero, PathEnd(f, f.start, p))
  }

  /** A path from an accessible state to a coaccessible one runs through useful states only. */
  lemma {:induction false} UsefulAlongPath<W>(f: Fst<W>, zero: W, s: nat, p: seq<nat>)
    requires f.Valid() && 0 <= f.start && Reaches(f, f.start, s) && IsPath(f, s, p)
    requires Coaccessible(f, zero, PathEnd(f, s, p))
    ensures StaysAlive(f, Useless(f, zero), s, p)
    decreases |p|
  {
    assert PathTo(f, s, PathEnd(f, s, p), p);
    CoaccessibleBack(f, zero, s, PathEnd(f, s, p));
    if p != [] {
      ReachesArc(f, s, p[0]);
      ReachesTransitive(f, f.start, s, f.arcs[s][p[0]].nextstate);
      UsefulAlongPath(f, zero, f.arcs[s][p[0]].nextstate, p[1..]);
    }
  }

  lemma AcceptingStaysAlive<W>(f: Fst<W>, zero: W, p: seq<nat>)
    requires f.Valid() && Accepting(f, zero, p)
    ensures StaysAlive(f, Useless(f, zero), f.start, p)
  {
    ReachesSelf(f, f.start);
    PathEndIsState(f, f.start, p);
    var e := PathEnd(f, f.start, p);
    ReachesSelf(f, e);
    assert Coaccessible(f, zero, e);
    UsefulAlongPath(f, zero, f.start, p);
  }

  lemma {:induction false} PathEndIsState<W>(f: Fst<W>, s: nat, p: seq<nat>)
    requires IsPath(f, s, p)
    ensures PathEnd(f, s, p) < |f.arcs|
    decreases |p|
  {
    if p != [] { PathEndIsState(f, f.arcs[s][p[0]].nextstate, p[1..]); }
  }

  /** Every accepting path survives, with its labels and weights and its final weight ... */
  lemma AcceptingPathSurvives<W>(f: Fst<W>, zero: W, g: Fst<W>, p: seq<nat>)
    requires f.Valid() && IsDeletion(f, Useless(f, zero), g) && Accepting(f, zero, p)
    ensures StaysAlive(f, Useless(f, zero), f.start, p)
    ensures var q := TrimPath(f, Useless(f, zero), f.start, p);
            && Accepting(g, zero, q)
            && Trace(g, g.start, q) == Trace(f, f.start, p)
            && g.finals[PathEnd(g, g.start, q)] == f.finals[PathEnd(f, f.start, p)]
  {
    AcceptingStaysAlive(f, zero, p);
    TrimIsPath(f, Useless(f, zero), g, f.start, p);
    PathEndIsState(f, f.start, p);
    hide Trace, TrimPath, IsPath, Useless;
  }

  /** ... and every accepting path that is left is one of them, of one only. */
  lemma LeftPathIsOld<W>(f: Fst<W>, zero: W, g: Fst<W>, q: seq<nat>) returns (p: seq<nat>)
    requires f.Valid() && IsDeletion(f, Useless(f, zero), g) && Accepting(g, zero, q)
    ensures Accepting(f, zero, p) && StaysAlive(f, Useless(f, zero), f.start, p)
    ensures TrimPath(f, Useless(f, zero), f.start, p) == q
    ensures forall p' :: StaysAlive(f, Useless(f, zero), f.start, p') && TrimPath(f, Useless(f, zero), f.start, p') == q ==> p' == p
  {
    var dead := Useless(f, zero);
    assert f.start >= 0 && f.start !in dead && g.start == Rank(dead, f.start);
    p := UntrimPath(f, dead, g, f.start, q);
    TrimIsPath(f, dead, g, f.start, p);
    PathEndIsState(f, f.start, p);
    forall p' | StaysAlive(f, dead, f.start, p') && TrimPath(f, dead, f.start, p') == q ensures p' == p {
      TrimIsInjective(f, dead, f.start, p, p');
    }
    assert f.finals[PathEnd(f, f.start, p)] == g.finals[PathEnd(g, g.start, q)];
  }

  /** Every state that is left lies on an accepting path. */
  ghost predicate Trimmed<W>(g: Fst<W>, zero: W) {
    forall t: nat :: t < |g.arcs| ==> Useful(g, zero, t)
  }

  lemma EverySurvivorIsUseful<W>(f: Fst<W>, zero: W, g: Fst<W>)
    requires f.Valid() && f.start >= 0 && IsDeletion(f, Useless(f, zero), g)
    ensures Trimmed(g, zero)
  {
    var dead := Useless(f, zero);
    forall t: nat | t < |g.arcs| ensures Useful(g, zero, t) {
      var s := Ranked(dead, |f.arcs|, t);
      assert Useful(f, zero, s);
      var p :| PathTo(f, f.start, s, p);
      var e :| Reaches(f, s, e) && IsFinal(f, zero, e);
      var q :| PathTo(f, s, e, q);
      SurvivorIsUseful(f, zero, g, s, e, p, q);
    }
  }

  lemma SurvivorIsUseful<W>(f: Fst<W>, zero: W, g: Fst<W>, s: nat, e: nat, p: seq<nat>, q: seq<nat>)
    requires f.Valid() && f.start >= 0 && IsDeletion(f, Useless(f, zero), g)
    requires PathTo(f, f.start, s, p) && PathTo(f, s, e, q) && IsFinal(f, zero, e)
    ensures Useful(g, zero, Rank(Useless(f, zero), s))
  {
    var dead := Useless(f, zero);
    ReachesSelf(f, f.start);
    PathEndIsState(f, s, q);
    ReachesSelf(f, e);
    assert Coaccessible(f, zero, e) && Reaches(f, s, e);
    CoaccessibleBack(f, zero, s, e);
    UsefulAlongPath(f, zero, f.start, p);
    assert Reaches(f, f.start, s);
    UsefulAlongPath(f, zero, s, q);
    TrimIsPath(f, dead, g, f.start, p);
    TrimIsPath(f, dead, g, s, q);
    assert PathTo(g, g.start, Rank(dead, s), TrimPath(f, dead, f.start, p));
    assert PathTo(g, Rank(dead, s), Rank(dead, e), TrimPath(f, dead, s, q));
    assert IsFinal(g, zero, Rank(dead, e));
  }

  /** Connect trims exactly when there is a start state, or nothing to trim. */
  lemma ConnectTrims<W>(f: Fst<W>, zero: W, g: Fst<W>)
    requires f.Valid()
    requires f.start == NO_STATE_ID ==> g == f
    requires f.start != NO_STATE_ID ==> IsDeletion(f, Useless(f, zero), g)
    ensures Trimmed(g, zero) <==> f.start != NO_STATE_ID || |f.arcs| == 0
  {
    if f.start == NO_STATE_ID {
      if |f.arcs| > 0 { assert !Useful(g, zero, 0); }
    } else {
      EverySurvivorIsUseful(f, zero, g);
    }
  }
}
