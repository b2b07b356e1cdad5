/** Depth-first visitation of an expanded FST with the SCC visitor. */
module Dfs {
  import opened Fst
  import opened Reach
  import opened Tarjan
  import opened SccVisit

  /** A grey state and the position of its arc iterator. */
  datatype DfsState = DfsState(state: nat, pos: nat)

  function States(stack: seq<DfsState>): (s: seq<nat>)
    ensures |s| == |stack| && forall k :: 0 <= k < |stack| ==> s[k] == stack[k].state
  {
    seq(|stack|, k requires 0 <= k < |stack| => stack[k].state)
  }

  function Access(v: Visitor, x: nat): bool { At(v.access, x, false) }

  // ------------------------------------------------------------ accessibility

  /** 'first': the tree of the start state is being searched. After it, the accessible
      states are closed under arcs. */
  ghost predicate AccessOk<W>(f: Fst<W>, st: Search, first: bool) {
    && 0 <= f.start < |f.arcs|
    && (forall x: nat :: Access(st.v, x) ==> Col(st, x) != White && Reaches(f, f.start, x))
    && (if first then forall x: nat :: Col(st, x) != White ==> Access(st.v, x)
        else Access(st.v, f.start) && forall x: nat, i: nat :: Access(st.v, x) && i < OutDegree(f, x) ==> Access(st.v, Target(f, x, i)))
  }

  lemma DiscoverKeepsAccess<W>(f: Fst<W>, zero: W, st: Search, s: nat, first: bool)
    requires Inv(f, zero, st) && CanDiscover(f, st, s) && AccessOk(f, st, first)
    requires first ==> if st.grey == [] then s == f.start else Access(st.v, Top(st))
    ensures AccessOk(f, Discover(st, s, first), first)
  {
    hide LeadsBack, LeadsDown, LowReached, LowCovers, Finished, CoaccessSound, CoaccessComplete, ExploredEarlier, ExploredKnown, Numbered, Stacks, Cursors;
    var st' := Discover(st, s, first);
    assert forall x: nat :: Col(st', x) == if x == s then Grey else Col(st, x);
    assert forall x: nat :: Access(st'.v, x) == if x == s then first else Access(st.v, x);
    if first {
      if st.grey == [] {
        ReachesSelf(f, s);
      } else {
        ReachesArc(f, Top(st), Cur(st, Top(st)));
        ReachesTransitive(f, f.start, Top(st), s);
      }
    }
    hide Discover, Reaches, Col, Access, Cur, Shape;
  }

  /** The other steps do not touch it. */
  lemma OtherStepsKeepAccess<W>(f: Fst<W>, st: Search, st': Search, first: bool)
    requires AccessOk(f, st, first) && st'.v.access == st.v.access
    requires forall x: nat :: Col(st', x) == White <==> Col(st, x) == White
    ensures AccessOk(f, st', first)
  {
    hide Reaches;
  }

  /** When the tree of the start state is done, exactly what it has met is accessible. */
  lemma FirstTreeIsClosed<W>(f: Fst<W>, zero: W, st: Search)
    requires Inv(f, zero, st) && st.grey == [] && AccessOk(f, st, true) && Col(st, f.start) != White
    ensures AccessOk(f, st, false)
  {
    hide Reaches, LeadsBack, LeadsDown, LowReached, LowCovers, Finished, CoaccessSound, CoaccessComplete, ExploredEarlier;
    forall x: nat, i: nat | Access(st.v, x) && i < OutDegree(f, x) ensures Access(st.v, Target(f, x, i)) {
      assert Col(st, x) == Black;
      assert Explored(st, x, i);
    }
  }

  lemma AccessIsReachability<W>(f: Fst<W>, st: Search, x: nat)
    requires f.Valid() && AccessOk(f, st, false)
    ensures Access(st.v, x) <==> Reaches(f, f.start, x)
  {
    if Reaches(f, f.start, x) {
      var inside := set y: nat | y < |st.v.access| && Access(st.v, y);
      ReachesStaysInside(f, inside, f.start, x);
    }
  }

  // ------------------------------------------------------------ the visit

  /** The search as the loop of DfsVisit holds it. */
  ghost function Snapshot<W>(visitor: SccVisitor<W>, color: seq<Color>, stack: seq<DfsState>, cur: seq<nat>): Search
    reads visitor
  {
    Search(color, States(stack), cur, visitor.View())
  }

  ghost predicate FramesOk<W>(f: Fst<W>, stack: seq<DfsState>, cur: seq<nat>) {
    && |cur| == |f.arcs|
    && forall k :: 0 <= k < |stack| ==> stack[k].state < |f.arcs| && stack[k].pos == cur[stack[k].state]
  }

  ghost predicate Searching<W>(f: Fst<W>, zero: W, visitor: SccVisitor<W>, color: seq<Color>, stack: seq<DfsState>,
                               cur: seq<nat>, first: bool)
    reads visitor
  {
    && visitor.fst == f && visitor.zero == zero && visitor.start == f.start
    && FramesOk(f, stack, cur)
    && Inv(f, zero, Snapshot(visitor, color, stack, cur))
    && AccessOk(f, Snapshot(visitor, color, stack, cur), first)
  }

  ghost function Whites(color: seq<Color>): set<nat> {
    set x: nat | x < |color| && color[x] == White
  }

  lemma TopOfFrames<W>(f: Fst<W>, zero: W, st: Search, stack: seq<DfsState>, first: bool)
    requires Inv(f, zero, st) && AccessOk(f, st, first) && st.grey == States(stack) && FramesOk(f, stack, st.cur)
    ensures |st.color| == |f.arcs| && |st.v.scc| == |st.v.access| == |st.v.coaccess| == |st.v.dfnumber| == |st.v.lowlink| == |st.v.onstack|
    ensures forall x: nat :: Open(st, x) ==> Knows(st.v, x)
    ensures f.Valid() && (forall x: nat :: Cur(st, x) <= OutDegree(f, x)) && Increasing(st, st.grey)
    ensures forall x: nat :: Col(st, x) == White ==> Cur(st, x) == 0
    ensures forall x: nat :: Col(st, x) != White ==> Knows(st.v, x)
    ensures stack != [] ==>
              var top := stack[|stack| - 1];
              && Top(st) == top.state < |f.arcs| && top.pos == Cur(st, top.state) <= OutDegree(f, top.state)
              && Knows(st.v, top.state) && Open(st, top.state) && (first ==> Access(st.v, top.state))
  {
    if stack != [] { TopIsOpen(f, zero, st); }
  }

  /** The frames after a pop. */
  function PopFrame(stack: seq<DfsState>): seq<DfsState>
    requires stack != []
  {
    var rest := stack[..|stack| - 1];
    if rest == [] then rest else rest[|rest| - 1 := DfsState(rest[|rest| - 1].state, rest[|rest| - 1].pos + 1)]
  }

  lemma PopFrameFinishes<W>(f: Fst<W>, st: Search, stack: seq<DfsState>, final: bool)
    requires st.grey == States(stack) && FramesOk(f, stack, st.cur) && stack != []
    requires Increasing(st, st.grey)
    requires Knows(st.v, Top(st)) && Open(st, Top(st)) && Top(st) < |st.color|
    requires |st.grey| > 1 ==> Knows(st.v, Parent(st)) && Parent(st) < |st.cur|
    ensures Finish(st, final).grey == States(PopFrame(stack))
    ensures FramesOk(f, PopFrame(stack), Finish(st, final).cur)
    ensures Finish(st, final).v.access == st.v.access
    ensures st.color[Top(st)] != White ==> forall x: nat :: Col(Finish(st, final), x) == White <==> Col(st, x) == White
    ensures st.color[Top(st)] != White ==> Whites(Finish(st, final).color) == Whites(st.color)
  {
    hide CloseState, TellParent;
    var rest := stack[..|stack| - 1];
    if rest != [] {
      forall k | 0 <= k < |rest| - 1 ensures rest[k].state != rest[|rest| - 1].state {
        IncreasingAt(st, st.grey, k, |rest| - 1);
      }
    }
    AccessUntouched(st, final);
  }

  lemma AccessUntouched(st: Search, final: bool)
    requires st.grey != [] && Knows(st.v, Top(st)) && Open(st, Top(st)) && Top(st) < |st.color|
    requires |st.grey| > 1 ==> Knows(st.v, Parent(st)) && Parent(st) < |st.cur|
    ensures Finish(st, final).v.access == st.v.access
  {
  }

  lemma FinishStep<W>(f: Fst<W>, zero: W, st: Search, stack: seq<DfsState>, first: bool)
    requires Inv(f, zero, st) && CanFinish(f, st) && AccessOk(f, st, first)
    requires st.grey == States(stack) && FramesOk(f, stack, st.cur)
    ensures Knows(st.v, Top(st)) && Open(st, Top(st)) && Top(st) < |st.color|
    ensures |st.grey| > 1 ==> Knows(st.v, Parent(st)) && Parent(st) < |st.cur|
    ensures var st' := Finish(st, IsFinal(f, zero, Top(st)));
            && Inv(f, zero, st') && AccessOk(f, st', first)
            && st'.grey == States(PopFrame(stack)) && FramesOk(f, PopFrame(stack), st'.cur)
            && Whites(st'.color) == Whites(st.color)
  {
    var st' := Finish(st, IsFinal(f, zero, Top(st)));
    FinishKeepsInv(f, zero, st);
    TopIsOpen(f, zero, st);
    assert Increasing(st, st.grey);
    hide Inv;
    PopFrameFinishes(f, st, stack, IsFinal(f, zero, Top(st)));
    OtherStepsKeepAccess(f, st, st', first);
  }

  /** The topmost state has no more arcs: it is popped, and its parent moves on. */
  method FinishTop<W(==)>(f: Fst<W>, zero: W, visitor: SccVisitor<W>, color: seq<Color>, stack: seq<DfsState>,
                          ghost cur: seq<nat>, ghost first: bool)
      returns (color': seq<Color>, stack': seq<DfsState>, ghost cur': seq<nat>)
    requires Searching(f, zero, visitor, color, stack, cur, first) && stack != []
    requires stack[|stack| - 1].state < |f.arcs| && stack[|stack| - 1].pos == |f.arcs[stack[|stack| - 1].state]|
    modifies visitor
    ensures Searching(f, zero, visitor, color', stack', cur', first)
    ensures |stack'| < |stack| && Whites(color') == Whites(color)
    ensures forall x: nat :: At(color, x, White) != White ==> At(color', x, White) != White
  {
    hide Inv, AccessOk, FramesOk, Reaches, CloseState, TellParent, Whites;
    ghost var st := Snapshot(visitor, color, stack, cur);
    TopOfFrames(f, zero, st, stack, first);
    FinishStep(f, zero, st, stack, first);
    ghost var st' := Finish(st, IsFinal(f, zero, Top(st)));
    var s := stack[|stack| - 1].state;
    color' := color[s := Black];
    stack' := PopFrame(stack);
    cur' := st'.cur;
    if |stack| > 1 {
      visitor.FinishState(s, stack[|stack| - 2].state);
    } else {
      visitor.FinishState(s, NO_STATE_ID);
    }
    assert Snapshot(visitor, color', stack', cur') == st';
  }

  lemma DiscoverStep<W>(f: Fst<W>, zero: W, st: Search, stack: seq<DfsState>, s: nat, first: bool)
    requires Inv(f, zero, st) && AccessOk(f, st, first) && CanDiscover(f, st, s)
    requires st.grey == [] ==> (first ==> s == f.start)
    requires st.grey == States(stack) && FramesOk(f, stack, st.cur)
    ensures var st' := Discover(st, s, first);
            && Inv(f, zero, st') && AccessOk(f, st', first)
            && st'.grey == States(stack + [DfsState(s, 0)]) && FramesOk(f, stack + [DfsState(s, 0)], st'.cur)
            && Whites(st'.color) < Whites(st.color)
            && Col(st', s) != White && forall x: nat :: Col(st, x) != White ==> Col(st', x) != White
  {
    hide Inv, AccessOk, InitState;
    DiscoverKeepsInv(f, zero, st, s, first);
    TopOfFrames(f, zero, st, stack, first);
    if st.grey != [] { assert stack != []; }
    DiscoverKeepsAccess(f, zero, st, s, first);
    assert s in Whites(st.color) && s !in Whites(st.color[s := Grey]);
    assert Cur(st, s) == 0;
  }

  /** A white state is pushed: the root of a tree, or the target of the topmost state's arc. */
  method Push<W(==)>(f: Fst<W>, zero: W, visitor: SccVisitor<W>, color: seq<Color>, stack: seq<DfsState>,
                     ghost cur: seq<nat>, ghost first: bool, s: nat, root: nat)
      returns (color': seq<Color>, stack': seq<DfsState>)
    requires Searching(f, zero, visitor, color, stack, cur, first) && first == (root == f.start)
    requires CanDiscover(f, Snapshot(visitor, color, stack, cur), s)
    requires stack == [] ==> (first ==> s == f.start)
    modifies visitor
    ensures Searching(f, zero, visitor, color', stack', cur, first)
    ensures Whites(color') < Whites(color) && stack' != []
    ensures At(color', s, White) != White && forall x: nat :: At(color, x, White) != White ==> At(color', x, White) != White
  {
    hide Inv, AccessOk, FramesOk, Reaches, InitState, Whites;
    ghost var st := Snapshot(visitor, color, stack, cur);
    TopOfFrames(f, zero, st, stack, first);
    DiscoverStep(f, zero, st, stack, s, first);
    color' := color[s := Grey];
    stack' := stack + [DfsState(s, 0)];
    visitor.InitState(s, root);
    assert States(stack') == States(stack) + [s];
    assert Snapshot(visitor, color', stack', cur) == Discover(st, s, first);
  }

  function StepFrame(stack: seq<DfsState>): seq<DfsState>
    requires stack != []
  {
    var n := |stack| - 1;
    stack[n := DfsState(stack[n].state, stack[n].pos + 1)]
  }

  lemma ExploreStep<W>(f: Fst<W>, zero: W, st: Search, stack: seq<DfsState>, first: bool)
    requires Inv(f, zero, st) && AccessOk(f, st, first) && st.grey != []
    requires Cur(st, Top(st)) < OutDegree(f, Top(st)) && Col(st, Target(f, Top(st), Cur(st, Top(st)))) != White
    requires st.grey == States(stack) && FramesOk(f, stack, st.cur)
    ensures CanExplore(f, st)
    ensures var st' := Explore(f, st);
            && Inv(f, zero, st') && AccessOk(f, st', first)
            && st'.grey == States(StepFrame(stack)) && FramesOk(f, StepFrame(stack), st'.cur)
  {
    hide Inv;
    TopOfFrames(f, zero, st, stack, first);
    assert stack != [];
    ExploreKeepsInv(f, zero, st);
    StepFrameExplores(f, st, stack);
    OtherStepsKeepAccess(f, st, Explore(f, st), first);
  }

  lemma StepFrameExplores<W>(f: Fst<W>, st: Search, stack: seq<DfsState>)
    requires stack != [] && st.grey == States(stack) && FramesOk(f, stack, st.cur) && Increasing(st, st.grey)
    requires CanExplore(f, st)
    ensures Explore(f, st).grey == States(StepFrame(stack))
    ensures FramesOk(f, StepFrame(stack), Explore(f, st).cur)
    ensures Explore(f, st).v.access == st.v.access
  {
    hide Tarjan.BackArc, Tarjan.ForwardOrCrossArc;
    forall k | 0 <= k < |stack| - 1 ensures stack[k].state != stack[|stack| - 1].state {
      IncreasingAt(st, st.grey, k, |stack| - 1);
    }
    ExploreAccess(f, st);
  }

  lemma ExploreAccess<W>(f: Fst<W>, st: Search)
    requires CanExplore(f, st)
    ensures Explore(f, st).v.access == st.v.access
  {
  }

  /** The topmost state's arc leads to a state met before. */
  method ExploreArc<W(==)>(f: Fst<W>, zero: W, visitor: SccVisitor<W>, color: seq<Color>, stack: seq<DfsState>,
                           ghost cur: seq<nat>, ghost first: bool, s: nat, t: nat)
      returns (stack': seq<DfsState>, ghost cur': seq<nat>)
    requires Searching(f, zero, visitor, color, stack, cur, first) && stack != []
    requires var top := stack[|stack| - 1];
             && s == top.state < |f.arcs| && top.pos < OutDegree(f, s) && t == Target(f, s, top.pos)
             && At(color, t, White) != White
    modifies visitor
    ensures Searching(f, zero, visitor, color, stack', cur', first)
    ensures |stack'| == |stack| && stack'[|stack| - 1] == DfsState(s, stack[|stack| - 1].pos + 1)
  {
    hide Inv, AccessOk, FramesOk, Reaches, Tarjan.BackArc, Tarjan.ForwardOrCrossArc;
    ghost var st := Snapshot(visitor, color, stack, cur);
    TopOfFrames(f, zero, st, stack, first);
    ExploreStep(f, zero, st, stack, first);
    stack' := StepFrame(stack);
    cur' := cur[s := cur[s] + 1];
    if At(color, t, White) == Grey {
      visitor.BackArc(s, t);
    } else {
      visitor.ForwardOrCrossArc(s, t);
    }
    assert Snapshot(visitor, color, stack', cur') == Explore(f, st);
  }

  /** The tree rooted at a white state. */
  method SearchTree<W(==)>(f: Fst<W>, zero: W, visitor: SccVisitor<W>, color0: seq<Color>,
                           ghost cur0: seq<nat>, ghost first: bool, root: nat)
      returns (color: seq<Color>, ghost cur: seq<nat>)
    requires Searching(f, zero, visitor, color0, [], cur0, first) && first == (root == f.start)
    requires root < |color0| && color0[root] == White
    modifies visitor
    ensures Searching(f, zero, visitor, color, [], cur, first)
    ensures Whites(color) < Whites(color0)
    ensures At(color, root, White) != White && forall x: nat :: At(color0, x, White) != White ==> At(color, x, White) != White
  {
    hide Inv, AccessOk, Reaches;
    color, cur := color0, cur0;
    var stack: seq<DfsState> := [];
    color, stack := Push(f, zero, visitor, color, stack, cur, first, root, root);
    while stack != []
      invariant Searching(f, zero, visitor, color, stack, cur, first)
      invariant Whites(color) < Whites(color0)
      invariant At(color, root, White) != White
      invariant forall x: nat :: At(color0, x, White) != White ==> At(color, x, White) != White
      decreases Whites(color), |stack|,
                if stack == [] then 0 else OutDegree(f, stack[|stack| - 1].state) - stack[|stack| - 1].pos
    {
      TopOfFrames(f, zero, Snapshot(visitor, color, stack, cur), stack, first);
      var top := stack[|stack| - 1];
      if top.pos == |f.arcs[top.state]| {
        color, stack, cur := FinishTop(f, zero, visitor, color, stack, cur, first);
      } else {
        var t := f.arcs[top.state][top.pos].nextstate;
        if color[t] == White {
          color, stack := Push(f, zero, visitor, color, stack, cur, first, t, root);
        } else {
          stack, cur := ExploreArc(f, zero, visitor, color, stack, cur, first, top.state, t);
        }
      }
    }
  }

  // ------------------------------------------------------------ what the visit establishes

  /** Component numbers separate exactly the strongly connected components and grow along arcs;
      'access' and 'coaccess' are exact. */
  ghost predicate Exact<W>(f: Fst<W>, zero: W, scc: seq<int>, access: seq<bool>, coaccess: seq<bool>) {
    && |scc| == |access| == |coaccess| == |f.arcs| && 0 <= f.start
    && (forall x: nat, y: nat :: x < |scc| && y < |scc| ==> (scc[x] == scc[y] <==> Reaches(f, x, y) && Reaches(f, y, x)))
    && (forall x: nat, i: nat :: x < |scc| && i < OutDegree(f, x) && Target(f, x, i) < |scc| ==> scc[x] <= scc[Target(f, x, i)])
    && (forall x: nat :: x < |access| ==> (access[x] <==> Reaches(f, f.start, x)))
    && (forall x: nat :: x < |coaccess| ==> (coaccess[x] <==> Coaccessible(f, zero, x)))
  }

  /** Paths never lead to a component numbered later. */
  lemma ComponentsDescend<W>(f: Fst<W>, st: Search, x: nat, y: nat)
    requires f.Valid() && Finished(f, st) && x < |f.arcs|
    requires forall z: nat :: z < |f.arcs| ==> IsSettled(st, z)
    requires Reaches(f, x, y)
    ensures Comp(st, y) <= Comp(st, x)
  {
    var below := set z: nat | z < |f.arcs| && Comp(st, z) <= Comp(st, x);
    assert Closed(f, below) by {
      hide Comp, IsSettled;
      forall u: nat, i: nat | u in below && i < OutDegree(f, u) ensures Target(f, u, i) in below {
        assert IsSettled(st, u);
      }
    }
    ReachesStaysInside(f, below, x, y);
  }

  lemma AllFinished<W>(f: Fst<W>, zero: W, st: Search, x: nat)
    requires Inv(f, zero, st) && st.grey == [] && Col(st, x) != White
    ensures IsSettled(st, x)
  {
    if Open(st, x) {
      var g := OpenLeadsBack(f, zero, st, x);
      assert false;
    }
  }

  lemma VisitIsExact<W>(f: Fst<W>, zero: W, st: Search, scc: seq<int>)
    requires Inv(f, zero, st) && AccessOk(f, st, false) && st.grey == []
    requires forall x: nat :: x < |f.arcs| ==> Col(st, x) != White
    requires |scc| == |st.v.scc| && forall x :: 0 <= x < |scc| ==> scc[x] == st.v.nscc - 1 - st.v.scc[x]
    ensures Exact(f, zero, scc, st.v.access, st.v.coaccess)
  {
    forall x: nat | x < |f.arcs| ensures IsSettled(st, x) { AllFinished(f, zero, st, x); }
    SizesFull(f, zero, st);
    hide LeadsBack, LeadsDown, LowReached, LowCovers, ExploredEarlier, ExploredKnown, Numbered, Stacks, Cursors;
    assert forall x: nat :: x < |f.arcs| ==> Comp(st, x) == st.v.scc[x] && Coacc(st, x) == st.v.coaccess[x]
                                             && Access(st.v, x) == st.v.access[x];
    hide AccessOk, Reaches, Coaccessible, Comp, Coacc, Access, Col;
    forall x: nat, y: nat | x < |scc| && y < |scc| ensures scc[x] == scc[y] <==> Reaches(f, x, y) && Reaches(f, y, x) {
      if Reaches(f, x, y) && Reaches(f, y, x) {
        ComponentsDescend(f, st, x, y);
        ComponentsDescend(f, st, y, x);
      }
    }
    forall x: nat | x < |scc| ensures st.v.access[x] <==> Reaches(f, f.start, x) { AccessIsReachability(f, st, x); }
  }

  lemma SizesFull<W>(f: Fst<W>, zero: W, st: Search)
    requires Inv(f, zero, st) && forall x: nat :: x < |f.arcs| ==> Col(st, x) != White
    ensures |st.v.scc| == |st.v.access| == |st.v.coaccess| == |f.arcs|
  {
    if |f.arcs| > 0 { assert Col(st, |f.arcs| - 1) != White; }
  }

  lemma NothingVisited<W>(f: Fst<W>, zero: W, st: Search)
    requires f.Valid() && st == Search(seq(|f.arcs|, _ => White), [], seq(|f.arcs|, _ => 0), Visitor([], [], [], [], [], [], [], 0, 0))
    ensures Inv(f, zero, st)
  {
    assert forall x: nat :: Col(st, x) == White && Cur(st, x) == 0 && !Open(st, x);
  }

  /** DfsVisit with an SccVisitor, on an expanded FST. Without a start state nothing is visited. */
  method DfsVisit<W(==)>(f: Fst<W>, zero: W, visitor: SccVisitor<W>)
    requires f.Valid() && visitor.fst == f && visitor.zero == zero
    modifies visitor
    ensures f.start == NO_STATE_ID ==> visitor.scc == [] && visitor.access == [] && visitor.coaccess == []
    ensures f.start != NO_STATE_ID ==> Exact(f, zero, visitor.scc, visitor.access, visitor.coaccess)
  {
    hide Inv, AccessOk, Exact, Reaches, FramesOk;
    visitor.InitVisit();
    var start := f.start;
    if start == NO_STATE_ID {
      visitor.FinishVisit();
      return;
    }
    var nstates := |f.arcs|;
    var color := seq(nstates, _ => White);
    ghost var cur: seq<nat> := seq(nstates, _ => 0);
    ghost var first := true;
    StartSearching(f, zero, visitor, color, cur);
    var root := start;
    while root < nstates
      invariant 0 <= root <= nstates == |color|
      invariant Searching(f, zero, visitor, color, [], cur, first)
      invariant first ==> root == start
      invariant !first ==> At(color, start, White) != White && forall x: nat :: x < root ==> At(color, x, White) != White
      invariant root < nstates ==> color[root] == White
      decreases Whites(color)
    {
      var wasFirst := root == start;
      color, cur := SearchTree(f, zero, visitor, color, cur, first, root);
      ghost var st := Snapshot(visitor, color, [], cur);
      TopOfFrames(f, zero, st, [], first);
      if first {
        FirstTreeIsClosed(f, zero, st);
        first := false;
      }
      root := if wasFirst then 0 else root + 1;
      while root < nstates && color[root] != White
        invariant 0 <= root <= nstates == |color|
        invariant forall x: nat :: x < root ==> At(color, x, White) != White
      {
        root := root + 1;
      }
    }
    ghost var st := Snapshot(visitor, color, [], cur);
    visitor.FinishVisit();
    VisitIsExact(f, zero, st, visitor.scc);
  }

  lemma StartSearching<W>(f: Fst<W>, zero: W, visitor: SccVisitor<W>, color: seq<Color>, cur: seq<nat>)
    requires f.Valid() && f.start >= 0 && visitor.fst == f && visitor.zero == zero && visitor.start == f.start
    requires visitor.View() == Visitor([], [], [], [], [], [], [], 0, 0)
    requires color == seq(|f.arcs|, _ => White) && cur == seq(|f.arcs|, _ => 0)
    ensures Searching(f, zero, visitor, color, [], cur, true)
  {
    NothingVisited(f, zero, Snapshot(visitor, color, [], cur));
  }
}
