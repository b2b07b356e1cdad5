/** Tarjan's strongly connected components on an explicit-stack depth-first search:
the search state as a value, its steps, and the invariant that every step keeps.
*/
module Tarjan {
  import opened Fst
  import opened Reach

  datatype Color = White | Grey | Black

  /** The fields of SccVisitor. The vectors grow as states are met. */
  datatype Visitor = Visitor(scc: seq<int>, access: seq<bool>, coaccess: seq<bool>,
                             dfnumber: seq<int>, lowlink: seq<int>, onstack: seq<bool>,
                             sccStack: seq<nat>, nstates: nat, nscc: nat)

  /** The search: colours, the grey states from the root down, how many arcs of each
      state have been dealt with, and the visitor. */
  datatype Search = Search(color: seq<Color>, grey: seq<nat>, cur: seq<nat>, v: Visitor)

  // Reading a vector that may not have grown far enough yet.

  function At<T>(s: seq<T>, i: nat, default: T): T {
    if i < |s| then s[i] else default
  }

  function Col(st: Search, x: nat): Color { At(st.color, x, White) }
  function Cur(st: Search, x: nat): nat { At(st.cur, x, 0) }
  function Num(st: Search, x: nat): int { At(st.v.dfnumber, x, -1) }
  function Low(st: Search, x: nat): int { At(st.v.lowlink, x, -1) }
  function Comp(st: Search, x: nat): int { At(st.v.scc, x, -1) }
  function Coacc(st: Search, x: nat): bool { At(st.v.coaccess, x, false) }

  predicate Open(st: Search, x: nat) { x in st.v.sccStack }

  /** The state's component has been numbered. */
  predicate IsSettled(st: Search, x: nat) { Col(st, x) != White && !Open(st, x) }

  // ------------------------------------------------------------ the invariant

  ghost predicate Shape<W>(f: Fst<W>, st: Search) {
    && f.Valid()
    && |st.color| == |st.cur| == |f.arcs|
    && |st.v.scc| == |st.v.access| == |st.v.coaccess| == |st.v.dfnumber| == |st.v.lowlink| == |st.v.onstack|
    && |st.v.dfnumber| <= |f.arcs|
    && (forall x: nat :: Col(st, x) != White ==> x < |st.v.dfnumber|)
    && (forall x: nat :: Open(st, x) <==> At(st.v.onstack, x, false))
  }

  ghost predicate Numbered(st: Search) {
    && (forall x: nat :: Col(st, x) != White ==> 0 <= Num(st, x) < st.v.nstates)
    && (forall x: nat, y: nat :: Col(st, x) != White && Col(st, y) != White && Num(st, x) == Num(st, y) ==> x == y)
  }

  ghost predicate Increasing(st: Search, s: seq<nat>) {
    forall i, j :: 0 <= i < j < |s| ==> Num(st, s[i]) < Num(st, s[j])
  }

  ghost predicate Stacks(st: Search) {
    && (forall x: nat :: x in st.grey <==> Col(st, x) == Grey)
    && (forall x: nat :: Open(st, x) ==> Col(st, x) != White)
    && (forall x: nat :: x in st.grey ==> Open(st, x))
    && Increasing(st, st.grey)
    && Increasing(st, st.v.sccStack)
  }

  /** White states are untouched, black ones done, and every grey state but the topmost is
      waiting at the arc that leads to the next grey one. */
  ghost predicate Cursors<W>(f: Fst<W>, st: Search) {
    && (forall x: nat :: Cur(st, x) <= OutDegree(f, x))
    && (forall x: nat :: Col(st, x) == White ==> Cur(st, x) == 0)
    && (forall x: nat :: Col(st, x) == Black ==> Cur(st, x) == OutDegree(f, x))
    && (forall k :: 0 <= k < |st.grey| - 1 ==>
          Cur(st, st.grey[k]) < OutDegree(f, st.grey[k]) && Target(f, st.grey[k], Cur(st, st.grey[k])) == st.grey[k + 1])
  }

  ghost predicate Explored(st: Search, x: nat, i: nat) {
    i < Cur(st, x)
  }

  ghost predicate ExploredKnown<W>(f: Fst<W>, st: Search) {
    forall x: nat, i: nat :: Explored(st, x, i) ==> Col(st, Target(f, x, i)) != White
  }

  /** What was explored before a grey state was met leads to states met before it. */
  ghost predicate ExploredEarlier<W>(f: Fst<W>, st: Search) {
    forall g: nat, x: nat, i: nat :: g in st.grey && Explored(st, x, i) && Num(st, x) < Num(st, g)
      ==> Num(st, Target(f, x, i)) < Num(st, g)
  }

  /** Every open state leads back to a grey state met no later. */
  ghost predicate LeadsBack<W>(f: Fst<W>, st: Search) {
    forall x: nat {:trigger HasBack(f, st, x)} :: Open(st, x) ==> HasBack(f, st, x)
  }

  ghost predicate HasBack<W>(f: Fst<W>, st: Search, x: nat) {
    exists g: nat :: BackTo(f, st, x, g)
  }

  ghost predicate BackTo<W>(f: Fst<W>, st: Search, x: nat, g: nat) {
    g in st.grey && Num(st, g) <= Num(st, x) && Reaches(f, x, g)
  }

  lemma BackFrom<W>(f: Fst<W>, st: Search, x: nat) returns (g: nat)
    requires LeadsBack(f, st) && Open(st, x)
    ensures BackTo(f, st, x, g)
  {
    assert HasBack(f, st, x);
    g :| BackTo(f, st, x, g);
  }

  /** Every grey state leads to all open states met no earlier. */
  ghost predicate LeadsDown<W>(f: Fst<W>, st: Search) {
    forall g: nat, x: nat :: g in st.grey && Open(st, x) && Num(st, g) <= Num(st, x) ==> Reaches(f, g, x)
  }

  /** The low link of a grey state is the number of an open state that it reaches. */
  ghost predicate LowReached<W>(f: Fst<W>, st: Search) {
    && (forall g: nat :: g in st.grey ==> Low(st, g) <= Num(st, g))
    && (forall g: nat {:trigger HasLow(f, st, g)} :: g in st.grey ==> HasLow(f, st, g))
  }

  ghost predicate HasLow<W>(f: Fst<W>, st: Search, g: nat) {
    exists w: nat :: LowAt(f, st, g, w)
  }

  ghost predicate LowAt<W>(f: Fst<W>, st: Search, g: nat, w: nat) {
    Open(st, w) && Num(st, w) == Low(st, g) && Reaches(f, g, w)
  }

  lemma LowOf<W>(f: Fst<W>, st: Search, g: nat) returns (w: nat)
    requires LowReached(f, st) && g in st.grey
    ensures Low(st, g) <= Num(st, g) && LowAt(f, st, g, w)
  {
    assert HasLow(f, st, g);
    w :| LowAt(f, st, g, w);
  }

  /** 'x' lies between grey state k and the next one. */
  predicate InSegment(st: Search, k: int, x: nat)
    requires 0 <= k < |st.grey|
  {
    && Open(st, x)
    && Num(st, st.grey[k]) <= Num(st, x)
    && (k + 1 < |st.grey| ==> Num(st, x) < Num(st, st.grey[k + 1]))
  }

  /** The low link of a grey state covers all that its segment has explored. */
  ghost predicate LowCovers<W>(f: Fst<W>, st: Search) {
    forall k: int, x: nat, i: nat :: 0 <= k < |st.grey| && InSegment(st, k, x) && Explored(st, x, i) && Open(st, Target(f, x, i))
      ==> Low(st, st.grey[k]) <= Num(st, Target(f, x, i))
  }

  /** Numbered components are final: closed under arcs, which never lead to a later number. */
  ghost predicate Finished<W>(f: Fst<W>, st: Search) {
    && (forall x: nat :: IsSettled(st, x) ==> 0 <= Comp(st, x) < st.v.nscc)
    && (forall x: nat, i: nat :: IsSettled(st, x) && i < OutDegree(f, x) ==>
          IsSettled(st, Target(f, x, i)) && Comp(st, Target(f, x, i)) <= Comp(st, x))
    && (forall x: nat, y: nat :: IsSettled(st, x) && IsSettled(st, y) && Comp(st, x) == Comp(st, y) ==> Reaches(f, x, y))
  }

  ghost predicate CoaccessSound<W>(f: Fst<W>, zero: W, st: Search) {
    forall x: nat :: Coacc(st, x) ==> Col(st, x) != White && Coaccessible(f, zero, x)
  }

  ghost predicate CoaccessComplete<W>(f: Fst<W>, zero: W, st: Search) {
    && (forall x: nat :: IsSettled(st, x) && Coaccessible(f, zero, x) ==> Coacc(st, x))
    && (forall x: nat :: Open(st, x) && Col(st, x) == Black && IsFinal(f, zero, x) ==> Coacc(st, x))
    && (forall x: nat, i: nat :: Open(st, x) && Explored(st, x, i) && IsSettled(st, Target(f, x, i)) && Coacc(st, Target(f, x, i))
          ==> Coacc(st, x))
  }

  ghost predicate Inv<W>(f: Fst<W>, zero: W, st: Search) {
    && Shape(f, st)
    && Numbered(st)
    && Stacks(st)
    && Cursors(f, st)
    && ExploredKnown(f, st)
    && ExploredEarlier(f, st)
    && LeadsBack(f, st)
    && LeadsDown(f, st)
    && LowReached(f, st)
    && LowCovers(f, st)
    && Finished(f, st)
    && CoaccessSound(f, zero, st)
    && CoaccessComplete(f, zero, st)
  }

  // ------------------------------------------------------------ the steps

  function Grow<T>(s: seq<T>, n: nat, default: T): seq<T> {
    if |s| < n then s + seq(n - |s|, _ => default) else s
  }

  /** SccVisitor::InitState. */
  function InitState(v: Visitor, s: nat, fromStart: bool): Visitor {
    Visitor(Grow(v.scc, s + 1, -1),
            Grow(v.access, s + 1, false)[s := fromStart],
            Grow(v.coaccess, s + 1, false),
            Grow(v.dfnumber, s + 1, -1)[s := v.nstates],
            Grow(v.lowlink, s + 1, -1)[s := v.nstates],
            Grow(v.onstack, s + 1, false)[s := true],
            v.sccStack + [s], v.nstates + 1, v.nscc)
  }

  predicate Knows(v: Visitor, s: nat) {
    s < |v.scc| && s < |v.access| && s < |v.coaccess| && s < |v.dfnumber| && s < |v.lowlink| && s < |v.onstack|
  }

  /** SccVisitor::BackArc. */
  function BackArc(v: Visitor, s: nat, t: nat): Visitor
    requires Knows(v, s) && Knows(v, t)
  {
    v.(lowlink := if v.dfnumber[t] < v.lowlink[s] then v.lowlink[s := v.dfnumber[t]] else v.lowlink,
       coaccess := if v.coaccess[t] then v.coaccess[s := true] else v.coaccess)
  }

  /** SccVisitor::ForwardOrCrossArc. */
  function ForwardOrCrossArc(v: Visitor, s: nat, t: nat): Visitor
    requires Knows(v, s) && Knows(v, t)
  {
    v.(lowlink := if v.dfnumber[t] < v.dfnumber[s] && v.onstack[t] && v.dfnumber[t] < v.lowlink[s]
                  then v.lowlink[s := v.dfnumber[t]] else v.lowlink,
       coaccess := if v.coaccess[t] then v.coaccess[s := true] else v.coaccess)
  }

  /** Sets the entries of the listed states. */
  function SetAll<T>(vec: seq<T>, states: seq<nat>, value: T): seq<T> {
    seq(|vec|, i requires 0 <= i < |vec| => if i in states then value else vec[i])
  }

  /** The stack from 's' up, which is what the two loops of FinishState walk over. */
  function From(stack: seq<nat>, s: nat): (k: nat)
    requires s in stack
    ensures k < |stack| && stack[k] == s && s !in stack[k + 1..]
  {
    if stack[|stack| - 1] == s then |stack| - 1 else From(stack[..|stack| - 1], s)
  }

  /** SccVisitor::FinishState, part by part: a final state is coaccessible ... */
  function MarkFinal(v: Visitor, s: nat, final: bool): Visitor
    requires Knows(v, s)
  {
    if final then v.(coaccess := v.coaccess[s := true]) else v
  }

  /** ... the root of a component takes the component off the stack and numbers it ... */
  function NumberComponent(v: Visitor, s: nat): Visitor
    requires s in v.sccStack
  {
    var k := From(v.sccStack, s);
    var members := v.sccStack[k..];
    var sccCoaccess := exists t :: t in members && At(v.coaccess, t, false);
    v.(scc := SetAll(v.scc, members, v.nscc),
       coaccess := if sccCoaccess then SetAll(v.coaccess, members, true) else v.coaccess,
       onstack := SetAll(v.onstack, members, false),
       sccStack := v.sccStack[..k],
       nscc := v.nscc + 1)
  }

  function CloseState(v: Visitor, s: nat, final: bool): Visitor
    requires Knows(v, s) && s in v.sccStack
  {
    var v := MarkFinal(v, s, final);
    if v.dfnumber[s] == v.lowlink[s] then NumberComponent(v, s) else v
  }

  /** ... and the parent learns from its child. */
  function TellParent(v: Visitor, s: nat, p: nat): Visitor
    requires Knows(v, s) && Knows(v, p)
  {
    v.(coaccess := if v.coaccess[s] then v.coaccess[p := true] else v.coaccess,
       lowlink := if v.lowlink[s] < v.lowlink[p] then v.lowlink[p := v.lowlink[s]] else v.lowlink)
  }

  // ------------------------------------------------------------ meeting a state

  function Discover(st: Search, s: nat, fromStart: bool): Search
    requires s < |st.color|
  {
    Search(st.color[s := Grey], st.grey + [s], st.cur, InitState(st.v, s, fromStart))
  }

  /** 's' is white and is where the search is about to go. */
  ghost predicate CanDiscover<W>(f: Fst<W>, st: Search, s: nat) {
    && s < |st.color| && Col(st, s) == White
    && (st.grey != [] ==>
          var top := st.grey[|st.grey| - 1];
          Cur(st, top) < OutDegree(f, top) && Target(f, top, Cur(st, top)) == s)
  }

  ghost predicate DiscoverEffect(st: Search, st': Search, s: nat) {
    && (forall x: nat :: Col(st', x) == if x == s then Grey else Col(st, x))
    && (forall x: nat :: Cur(st', x) == Cur(st, x))
    && (forall x: nat :: Num(st', x) == if x == s then st.v.nstates else Num(st, x))
    && (forall x: nat :: Low(st', x) == if x == s then st.v.nstates else Low(st, x))
    && (forall x: nat :: Comp(st', x) == Comp(st, x))
    && (forall x: nat :: Coacc(st', x) == Coacc(st, x))
    && (forall x: nat :: Open(st', x) <==> x == s || Open(st, x))
    && st'.grey == st.grey + [s]
    && st'.v.sccStack == st.v.sccStack + [s]
    && st'.v.nstates == st.v.nstates + 1 && st'.v.nscc == st.v.nscc
  }

  lemma DiscoverHasEffect<W>(f: Fst<W>, st: Search, s: nat, fromStart: bool)
    requires Shape(f, st) && CanDiscover(f, st, s)
    ensures DiscoverEffect(st, Discover(st, s, fromStart), s)
    ensures Shape(f, Discover(st, s, fromStart))
  {
  }

  lemma DiscoverKeepsNumbers<W>(f: Fst<W>, st: Search, st': Search, s: nat)
    requires Numbered(st) && Cursors(f, st) && CanDiscover(f, st, s) && DiscoverEffect(st, st', s)
    ensures Numbered(st') && Cursors(f, st')
  {
    hide Col, Cur, Num, Low, Comp, Coacc, Open, Reaches, Coaccessible;
  }

  lemma DiscoverKeepsStacks<W>(f: Fst<W>, st: Search, st': Search, s: nat)
    requires Numbered(st) && Stacks(st) && CanDiscover(f, st, s) && DiscoverEffect(st, st', s)
    ensures Stacks(st')
  {
    hide Col, Cur, Num, Low, Comp, Coacc, Reaches, Coaccessible;
    IncreasingAppend(st, st', st.grey, s);
    assert forall x: nat :: x in st.v.sccStack <==> Open(st, x);
    IncreasingAppend(st, st', st.v.sccStack, s);
  }

  lemma IncreasingAppend(st: Search, st': Search, stack: seq<nat>, s: nat)
    requires Numbered(st) && Increasing(st, stack)
    requires forall x: nat :: x in stack ==> Col(st, x) != White
    requires forall x: nat :: Num(st', x) == if x == s then st.v.nstates else Num(st, x)
    requires Col(st, s) == White
    ensures Increasing(st', stack + [s])
  {
    hide Col, Num;
    forall i, j | 0 <= i < j < |stack| + 1 ensures Num(st', (stack + [s])[i]) < Num(st', (stack + [s])[j]) {
      assert stack[i] in stack;
      if j < |stack| { assert stack[j] in stack; }
    }
  }

  lemma DiscoverKeepsExplored<W>(f: Fst<W>, zero: W, st: Search, st': Search, s: nat)
    requires Inv(f, zero, st) && CanDiscover(f, st, s) && DiscoverEffect(st, st', s)
    ensures ExploredKnown(f, st') && ExploredEarlier(f, st') && LowCovers(f, st')
  {
    hide Col, Cur, Num, Low, Comp, Coacc, Open, Reaches, Coaccessible, LeadsBack, LeadsDown, LowReached, Finished, CoaccessSound, CoaccessComplete;
  }

  lemma DiscoverKeepsLeadsBack<W>(f: Fst<W>, st: Search, st': Search, s: nat)
    requires LeadsBack(f, st) && DiscoverEffect(st, st', s) && s < |f.arcs|
    requires s !in st.grey && !Open(st, s)
    ensures LeadsBack(f, st')
  {
    hide Col, Cur, Num, Low, Comp, Coacc, Open, Reaches, Coaccessible;
    ReachesSelf(f, s);
    forall x: nat | Open(st', x)
      ensures HasBack(f, st', x)
    {
      if x == s {
        assert BackTo(f, st', s, s);
      } else {
        var g := BackFrom(f, st, x);
        assert BackTo(f, st', x, g);
      }
    }
  }

  lemma DiscoverKeepsLeadsDown<W>(f: Fst<W>, st: Search, st': Search, s: nat)
    requires f.Valid() && s < |f.arcs|
    requires Numbered(st) && Stacks(st) && LeadsDown(f, st)
    requires CanDiscover(f, st, s) && DiscoverEffect(st, st', s)
    ensures LeadsDown(f, st')
  {
    hide Col, Cur, Num, Low, Comp, Coacc, Open, Reaches, Coaccessible;
    ReachesSelf(f, s);
    forall g: nat, x: nat | g in st'.grey && Open(st', x) && Num(st', g) <= Num(st', x)
      ensures Reaches(f, g, x)
    {
      if x == s && g != s {
        var top := st.grey[|st.grey| - 1];
        TopIsLatest(st, g);
        ReachesArc(f, top, Cur(st, top));
        ReachesTransitive(f, g, top, s);
      }
    }
  }

  /** The topmost grey state was met last. */
  lemma TopIsLatest(st: Search, g: nat)
    requires Stacks(st) && g in st.grey
    ensures st.grey != [] && Num(st, g) <= Num(st, st.grey[|st.grey| - 1])
    ensures Open(st, st.grey[|st.grey| - 1])
  {
    var i :| 0 <= i < |st.grey| && st.grey[i] == g;
    assert st.grey[|st.grey| - 1] in st.grey;
  }

  lemma DiscoverKeepsLowReached<W>(f: Fst<W>, st: Search, st': Search, s: nat)
    requires LowReached(f, st) && Stacks(st) && CanDiscover(f, st, s) && DiscoverEffect(st, st', s) && s < |f.arcs|
    ensures LowReached(f, st')
  {
    hide Col, Cur, Num, Low, Comp, Coacc, Open, Reaches, Coaccessible;
    ReachesSelf(f, s);
    forall g: nat | g in st'.grey
      ensures HasLow(f, st', g)
    {
      if g == s {
        assert LowAt(f, st', s, s);
      } else {
        var w := LowOf(f, st, g);
        assert LowAt(f, st', g, w);
      }
    }
  }

  lemma DiscoverKeepsFinished<W>(f: Fst<W>, zero: W, st: Search, st': Search, s: nat)
    requires Inv(f, zero, st) && CanDiscover(f, st, s) && DiscoverEffect(st, st', s)
    ensures Finished(f, st') && CoaccessSound(f, zero, st') && CoaccessComplete(f, zero, st')
  {
    hide Col, Cur, Num, Low, Comp, Coacc, Open, Reaches, Coaccessible, LeadsBack, LeadsDown, LowReached;
  }

  lemma DiscoverKeepsInv<W>(f: Fst<W>, zero: W, st: Search, s: nat, fromStart: bool)
    requires Inv(f, zero, st) && CanDiscover(f, st, s)
    ensures Inv(f, zero, Discover(st, s, fromStart))
  {
    var st' := Discover(st, s, fromStart);
    DiscoverHasEffect(f, st, s, fromStart);
    DiscoverKeepsNumbers(f, st, st', s);
    DiscoverKeepsStacks(f, st, st', s);
    DiscoverKeepsExplored(f, zero, st, st', s);
    DiscoverKeepsLeadsBack(f, st, st', s);
    DiscoverKeepsLeadsDown(f, st, st', s);
    DiscoverKeepsLowReached(f, st, st', s);
    DiscoverKeepsFinished(f, zero, st, st', s);
  }

  // ------------------------------------------------------------ an arc to a known state

  function Top(st: Search): nat
    requires st.grey != []
  {
    st.grey[|st.grey| - 1]
  }

  /** The topmost grey state is at an arc whose target has been met. */
  ghost predicate CanExplore<W>(f: Fst<W>, st: Search) {
    && st.grey != []
    && Cur(st, Top(st)) < OutDegree(f, Top(st))
    && Col(st, Target(f, Top(st), Cur(st, Top(st)))) != White
    && Knows(st.v, Top(st)) && Knows(st.v, Target(f, Top(st), Cur(st, Top(st))))
    && Top(st) < |st.cur|
  }

  ghost function Explore<W>(f: Fst<W>, st: Search): Search
    requires CanExplore(f, st)
  {
    var s := Top(st);
    var t := Target(f, s, Cur(st, s));
    Search(st.color, st.grey, st.cur[s := Cur(st, s) + 1],
           if Col(st, t) == Grey then BackArc(st.v, s, t) else ForwardOrCrossArc(st.v, s, t))
  }

  ghost predicate ExploreEffect(st: Search, st': Search, s: nat, t: nat) {
    && st.grey != [] && s == Top(st)
    && (forall x: nat :: Col(st', x) == Col(st, x))
    && (forall x: nat :: Cur(st', x) == if x == s then Cur(st, x) + 1 else Cur(st, x))
    && (forall x: nat :: Num(st', x) == Num(st, x))
    && (forall x: nat :: x != s ==> Low(st', x) == Low(st, x))
    && Low(st', s) <= Low(st, s)
    && (Low(st', s) == Low(st, s) || (Open(st, t) && Low(st', s) == Num(st, t)))
    && (Open(st, t) ==> Low(st', s) <= Num(st, t))
    && (forall x: nat :: Comp(st', x) == Comp(st, x))
    && (forall x: nat :: Coacc(st', x) == (Coacc(st, x) || (x == s && Coacc(st, t))))
    && st'.grey == st.grey
    && st'.v.sccStack == st.v.sccStack
    && st'.v.nstates == st.v.nstates && st'.v.nscc == st.v.nscc
  }

  lemma ExploreHasEffect<W>(f: Fst<W>, st: Search)
    requires Shape(f, st) && Stacks(st) && LowReached(f, st) && CanExplore(f, st)
    ensures var t := Target(f, Top(st), Cur(st, Top(st)));
            ExploreEffect(st, Explore(f, st), Top(st), t)
    ensures Shape(f, Explore(f, st))
  {
    hide Increasing, LowAt, Reaches;
    var t := Target(f, Top(st), Cur(st, Top(st)));
    assert Top(st) in st.grey;
    assert Col(st, t) == Grey ==> t in st.grey;
  }

  lemma ExploreKeepsStacks<W>(f: Fst<W>, st: Search, st': Search, s: nat, t: nat)
    requires Numbered(st) && Stacks(st) && Cursors(f, st) && ExploredKnown(f, st) && ExploreEffect(st, st', s, t)
    requires Cur(st, s) < OutDegree(f, s) && t == Target(f, s, Cur(st, s)) && Col(st, t) != White
    ensures Numbered(st') && Stacks(st') && Cursors(f, st') && ExploredKnown(f, st')
  {
    ExploreKeepsCursors(f, st, st', s, t);
    ExploreKeepsKnown(f, st, st', s, t);
    hide Col, Cur, Num, Low, Comp, Coacc, Reaches, Coaccessible, Cursors, ExploredKnown;
  }

  lemma ExploreKeepsCursors<W>(f: Fst<W>, st: Search, st': Search, s: nat, t: nat)
    requires Numbered(st) && Stacks(st) && Cursors(f, st) && ExploreEffect(st, st', s, t)
    requires Cur(st, s) < OutDegree(f, s)
    ensures Cursors(f, st')
  {
    hide Col, Cur, Num, Low, Comp, Coacc;
    assert s in st.grey;
    forall k | 0 <= k < |st.grey| - 1 ensures Cur(st', st.grey[k]) == Cur(st, st.grey[k]) {
      assert Num(st, st.grey[k]) < Num(st, st.grey[|st.grey| - 1]);
    }
  }

  lemma ExploreKeepsKnown<W>(f: Fst<W>, st: Search, st': Search, s: nat, t: nat)
    requires ExploredKnown(f, st) && ExploreEffect(st, st', s, t)
    requires t == Target(f, s, Cur(st, s)) && Col(st, t) != White
    ensures ExploredKnown(f, st')
  {
    hide Col, Cur, Num, Low, Comp, Coacc;
    forall x: nat, i: nat | Explored(st', x, i) ensures Col(st', Target(f, x, i)) != White {
      assert Explored(st, x, i) || (x == s && i == Cur(st, s));
    }
  }

  lemma ExploreKeepsExplored<W>(f: Fst<W>, st: Search, st': Search, s: nat, t: nat)
    requires Stacks(st) && ExploredEarlier(f, st) && LowCovers(f, st) && ExploreEffect(st, st', s, t)
    requires t == Target(f, s, Cur(st, s))
    ensures ExploredEarlier(f, st') && LowCovers(f, st')
  {
    hide Col, Cur, Num, Low, Comp, Coacc, Reaches, Coaccessible;
    forall g: nat | g in st.grey ensures Num(st, g) <= Num(st, s) { TopIsLatest(st, g); }
    assert forall x: nat, i: nat :: Explored(st', x, i) ==> Explored(st, x, i) || (x == s && i == Cur(st, s));
    forall k: int, x: nat, i: nat | 0 <= k < |st'.grey| && InSegment(st', k, x) && Explored(st', x, i) && Open(st', Target(f, x, i))
      ensures Low(st', st'.grey[k]) <= Num(st', Target(f, x, i))
    {
      assert InSegment(st, k, x);
      if k < |st.grey| - 1 { assert Num(st, st.grey[k]) < Num(st, st.grey[|st.grey| - 1]); }
    }
  }

  lemma ExploreKeepsLeads<W>(f: Fst<W>, st: Search, st': Search, s: nat, t: nat)
    requires LeadsBack(f, st) && LeadsDown(f, st) && ExploreEffect(st, st', s, t)
    ensures LeadsBack(f, st') && LeadsDown(f, st')
  {
    hide Col, Cur, Num, Low, Comp, Coacc, Reaches, Coaccessible;
    forall x: nat | Open(st', x) ensures HasBack(f, st', x) {
      var g := BackFrom(f, st, x);
      assert BackTo(f, st', x, g);
    }
  }

  lemma ExploreKeepsLow<W>(f: Fst<W>, st: Search, st': Search, s: nat, t: nat)
    requires LowReached(f, st) && ExploreEffect(st, st', s, t)
    requires Reaches(f, s, t)
    ensures LowReached(f, st')
  {
    hide Col, Cur, Num, Low, Comp, Coacc, Reaches, Coaccessible;
    forall g: nat | g in st'.grey
      ensures HasLow(f, st', g)
    {
      var w := LowOf(f, st, g);
      if Low(st', g) == Low(st, g) {
        assert LowAt(f, st', g, w);
      } else {
        assert LowAt(f, st', g, t);
      }
    }
  }

  lemma ExploreKeepsFinished<W>(f: Fst<W>, zero: W, st: Search, st': Search, s: nat, t: nat)
    requires Stacks(st) && Finished(f, st) && CoaccessSound(f, zero, st) && CoaccessComplete(f, zero, st)
    requires ExploreEffect(st, st', s, t) && t == Target(f, s, Cur(st, s)) && Reaches(f, s, t)
    ensures Finished(f, st') && CoaccessSound(f, zero, st') && CoaccessComplete(f, zero, st')
  {
    hide Col, Cur, Num, Low, Comp, Coacc, Reaches, Coaccessible;
    assert s in st.grey && Open(st, s);
    if Coacc(st, t) { CoaccessibleBack(f, zero, s, t); }
    assert forall x: nat, i: nat :: Explored(st', x, i) ==> Explored(st, x, i) || (x == s && i == Cur(st, s));
    assert forall x: nat :: IsSettled(st', x) <==> IsSettled(st, x);
  }

  lemma ExploreKeepsInv<W>(f: Fst<W>, zero: W, st: Search)
    requires Inv(f, zero, st) && CanExplore(f, st)
    ensures Inv(f, zero, Explore(f, st))
  {
    var s := Top(st);
    var t := Target(f, s, Cur(st, s));
    var st' := Explore(f, st);
    ExploreHasEffect(f, st);
    ReachesArc(f, s, Cur(st, s));
    ExploreKeepsStacks(f, st, st', s, t);
    ExploreKeepsExplored(f, st, st', s, t);
    ExploreKeepsLeads(f, st, st', s, t);
    ExploreKeepsLow(f, st, st', s, t);
    ExploreKeepsFinished(f, zero, st, st', s, t);
  }

  // ------------------------------------------------------------ a state is done

  /** All arcs of the topmost grey state have been dealt with. */
  ghost predicate CanFinish<W>(f: Fst<W>, st: Search) {
    && st.grey != [] && Cur(st, Top(st)) == OutDegree(f, Top(st))
  }

  function Parent(st: Search): nat
    requires |st.grey| > 1
  {
    st.grey[|st.grey| - 2]
  }

  /** DfsVisit's pop together with SccVisitor::FinishState. */
  ghost function Finish(st: Search, final: bool): Search
    requires st.grey != [] && Knows(st.v, Top(st)) && Open(st, Top(st)) && Top(st) < |st.color|
    requires |st.grey| > 1 ==> Knows(st.v, Parent(st)) && Parent(st) < |st.cur|
  {
    var s := Top(st);
    var color, grey, v := st.color[s := Black], st.grey[..|st.grey| - 1], CloseState(st.v, s, final);
    if grey == [] then Search(color, grey, st.cur, v)
    else
      var p := Parent(st);
      Search(color, grey, st.cur[p := st.cur[p] + 1], TellParent(v, s, p))
  }

  predicate IsRoot(st: Search, s: nat) { Num(st, s) == Low(st, s) }

  /** The open states met no earlier than 's'. */
  predicate Member(st: Search, s: nat, x: nat) { Open(st, x) && Num(st, s) <= Num(st, x) }

  /** What the search knows about a path from 's' to a final state when 's' is done. */
  ghost predicate SeesFinal(st: Search, s: nat, final: bool) {
    Coacc(st, s) || final || (IsRoot(st, s) && exists t: nat :: Member(st, s, t) && Coacc(st, t))
  }

  ghost predicate IsParent(st: Search, x: nat) { |st.grey| > 1 && x == Parent(st) }

  ghost predicate FinishEffect(st: Search, st': Search, s: nat, final: bool) {
    && st.grey != [] && s == Top(st)
    && (forall x: nat :: Col(st', x) == if x == s then Black else Col(st, x))
    && (forall x: nat :: Cur(st', x) == if IsParent(st, x) then Cur(st, x) + 1 else Cur(st, x))
    && (forall x: nat :: Num(st', x) == Num(st, x))
    && (forall x: nat :: Low(st', x) == if IsParent(st, x) && Low(st, s) < Low(st, x) then Low(st, s) else Low(st, x))
    && (forall x: nat :: Comp(st', x) == if IsRoot(st, s) && Member(st, s, x) then st.v.nscc else Comp(st, x))
    && (forall x: nat :: Open(st', x) <==> Open(st, x) && !(IsRoot(st, s) && Member(st, s, x)))
    && (forall x: nat :: Coacc(st', x) <==>
          || Coacc(st, x) || (x == s && final)
          || (SeesFinal(st, s, final) && ((IsRoot(st, s) && Member(st, s, x)) || IsParent(st, x))))
    && st'.grey == st.grey[..|st.grey| - 1]
    && st'.v.sccStack <= st.v.sccStack
    && st'.v.nstates == st.v.nstates && st'.v.nscc == st.v.nscc + if IsRoot(st, s) then 1 else 0
  }

  lemma IncreasingAt(st: Search, stack: seq<nat>, i: nat, j: nat)
    requires Increasing(st, stack) && i < |stack| && j < |stack|
    ensures i < j <==> Num(st, stack[i]) < Num(st, stack[j])
  {
  }

  /** The states above 's' on the stack are the members. */
  lemma MembersAreAbove(st: Search, s: nat)
    requires Increasing(st, st.v.sccStack) && Open(st, s)
    ensures var k := From(st.v.sccStack, s);
            && (forall x: nat :: x in st.v.sccStack[k..] <==> Member(st, s, x))
            && (forall x: nat :: x in st.v.sccStack[..k] <==> Open(st, x) && !Member(st, s, x))
  {
    hide Num;
    var k := From(st.v.sccStack, s);
    var stack := st.v.sccStack;
    forall x: nat | Member(st, s, x) ensures x in stack[k..] {
      var i :| 0 <= i < |stack| && stack[i] == x;
      IncreasingAt(st, stack, i, k);
      assert stack[k..][i - k] == x;
    }
    forall x: nat | x in stack[k..] ensures Member(st, s, x) {
      var i :| 0 <= i < |stack[k..]| && stack[k..][i] == x;
      assert stack[k + i] == x;
      assert i > 0 ==> Num(st, stack[k]) < Num(st, stack[k + i]);
    }
    forall x: nat | Open(st, x) && !Member(st, s, x) ensures x in stack[..k] {
      var i :| 0 <= i < |stack| && stack[i] == x;
      IncreasingAt(st, stack, i, k);
      assert stack[..k][i] == x;
    }
    forall x: nat | x in stack[..k] ensures !Member(st, s, x) {
      var i :| 0 <= i < |stack[..k]| && stack[..k][i] == x;
      assert Num(st, stack[i]) < Num(st, stack[k]);
    }
  }

  lemma SetAllAt<T>(vec: seq<T>, states: seq<nat>, value: T, default: T)
    ensures |SetAll(vec, states, value)| == |vec|
    ensures forall x: nat :: At(SetAll(vec, states, value), x, default)
                             == if x in states && x < |vec| then value else At(vec, x, default)
  {
  }

  ghost predicate SameSizes(v: Visitor, v': Visitor) {
    && |v'.scc| == |v.scc| && |v'.coaccess| == |v.coaccess| && |v'.dfnumber| == |v.dfnumber|
    && |v'.lowlink| == |v.lowlink| && |v'.onstack| == |v.onstack| && v'.access == v.access
  }

  lemma NumberComponentEffect<W>(f: Fst<W>, st: Search, s: nat)
    requires Shape(f, st) && Increasing(st, st.v.sccStack) && Open(st, s)
    requires forall x: nat :: Open(st, x) ==> Col(st, x) != White
    ensures var v := NumberComponent(st.v, s);
            var co := exists t: nat :: Member(st, s, t) && Coacc(st, t);
            && v.dfnumber == st.v.dfnumber && v.lowlink == st.v.lowlink && SameSizes(st.v, v)
            && v.sccStack <= st.v.sccStack && v.nstates == st.v.nstates && v.nscc == st.v.nscc + 1
            && (forall x: nat :: At(v.scc, x, -1) == if Member(st, s, x) then st.v.nscc else Comp(st, x))
            && (forall x: nat :: x in v.sccStack <==> Open(st, x) && !Member(st, s, x))
            && (forall x: nat :: At(v.coaccess, x, false) <==> Coacc(st, x) || (co && Member(st, s, x)))
            && (forall x: nat :: At(v.onstack, x, false) <==> At(st.v.onstack, x, false) && !Member(st, s, x))
  {
    assert forall x: nat :: Open(st, x) ==> x < |st.v.dfnumber|;
    MembersAreAbove(st, s);
    var members := st.v.sccStack[From(st.v.sccStack, s)..];
    assert forall x: nat :: x in members ==> Member(st, s, x) && x < |st.v.dfnumber|;
    hide Increasing, Col, SetAll, From, Num;
    SetAllAt(st.v.scc, members, st.v.nscc, -1);
    SetAllAt(st.v.coaccess, members, true, false);
    SetAllAt(st.v.onstack, members, false, false);
  }

  /** What CloseState does, component or not. */
  ghost predicate CloseEffect(st: Search, v: Visitor, s: nat, final: bool) {
    && v.dfnumber == st.v.dfnumber && v.lowlink == st.v.lowlink && SameSizes(st.v, v)
    && v.sccStack <= st.v.sccStack
    && v.nstates == st.v.nstates && v.nscc == st.v.nscc + (if IsRoot(st, s) then 1 else 0)
    && (forall x: nat :: At(v.scc, x, -1) == if IsRoot(st, s) && Member(st, s, x) then st.v.nscc else Comp(st, x))
    && (forall x: nat :: x in v.sccStack <==> Open(st, x) && !(IsRoot(st, s) && Member(st, s, x)))
    && (forall x: nat :: At(v.onstack, x, false) <==> At(st.v.onstack, x, false) && !(IsRoot(st, s) && Member(st, s, x)))
    && (forall x: nat :: At(v.coaccess, x, false) <==> (Coacc(st, x) || (x == s && final)
                                             || (SeesFinal(st, s, final) && IsRoot(st, s) && Member(st, s, x))))
  }

  lemma CloseHasEffect<W>(f: Fst<W>, st: Search, s: nat, final: bool)
    requires Shape(f, st) && Stacks(st) && st.grey != [] && s == Top(st)
    ensures Knows(st.v, s) && s in st.v.sccStack
    ensures CloseEffect(st, CloseState(st.v, s, final), s, final)
  {
    assert s in st.grey;
    assert Open(st, s);
    if IsRoot(st, s) {
      CloseRootEffect(f, st, s, final);
    } else {
      hide SeesFinal;
    }
  }

  lemma MarkFinalEffect<W>(f: Fst<W>, st: Search, s: nat, final: bool)
    requires Shape(f, st) && Stacks(st) && Knows(st.v, s)
    ensures var st1 := st.(v := MarkFinal(st.v, s, final));
            && Shape(f, st1) && Increasing(st1, st1.v.sccStack)
            && (forall x: nat :: Coacc(st1, x) <==> Coacc(st, x) || (x == s && final))
            && (forall x: nat :: Num(st1, x) == Num(st, x) && Comp(st1, x) == Comp(st, x))
            && (forall x: nat :: Open(st1, x) == Open(st, x))
            && (forall x: nat :: Open(st1, x) ==> Col(st1, x) != White)
            && (forall x: nat :: Member(st1, s, x) <==> Member(st, s, x))
  {
    var st1 := st.(v := MarkFinal(st.v, s, final));
    assert forall x: nat :: Col(st1, x) == Col(st, x);
  }

  lemma CloseRootEffect<W>(f: Fst<W>, st: Search, s: nat, final: bool)
    requires Shape(f, st) && Stacks(st) && Knows(st.v, s) && Open(st, s) && IsRoot(st, s)
    ensures CloseEffect(st, CloseState(st.v, s, final), s, final)
  {
    var st1 := st.(v := MarkFinal(st.v, s, final));
    MarkFinalEffect(f, st, s, final);
    hide Increasing, Stacks, Shape, NumberComponent, SeesFinal, Comp, Coacc, Member;
    NumberComponentEffect(f, st1, s);
    SeesFinalInMembers(st, st1, s, final);
  }

  lemma SeesFinalInMembers(st: Search, st1: Search, s: nat, final: bool)
    requires IsRoot(st, s) && Open(st, s)
    requires forall x: nat :: Coacc(st1, x) <==> Coacc(st, x) || (x == s && final)
    requires forall x: nat :: Num(st1, x) == Num(st, x) && Open(st1, x) == Open(st, x)
    ensures (exists t: nat :: Member(st1, s, t) && Coacc(st1, t)) <==> SeesFinal(st, s, final)
  {
    hide Num, Coacc, Open;
    assert Member(st1, s, s);
    assert forall x: nat :: Member(st1, s, x) <==> Member(st, s, x);
    if SeesFinal(st, s, final) && !Coacc(st, s) && !final {
      var t: nat :| Member(st, s, t) && Coacc(st, t);
      assert Member(st1, s, t) && Coacc(st1, t);
    }
  }

  /** Popping the topmost grey state. */
  lemma GreyPop(st: Search)
    requires st.grey != [] && Increasing(st, st.grey)
    ensures var rest := st.grey[..|st.grey| - 1];
            && (forall x: nat :: x in rest <==> x in st.grey && x != Top(st))
            && (forall x: nat :: x in rest ==> Num(st, x) < Num(st, Top(st)))
  {
    var rest := st.grey[..|st.grey| - 1];
    forall x: nat | x in rest ensures Num(st, x) < Num(st, Top(st)) {
      var i :| 0 <= i < |rest| && rest[i] == x;
      assert st.grey[i] == x;
    }
  }

  lemma FinishHasEffect<W>(f: Fst<W>, st: Search, final: bool)
    requires Shape(f, st) && Stacks(st) && st.grey != []
    ensures Knows(st.v, Top(st)) && Top(st) in st.v.sccStack && Top(st) < |st.color|
    ensures |st.grey| > 1 ==> Knows(st.v, Parent(st)) && Parent(st) < |st.cur|
    ensures FinishEffect(st, Finish(st, final), Top(st), final)
    ensures Shape(f, Finish(st, final))
  {
    var s := Top(st);
    assert s in st.grey;
    assert Open(st, s);
    GreyPop(st);
    CloseHasEffect(f, st, s, final);
    if |st.grey| > 1 {
      assert Parent(st) in st.grey;
      assert Parent(st) == st.grey[..|st.grey| - 1][|st.grey| - 2];
      ParentEffect(f, st, final);
    } else {
      LastEffect(f, st, final);
    }
  }

  lemma LastEffect<W>(f: Fst<W>, st: Search, final: bool)
    requires Shape(f, st) && |st.grey| == 1 && Knows(st.v, Top(st)) && Open(st, Top(st)) && Top(st) < |st.color|
    requires CloseEffect(st, CloseState(st.v, Top(st), final), Top(st), final)
    ensures FinishEffect(st, Finish(st, final), Top(st), final)
    ensures Shape(f, Finish(st, final))
  {
    hide CloseState, Member, SeesFinal, IsRoot;
  }

  lemma ParentEffect<W>(f: Fst<W>, st: Search, final: bool)
    requires Shape(f, st) && |st.grey| > 1 && Knows(st.v, Top(st)) && Open(st, Top(st)) && Top(st) < |st.color|
    requires Knows(st.v, Parent(st)) && Parent(st) < |st.cur| && Parent(st) != Top(st)
    requires CloseEffect(st, CloseState(st.v, Top(st), final), Top(st), final)
    ensures FinishEffect(st, Finish(st, final), Top(st), final)
    ensures Shape(f, Finish(st, final))
  {
    var s := Top(st);
    var v := CloseState(st.v, s, final);
    assert v.coaccess[s] <==> SeesFinal(st, s, final) by {
      hide CloseState;
      assert At(v.coaccess, s, false) == v.coaccess[s] && Member(st, s, s);
    }
    hide CloseState, Member, SeesFinal, IsRoot;
  }

  /** A state that is not the root of a component has a parent, and reaches a grey state below it. */
  lemma InnerHasParent<W>(f: Fst<W>, st: Search, s: nat) returns (g: nat)
    requires Stacks(st) && LeadsBack(f, st) && LowReached(f, st)
    requires st.grey != [] && s == Top(st) && !IsRoot(st, s)
    ensures g in st.grey && Num(st, g) < Num(st, s) && Reaches(f, s, g)
  {
    assert s in st.grey;
    hide Stacks, LeadsBack, LowReached;
    var w := LowOf(f, st, s);
    g := BackFrom(f, st, w);
    ReachesTransitive(f, s, w, g);
  }

  lemma FinishKeepsStacks<W>(f: Fst<W>, st: Search, st': Search, s: nat, final: bool)
    requires Numbered(st) && Stacks(st) && FinishEffect(st, st', s, final)
    ensures Numbered(st') && Stacks(st')
  {
    hide Col, Cur, Num, Low, Comp, Coacc, SeesFinal;
    GreyPop(st);
    assert st'.v.sccStack == st.v.sccStack[..|st'.v.sccStack|];
    assert Increasing(st', st'.v.sccStack);
    assert Increasing(st', st'.grey);
  }

  lemma FinishKeepsCursors<W>(f: Fst<W>, st: Search, st': Search, s: nat, final: bool)
    requires Stacks(st) && Cursors(f, st) && ExploredKnown(f, st) && FinishEffect(st, st', s, final)
    requires CanFinish(f, st)
    ensures Cursors(f, st') && ExploredKnown(f, st')
  {
    hide Num, Low, Comp, Coacc, Open, SeesFinal;
    GreyPop(st);
    if |st.grey| > 1 {
      var p := Parent(st);
      assert p in st.grey && Target(f, p, Cur(st, p)) == s;
      forall k | 0 <= k < |st'.grey| - 1 ensures st'.grey[k] == st.grey[k] && st.grey[k] != p {
        IncreasingAt(st, st.grey, k, |st.grey| - 2);
      }
    }
  }

  lemma FinishKeepsExplored<W>(f: Fst<W>, st: Search, st': Search, s: nat, final: bool)
    requires Stacks(st) && ExploredEarlier(f, st) && FinishEffect(st, st', s, final)
    ensures ExploredEarlier(f, st')
  {
    hide Col, Cur, Num, Low, Comp, Coacc, Open, SeesFinal;
    GreyPop(st);
    if |st.grey| > 1 {
      var p := Parent(st);
      forall g: nat | g in st'.grey ensures Num(st, g) <= Num(st, p) {
        var i :| 0 <= i < |st'.grey| && st'.grey[i] == g;
        assert i < |st.grey| - 2 ==> Num(st, st.grey[i]) < Num(st, st.grey[|st.grey| - 2]);
      }
    }
  }

  lemma LeadsBackAfterRoot<W>(f: Fst<W>, st: Search, st': Search, s: nat, final: bool)
    requires LeadsBack(f, st) && FinishEffect(st, st', s, final) && IsRoot(st, s)
    requires forall x: nat :: x in st'.grey <==> x in st.grey && x != s
    ensures LeadsBack(f, st')
  {
    hide SeesFinal, Reaches, Num, Low, Comp, Coacc, Col, Cur, Open;
    forall x: nat | Open(st', x) ensures HasBack(f, st', x) {
      var g := BackFrom(f, st, x);
      assert BackTo(f, st', x, g);
    }
  }

  lemma LeadsBackAfterInner<W>(f: Fst<W>, st: Search, st': Search, s: nat, final: bool, h: nat)
    requires LeadsBack(f, st) && FinishEffect(st, st', s, final)
    requires forall x: nat :: x in st'.grey <==> x in st.grey && x != s
    requires h in st'.grey && Num(st, h) < Num(st, s) && Reaches(f, s, h)
    ensures LeadsBack(f, st')
  {
    hide SeesFinal, Reaches, Num, Low, Comp, Coacc, Col, Cur, Open;
    forall x: nat | Open(st', x) ensures HasBack(f, st', x) {
      var g := BackFrom(f, st, x);
      if g == s {
        ReachesTransitive(f, x, s, h);
        assert BackTo(f, st', x, h);
      } else {
        assert BackTo(f, st', x, g);
      }
    }
  }

  lemma FinishKeepsLeadsDown<W>(f: Fst<W>, st: Search, st': Search, s: nat, final: bool)
    requires Stacks(st) && LeadsDown(f, st) && FinishEffect(st, st', s, final)
    ensures LeadsDown(f, st')
  {
    hide Col, Cur, Num, Low, Comp, Coacc, Open, SeesFinal, Reaches;
    GreyPop(st);
  }

  lemma FinishKeepsLowReached<W>(f: Fst<W>, st: Search, st': Search, s: nat, final: bool)
    requires f.Valid() && Stacks(st) && Cursors(f, st) && LowReached(f, st) && FinishEffect(st, st', s, final)
    requires forall x: nat :: Col(st, x) != White ==> x < |f.arcs|
    ensures LowReached(f, st')
  {
    GreyPop(st);
    assert s in st.grey;
    if |st.grey| > 1 {
      assert Parent(st) in st.grey;
      ReachesArc(f, Parent(st), Cur(st, Parent(st)));
    }
    hide Stacks, Cursors, LowReached, SeesFinal, Reaches, Num, Low, Comp, Coacc, Col, Cur, Open;
    var ws := LowOf(f, st, s);
    forall g: nat | g in st'.grey
      ensures HasLow(f, st', g)
    {
      var w := LowOf(f, st, g);
      if IsParent(st, g) && Low(st, s) < Low(st, g) {
        ReachesTransitive(f, g, s, ws);
        assert LowAt(f, st', g, ws);
      } else {
        assert LowAt(f, st', g, w);
      }
    }
  }

  /** An arc explored before the pop stays covered: its segment is the same, or has been merged
      into the parent's, whose low link has been lowered. */
  lemma CoveredStays<W>(f: Fst<W>, st: Search, st': Search, s: nat, final: bool, k: int, x: nat, i: nat)
    requires Increasing(st, st.grey) && LowCovers(f, st) && FinishEffect(st, st', s, final)
    requires 0 <= k < |st'.grey| && InSegment(st', k, x) && Open(st', Target(f, x, i)) && Explored(st, x, i)
    ensures Low(st', st'.grey[k]) <= Num(st', Target(f, x, i))
  {
    hide Num, Low, Cur, Open, Col, Comp, Coacc, SeesFinal, Explored, IsRoot;
    var n := |st.grey| - 1;
    var j := if k == n - 1 && Num(st, s) <= Num(st, x) then n else k;
    assert st'.grey[k] == st.grey[k];
    assert Open(st, x) && Open(st, Target(f, x, i));
    if k + 1 < n { assert st'.grey[k + 1] == st.grey[k + 1]; }
    assert InSegment(st, j, x);
    assert Low(st, st.grey[j]) <= Num(st, Target(f, x, i));
  }

  /** The arc from the parent to 's' is covered as well. */
  lemma TreeArcCovered(st: Search, st': Search, s: nat, final: bool, k: int)
    requires Increasing(st, st.grey) && FinishEffect(st, st', s, final) && 0 <= k < |st'.grey|
    requires forall g: nat :: g in st.grey ==> Low(st, g) <= Num(st, g)
    ensures Low(st', st'.grey[k]) <= Num(st', s)
  {
    hide Num, Low, Cur, Open, Col, Comp, Coacc, SeesFinal, IsRoot;
    assert st'.grey[k] == st.grey[k] && st.grey[k] in st.grey;
    IncreasingAt(st, st.grey, k, |st.grey| - 1);
  }

  lemma FinishKeepsLowCovers<W>(f: Fst<W>, st: Search, st': Search, s: nat, final: bool)
    requires Increasing(st, st.grey) && Cursors(f, st) && LowCovers(f, st) && FinishEffect(st, st', s, final)
    requires forall g: nat :: g in st.grey ==> Low(st, g) <= Num(st, g)
    ensures LowCovers(f, st')
  {
    if |st.grey| > 1 {
      assert Target(f, Parent(st), Cur(st, Parent(st))) == s;
    }
    assert forall x: nat, i: nat :: Explored(st', x, i) ==> Explored(st, x, i) || (IsParent(st, x) && i == Cur(st, x));
    hide Cursors, Num, Low, Cur, Open, Col, Comp, Coacc, SeesFinal, Explored, IsRoot, Increasing;
    forall k: int, x: nat, i: nat | 0 <= k < |st'.grey| && InSegment(st', k, x) && Explored(st', x, i) && Open(st', Target(f, x, i))
      ensures Low(st', st'.grey[k]) <= Num(st', Target(f, x, i))
    {
      if Explored(st, x, i) {
        CoveredStays(f, st, st', s, final, k, x, i);
      } else {
        TreeArcCovered(st, st', s, final, k);
      }
    }
  }

  /** When the root of a component is done, no arc leaves its members but to numbered components. */
  lemma MembersClosed<W>(f: Fst<W>, st: Search, s: nat)
    requires Numbered(st) && Stacks(st) && Cursors(f, st) && ExploredKnown(f, st) && LowCovers(f, st)
    requires CanFinish(f, st) && s == Top(st) && IsRoot(st, s)
    ensures forall x: nat, i: nat :: Member(st, s, x) && i < OutDegree(f, x) ==>
              Explored(st, x, i) && (IsSettled(st, Target(f, x, i)) || Member(st, s, Target(f, x, i)))
  {
    forall x: nat, i: nat | Member(st, s, x) && i < OutDegree(f, x)
      ensures Explored(st, x, i) && (IsSettled(st, Target(f, x, i)) || Member(st, s, Target(f, x, i)))
    {
      hide Col, Num, Low, Cur, LowCovers;
      if Col(st, x) == Grey {
        TopIsLatest(st, x);
        assert s in st.grey;
      }
      assert Explored(st, x, i);
      assert InSegment(st, |st.grey| - 1, x);
      CoveredBy(f, st, |st.grey| - 1, x, i);
    }
  }

  lemma CoveredBy<W>(f: Fst<W>, st: Search, k: int, x: nat, i: nat)
    requires LowCovers(f, st) && 0 <= k < |st.grey| && InSegment(st, k, x) && Explored(st, x, i)
    ensures Open(st, Target(f, x, i)) ==> Low(st, st.grey[k]) <= Num(st, Target(f, x, i))
  {
  }

  ghost function MembersAndClosed<W>(f: Fst<W>, st: Search, s: nat): set<nat> {
    set x: nat | x < |f.arcs| && (Member(st, s, x) || IsSettled(st, x))
  }

  lemma MembersAndClosedIsClosed<W>(f: Fst<W>, st: Search, s: nat)
    requires f.Valid() && Finished(f, st)
    requires forall x: nat, i: nat :: Member(st, s, x) && i < OutDegree(f, x) ==>
               IsSettled(st, Target(f, x, i)) || Member(st, s, Target(f, x, i))
    ensures Closed(f, MembersAndClosed(f, st, s))
  {
    hide Member, IsSettled, Comp;
  }

  /** A grey state met no earlier than the topmost one is the topmost one. */
  lemma GreyMemberIsTop(st: Search, s: nat, g: nat)
    requires Numbered(st) && Stacks(st) && st.grey != [] && s == Top(st)
    requires g in st.grey && (Member(st, s, g) || IsSettled(st, g))
    ensures g == s
  {
    hide Num;
    TopIsLatest(st, g);
    assert s in st.grey;
  }

  lemma RootIsClosed<W>(f: Fst<W>, zero: W, st: Search, s: nat)
    requires Inv(f, zero, st) && CanFinish(f, st) && s == Top(st) && IsRoot(st, s)
    ensures Closed(f, MembersAndClosed(f, st, s))
    ensures forall x: nat :: Member(st, s, x) ==> x in MembersAndClosed(f, st, s)
  {
    hide Num, Low, Cur, Comp, Coacc;
    MembersClosed(f, st, s);
    hide LeadsBack, LowReached, LowCovers, ExploredKnown, ExploredEarlier, CoaccessSound, CoaccessComplete, Cursors;
    MembersAndClosedIsClosed(f, st, s);
  }

  lemma GreyInsideIsTop<W>(f: Fst<W>, zero: W, st: Search, s: nat, g: nat)
    requires Inv(f, zero, st) && st.grey != [] && s == Top(st)
    requires g in st.grey && g in MembersAndClosed(f, st, s)
    ensures g == s
  {
    hide LeadsBack, LeadsDown, LowReached, LowCovers, Finished, CoaccessSound, CoaccessComplete;
    GreyMemberIsTop(st, s, g);
  }

  lemma OpenLeadsBack<W>(f: Fst<W>, zero: W, st: Search, x: nat) returns (g: nat)
    requires Inv(f, zero, st) && Open(st, x)
    ensures g in st.grey && Reaches(f, x, g)
  {
    g := BackFrom(f, st, x);
  }

  lemma MemberReachesRoot<W>(f: Fst<W>, zero: W, st: Search, s: nat, x: nat)
    requires Inv(f, zero, st) && CanFinish(f, st) && s == Top(st) && IsRoot(st, s) && Member(st, s, x)
    ensures Reaches(f, x, s)
  {
    hide Inv, IsRoot, MembersAndClosed, Reaches;
    RootIsClosed(f, zero, st, s);
    var g := OpenLeadsBack(f, zero, st, x);
    ReachesStaysInside(f, MembersAndClosed(f, st, s), x, g);
    GreyInsideIsTop(f, zero, st, s, g);
  }

  lemma RootReachesMember<W>(f: Fst<W>, zero: W, st: Search, s: nat, x: nat)
    requires Inv(f, zero, st) && st.grey != [] && s == Top(st) && Member(st, s, x)
    ensures Reaches(f, s, x)
  {
    hide LeadsBack, LowReached, LowCovers, ExploredKnown, ExploredEarlier, CoaccessSound, CoaccessComplete, Finished, Cursors;
    assert s in st.grey;
  }

  lemma MembersConnected<W>(f: Fst<W>, zero: W, st: Search, s: nat)
    requires Inv(f, zero, st) && CanFinish(f, st) && s == Top(st) && IsRoot(st, s)
    ensures forall x: nat, y: nat :: Member(st, s, x) && Member(st, s, y) ==> Reaches(f, x, y)
  {
    assert st.grey != [];
    hide Inv, Reaches, CanFinish, IsRoot, Member;
    forall x: nat, y: nat | Member(st, s, x) && Member(st, s, y) ensures Reaches(f, x, y) {
      MemberReachesRoot(f, zero, st, s, x);
      RootReachesMember(f, zero, st, s, y);
      ReachesTransitive(f, x, s, y);
    }
  }

  /** Which components are numbered after the step, and how. */
  lemma FinishKeepsFinished<W>(f: Fst<W>, st: Search, st': Search, s: nat, final: bool)
    requires Finished(f, st) && Open(st, s) && FinishEffect(st, st', s, final)
    requires IsRoot(st, s) ==>
               && (forall x: nat, i: nat :: Member(st, s, x) && i < OutDegree(f, x) ==>
                     IsSettled(st, Target(f, x, i)) || Member(st, s, Target(f, x, i)))
               && (forall x: nat, y: nat :: Member(st, s, x) && Member(st, s, y) ==> Reaches(f, x, y))
    requires forall x: nat :: Open(st, x) ==> Col(st, x) != White
    ensures Finished(f, st')
  {
    hide Col, Cur, Num, Low, Comp, Coacc, Open, SeesFinal, Reaches, IsRoot;
    assert forall x: nat :: IsSettled(st', x) <==> IsSettled(st, x) || (IsRoot(st, s) && Member(st, s, x));
  }

  lemma FinishKeepsCoaccessSound<W>(f: Fst<W>, zero: W, st: Search, st': Search, s: nat, final: bool)
    requires CoaccessSound(f, zero, st) && FinishEffect(st, st', s, final) && Col(st, s) != White
    requires final ==> Coaccessible(f, zero, s)
    requires IsRoot(st, s) ==> forall x: nat, y: nat :: Member(st, s, x) && Member(st, s, y) ==> Reaches(f, x, y)
    requires forall x: nat :: IsParent(st, x) ==> Reaches(f, x, s) && Col(st, x) != White
    requires forall x: nat :: Member(st, s, x) ==> Col(st, x) != White
    requires Member(st, s, s)
    ensures CoaccessSound(f, zero, st')
  {
    hide Cur, Num, Low, Comp, Coacc, Open, Reaches, IsRoot, IsParent, Member, Coaccessible, Col;
    if SeesFinal(st, s, final) {
      if !Coacc(st, s) && !final {
        var t: nat :| Member(st, s, t) && Coacc(st, t);
        CoaccessibleBack(f, zero, s, t);
      }
      assert Coaccessible(f, zero, s);
      forall x: nat | (IsRoot(st, s) && Member(st, s, x)) || IsParent(st, x) ensures Coaccessible(f, zero, x) {
        CoaccessibleBack(f, zero, x, s);
      }
    }
  }

  lemma ClosedStaysUnseen<W>(f: Fst<W>, zero: W, st: Search, y: nat)
    requires f.Valid() && CoaccessSound(f, zero, st) && CoaccessComplete(f, zero, st)
    requires IsSettled(st, y) && !Coacc(st, y) && y < |f.arcs|
    ensures !IsFinal(f, zero, y)
    ensures forall i: nat :: i < OutDegree(f, y) ==> !Coacc(st, Target(f, y, i))
  {
    hide Col, Coacc, Reaches;
    assert !Coaccessible(f, zero, y);
    ReachesSelf(f, y);
    forall i: nat | i < OutDegree(f, y) ensures !Coacc(st, Target(f, y, i)) {
      if Coacc(st, Target(f, y, i)) {
        ReachesArc(f, y, i);
        CoaccessibleBack(f, zero, y, Target(f, y, i));
      }
    }
  }

  lemma MemberStaysUnseen<W>(f: Fst<W>, zero: W, st: Search, s: nat, y: nat)
    requires CoaccessComplete(f, zero, st) && IsRoot(st, s) && Member(st, s, y)
    requires y != s ==> Col(st, y) == Black
    requires !SeesFinal(st, s, IsFinal(f, zero, s))
    requires forall i: nat :: i < OutDegree(f, y) ==>
               Explored(st, y, i) && (IsSettled(st, Target(f, y, i)) || Member(st, s, Target(f, y, i)))
    ensures !Coacc(st, y) && !IsFinal(f, zero, y)
    ensures forall i: nat :: i < OutDegree(f, y) ==> !Coacc(st, Target(f, y, i))
  {
    hide Col, Num, Cur;
    assert !Coacc(st, y);
  }

  /** A component that sees no final state from the inside has none to reach. */
  lemma UnseenIsNotCoaccessible<W>(f: Fst<W>, zero: W, st: Search, s: nat, x: nat)
    requires f.Valid() && Finished(f, st) && CoaccessSound(f, zero, st) && CoaccessComplete(f, zero, st)
    requires IsRoot(st, s) && Member(st, s, x) && x < |f.arcs|
    requires forall y: nat :: Member(st, s, y) && y != s ==> Col(st, y) == Black
    requires !SeesFinal(st, s, IsFinal(f, zero, s))
    requires forall y: nat, i: nat :: Member(st, s, y) && i < OutDegree(f, y) ==>
               Explored(st, y, i) && (IsSettled(st, Target(f, y, i)) || Member(st, s, Target(f, y, i)))
    ensures !Coaccessible(f, zero, x)
  {
    hide Num, Low, Comp, Coacc, Reaches, IsRoot, Col, Cur;
    var unseen := set y: nat | y < |f.arcs| && (Member(st, s, y) || IsSettled(st, y)) && !Coacc(st, y);
    forall y: nat | y in unseen
      ensures !IsFinal(f, zero, y) && forall i: nat :: i < OutDegree(f, y) ==> Target(f, y, i) in unseen
    {
      if Member(st, s, y) {
        MemberStaysUnseen(f, zero, st, s, y);
      } else {
        ClosedStaysUnseen(f, zero, st, y);
      }
    }
    MemberStaysUnseen(f, zero, st, s, x);
    if Coaccessible(f, zero, x) {
      var t :| Reaches(f, x, t) && IsFinal(f, zero, t);
      ReachesStaysInside(f, unseen, x, t);
    }
  }

  lemma FinishKeepsCoaccessComplete<W>(f: Fst<W>, zero: W, st: Search, st': Search, s: nat, final: bool)
    requires CoaccessComplete(f, zero, st) && FinishEffect(st, st', s, final) && final == IsFinal(f, zero, s)
    requires IsRoot(st, s) && !SeesFinal(st, s, final) ==> forall x: nat :: Member(st, s, x) ==> !Coaccessible(f, zero, x)
    requires forall x: nat, i: nat :: Explored(st', x, i) ==> Explored(st, x, i) || (IsParent(st, x) && Target(f, x, i) == s)
    // what was explored from below the component stays below it
    requires forall x: nat, i: nat :: Explored(st, x, i) && Open(st, x) && !Member(st, s, x) ==> !Member(st, s, Target(f, x, i))
    requires Col(st, s) != White && Open(st, s)
    requires forall x: nat :: Open(st, x) ==> Col(st, x) != White
    requires forall x: nat :: IsParent(st, x) ==> Open(st, x)
    ensures CoaccessComplete(f, zero, st')
  {
    hide Col, Cur, Num, Low, Comp, Coacc, Open, Reaches, IsRoot, IsParent, Coaccessible, Explored, SeesFinal, IsFinal;
    assert forall x: nat :: IsSettled(st', x) <==> IsSettled(st, x) || (IsRoot(st, s) && Member(st, s, x));
    forall x: nat | IsSettled(st', x) && Coaccessible(f, zero, x) ensures Coacc(st', x) {}
    forall x: nat, i: nat | Open(st', x) && Explored(st', x, i) && IsSettled(st', Target(f, x, i)) && Coacc(st', Target(f, x, i))
      ensures Coacc(st', x)
    {
      ArcStaysSeen(f, zero, st, st', s, final, x, i);
    }
  }

  lemma ArcStaysSeen<W>(f: Fst<W>, zero: W, st: Search, st': Search, s: nat, final: bool, x: nat, i: nat)
    requires CoaccessComplete(f, zero, st) && FinishEffect(st, st', s, final)
    requires Explored(st', x, i) ==> Explored(st, x, i) || (IsParent(st, x) && Target(f, x, i) == s)
    requires Explored(st, x, i) && Open(st, x) && !Member(st, s, x) ==> !Member(st, s, Target(f, x, i))
    requires Open(st', x) && Explored(st', x, i) && IsSettled(st', Target(f, x, i)) && Coacc(st', Target(f, x, i))
    requires Open(st, s) && (forall y: nat :: IsParent(st, y) ==> Open(st, y))
    ensures Coacc(st', x)
  {
    hide Col, Cur, Num, Low, Comp, Coacc, Open, IsParent, Explored;
    assert IsSettled(st', Target(f, x, i)) ==>
        IsSettled(st, Target(f, x, i)) || Target(f, x, i) == s || (IsRoot(st, s) && Member(st, s, Target(f, x, i)));
  }

  // The parts put together.

  lemma FinishKeepsOrder<W>(f: Fst<W>, zero: W, st: Search, st': Search, s: nat, final: bool)
    requires Inv(f, zero, st) && CanFinish(f, st) && FinishEffect(st, st', s, final)
    ensures Numbered(st') && Stacks(st') && Cursors(f, st') && ExploredKnown(f, st') && ExploredEarlier(f, st')
    ensures LowCovers(f, st')
  {
    hide LeadsBack, LeadsDown, Finished, CoaccessSound, CoaccessComplete, SeesFinal, Num, Low, Cur, Col, Comp, Coacc;
    FinishKeepsStacks(f, st, st', s, final);
    FinishKeepsCursors(f, st, st', s, final);
    FinishKeepsExplored(f, st, st', s, final);
    FinishKeepsLowCovers(f, st, st', s, final);
  }

  lemma FinishKeepsLeads<W>(f: Fst<W>, zero: W, st: Search, st': Search, s: nat, final: bool)
    requires Inv(f, zero, st) && CanFinish(f, st) && FinishEffect(st, st', s, final)
    ensures LeadsDown(f, st') && LowReached(f, st')
  {
    hide LeadsBack, LowCovers, ExploredKnown, ExploredEarlier, Finished, CoaccessSound, CoaccessComplete, SeesFinal, Num, Low, Cur, Comp, Coacc;
    FinishKeepsLeadsDown(f, st, st', s, final);
    FinishKeepsLowReached(f, st, st', s, final);
  }

  lemma FinishKeepsBack<W>(f: Fst<W>, zero: W, st: Search, st': Search, s: nat, final: bool)
    requires Inv(f, zero, st) && CanFinish(f, st) && FinishEffect(st, st', s, final)
    ensures LeadsBack(f, st')
  {
    GreyPop(st);
    if IsRoot(st, s) {
      hide Stacks, LowReached, LowCovers, LeadsDown, ExploredKnown, ExploredEarlier, Cursors, Finished, CoaccessSound, CoaccessComplete, SeesFinal;
      LeadsBackAfterRoot(f, st, st', s, final);
    } else {
      var h := InnerHasParent(f, st, s);
      hide Stacks, LowReached, LowCovers, LeadsDown, ExploredKnown, ExploredEarlier, Cursors, Finished, CoaccessSound, CoaccessComplete, SeesFinal;
      LeadsBackAfterInner(f, st, st', s, final, h);
    }
  }

  lemma TopIsOpen<W>(f: Fst<W>, zero: W, st: Search)
    requires Inv(f, zero, st) && st.grey != []
    ensures Open(st, Top(st)) && Top(st) < |f.arcs| && Col(st, Top(st)) == Grey
    ensures forall x: nat :: Open(st, x) ==> Col(st, x) != White && x < |f.arcs|
    ensures forall x: nat :: IsParent(st, x) ==> Open(st, x) && Col(st, x) != White
    ensures forall x: nat :: Member(st, Top(st), x) && x != Top(st) ==> Col(st, x) == Black
  {
    hide LeadsBack, LeadsDown, LowReached, LowCovers, ExploredKnown, ExploredEarlier, Finished, CoaccessSound, CoaccessComplete, Num;
    assert Top(st) in st.grey;
    forall x: nat | Member(st, Top(st), x) && Col(st, x) == Grey ensures x == Top(st) {
      GreyMemberIsTop(st, Top(st), x);
    }
  }

  lemma FinishKeepsComponents<W>(f: Fst<W>, zero: W, st: Search, st': Search, s: nat, final: bool)
    requires Inv(f, zero, st) && CanFinish(f, st) && FinishEffect(st, st', s, final)
    ensures Finished(f, st')
  {
    TopIsOpen(f, zero, st);
    if IsRoot(st, s) {
      MembersClosed(f, st, s);
      MembersConnected(f, zero, st, s);
    }
    hide LeadsBack, LeadsDown, LowReached, LowCovers, ExploredKnown, ExploredEarlier, CoaccessSound, CoaccessComplete, Stacks, Cursors;
    FinishKeepsFinished(f, st, st', s, final);
  }

  lemma FinishKeepsSound<W>(f: Fst<W>, zero: W, st: Search, st': Search, s: nat)
    requires Inv(f, zero, st) && CanFinish(f, st) && FinishEffect(st, st', s, IsFinal(f, zero, s))
    ensures CoaccessSound(f, zero, st')
  {
    TopIsOpen(f, zero, st);
    ReachesSelf(f, s);
    if |st.grey| > 1 {
      var p := Parent(st);
      ReachesArc(f, p, Cur(st, p));
    }
    if IsRoot(st, s) { MembersConnected(f, zero, st, s); }
    hide LeadsBack, LeadsDown, LowReached, LowCovers, ExploredKnown, ExploredEarlier, CoaccessComplete, Finished, Stacks, Cursors, Reaches;
    FinishKeepsCoaccessSound(f, zero, st, st', s, IsFinal(f, zero, s));
  }

  lemma NothingSeen<W>(f: Fst<W>, zero: W, st: Search, s: nat)
    requires Inv(f, zero, st) && CanFinish(f, st) && s == Top(st)
    requires IsRoot(st, s) && !SeesFinal(st, s, IsFinal(f, zero, s))
    ensures forall x: nat :: Member(st, s, x) ==> !Coaccessible(f, zero, x)
  {
    TopIsOpen(f, zero, st);
    MembersClosed(f, st, s);
    hide LeadsBack, LeadsDown, LowReached, LowCovers, ExploredKnown, ExploredEarlier, Stacks, Cursors, SeesFinal, IsRoot, Coaccessible;
    forall x: nat | Member(st, s, x) ensures !Coaccessible(f, zero, x) {
      UnseenIsNotCoaccessible(f, zero, st, s, x);
    }
  }

  lemma ExploredBelow<W>(f: Fst<W>, zero: W, st: Search, s: nat)
    requires Inv(f, zero, st) && st.grey != [] && s == Top(st)
    ensures forall x: nat, i: nat :: Explored(st, x, i) && Open(st, x) && !Member(st, s, x) ==> !Member(st, s, Target(f, x, i))
  {
    hide Numbered, Cursors, LeadsBack, LeadsDown, LowReached, LowCovers, ExploredKnown, Finished, CoaccessSound, CoaccessComplete;
    assert s in st.grey;
  }

  lemma NewlyExplored<W>(f: Fst<W>, zero: W, st: Search, st': Search, s: nat, final: bool)
    requires Inv(f, zero, st) && CanFinish(f, st) && FinishEffect(st, st', s, final)
    ensures forall x: nat, i: nat :: Explored(st', x, i) ==> Explored(st, x, i) || (IsParent(st, x) && Target(f, x, i) == s)
  {
    hide Stacks, Numbered, LeadsBack, LeadsDown, LowReached, LowCovers, ExploredKnown, ExploredEarlier, Finished, CoaccessSound, CoaccessComplete, SeesFinal, Shape;
  }

  lemma FinishKeepsComplete<W>(f: Fst<W>, zero: W, st: Search, st': Search, s: nat)
    requires Inv(f, zero, st) && CanFinish(f, st) && FinishEffect(st, st', s, IsFinal(f, zero, s))
    ensures CoaccessComplete(f, zero, st')
  {
    if IsRoot(st, s) && !SeesFinal(st, s, IsFinal(f, zero, s)) { NothingSeen(f, zero, st, s); }
    TopIsOpen(f, zero, st);
    ExploredBelow(f, zero, st, s);
    NewlyExplored(f, zero, st, st', s, IsFinal(f, zero, s));
    assert CoaccessComplete(f, zero, st);
    hide Inv, SeesFinal, Coaccessible, IsFinal, Explored, Member;
    FinishKeepsCoaccessComplete(f, zero, st, st', s, IsFinal(f, zero, s));
  }

  lemma FinishKeepsInv<W>(f: Fst<W>, zero: W, st: Search)
    requires Inv(f, zero, st) && CanFinish(f, st)
    ensures Knows(st.v, Top(st)) && Open(st, Top(st)) && Top(st) < |st.color|
    ensures |st.grey| > 1 ==> Knows(st.v, Parent(st)) && Parent(st) < |st.cur|
    ensures Inv(f, zero, Finish(st, IsFinal(f, zero, Top(st))))
  {
    var s := Top(st);
    var final := IsFinal(f, zero, s);
    FinishHasEffect(f, st, final);
    var st' := Finish(st, final);
    FinishKeepsOrder(f, zero, st, st', s, final);
    FinishKeepsLeads(f, zero, st, st', s, final);
    FinishKeepsBack(f, zero, st, st', s, final);
    FinishKeepsComponents(f, zero, st, st', s, final);
    FinishKeepsSound(f, zero, st, st', s);
    FinishKeepsComplete(f, zero, st, st', s);
    hide LeadsBack, LeadsDown, LowReached, LowCovers, ExploredKnown, ExploredEarlier, Stacks, Cursors, Finished, CoaccessSound, CoaccessComplete, Numbered, Shape;
  }
}