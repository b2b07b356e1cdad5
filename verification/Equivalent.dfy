/** Equivalence of two deterministic acceptors by merging states, after Hopcroft and Karp. */
module Equivalent {
  import opened Fst
  import opened FiniteSets

  const DEAD_STATE: int := 0
  const INVALID_ID: int := -1

  /** The two acceptors, and the weight that means "no". */
  datatype Acceptors<W> = Acceptors(fst1: Fst<W>, fst2: Fst<W>, zero: W) {
    ghost predicate Valid() {
      IsDeterministic(fst1) && IsDeterministic(fst2)
    }
  }

  /** What the checks before the main loop leave: an epsilon-free deterministic acceptor. */
  ghost predicate IsDeterministic<W>(f: Fst<W>) {
    && f.Valid()
    && (forall s, i :: 0 <= s < |f.arcs| && 0 <= i < |f.arcs[s]| ==>
          f.arcs[s][i].ilabel == f.arcs[s][i].olabel && f.arcs[s][i].ilabel != EPSILON)
    && (forall s, i, j :: 0 <= s < |f.arcs| && 0 <= i < j < |f.arcs[s]| ==> f.arcs[s][i].ilabel != f.arcs[s][j].ilabel)
  }

  // ------------------------------------------------------------ mapped states

  /** States of the first acceptor become odd numbers, those of the second even ones, and
      "no state" becomes the dead state. */
  function MapState(s: int, which: int): int {
    if s == NO_STATE_ID then DEAD_STATE else 2 * s + which
  }

  function UnMapState(id: int): int {
    (id - 1) / 2
  }

  predicate IsId<W>(f: Fst<W>, which: int, id: int) {
    id == DEAD_STATE || (id > 0 && (id - which) % 2 == 0 && UnMapState(id) < |f.arcs|)
  }

  predicate IsFinal<W(==)>(f: Fst<W>, zero: W, id: int)
    requires id == DEAD_STATE || 0 <= UnMapState(id) < |f.finals|
  {
    if id == DEAD_STATE then false else f.finals[UnMapState(id)] != zero
  }

  /** Position of the arc labelled 'a' whose weight is not Zero, or -1. */
  ghost function FindArc<W>(arcs: seq<Arc<W>>, zero: W, a: int): (i: int)
    ensures -1 <= i < |arcs|
    ensures i >= 0 ==> arcs[i].ilabel == a && arcs[i].weight != zero
    ensures i == -1 ==> forall k :: 0 <= k < |arcs| ==> arcs[k].ilabel != a || arcs[k].weight == zero
  {
    if arcs == [] then -1
    else
      var n := |arcs| - 1;
      if arcs[n].ilabel == a && arcs[n].weight != zero then n else FindArc(arcs[..n], zero, a)
  }

  /** One step of an acceptor on mapped states. */
  ghost function Step<W>(f: Fst<W>, zero: W, which: int, id: int, a: int): int {
    if id == DEAD_STATE || !(0 <= UnMapState(id) < |f.arcs|) then DEAD_STATE
    else
      var arcs := f.arcs[UnMapState(id)];
      var i := FindArc(arcs, zero, a);
      if i == -1 then DEAD_STATE else MapState(arcs[i].nextstate, which)
  }

  lemma StepIsId<W>(f: Fst<W>, zero: W, which: int, id: int, a: int)
    requires f.Valid() && 1 <= which <= 2
    ensures IsId(f, which, Step(f, zero, which, id, a))
  {
    if id != DEAD_STATE && 0 <= UnMapState(id) < |f.arcs| {
      var arcs := f.arcs[UnMapState(id)];
      var i := FindArc(arcs, zero, a);
      if i >= 0 { UnMapMap(arcs[i].nextstate, which); }
    }
  }

  lemma UnMapMap(s: int, which: int)
    requires s >= 0 && 1 <= which <= 2
    ensures UnMapState(MapState(s, which)) == s && MapState(s, which) > 0 && (MapState(s, which) - which) % 2 == 0
  {
  }

  // ------------------------------------------------------------ languages

  /** 'p' is an accepting path for 'u', through arcs and an end state that are not Zero. */
  ghost predicate AcceptsBy<W>(f: Fst<W>, zero: W, s: nat, u: seq<int>, p: seq<nat>)
    decreases |p|
  {
    && s < |f.arcs| && |p| == |u|
    && (if p == [] then s < |f.finals| && f.finals[s] != zero
        else p[0] < |f.arcs[s]| && f.arcs[s][p[0]].ilabel == u[0] && f.arcs[s][p[0]].weight != zero
             && AcceptsBy(f, zero, f.arcs[s][p[0]].nextstate, u[1..], p[1..]))
  }

  ghost predicate Accepts<W>(f: Fst<W>, zero: W, u: seq<int>) {
    f.start >= 0 && HasPath(f, zero, f.start, u)
  }

  ghost predicate HasPath<W>(f: Fst<W>, zero: W, s: nat, u: seq<int>) {
    exists p :: AcceptsBy(f, zero, s, u, p)
  }

  /** Acceptance computed on mapped states, with the dead state made explicit. */
  ghost predicate AcceptsFrom<W>(f: Fst<W>, zero: W, which: int, id: int, u: seq<int>)
    decreases |u|
  {
    if u == [] then id != DEAD_STATE && 0 <= UnMapState(id) < |f.finals| && f.finals[UnMapState(id)] != zero
    else AcceptsFrom(f, zero, which, Step(f, zero, which, id, u[0]), u[1..])
  }

  lemma {:induction false} DeadAcceptsNothing<W>(f: Fst<W>, zero: W, which: int, u: seq<int>)
    ensures !AcceptsFrom(f, zero, which, DEAD_STATE, u)
    decreases |u|
  {
    if u != [] { DeadAcceptsNothing(f, zero, which, u[1..]); }
  }

  /** The two definitions agree: in a deterministic acceptor the arc for a label is the only one. */
  lemma {:induction false} AcceptsFromIsPath<W>(f: Fst<W>, zero: W, which: int, s: nat, u: seq<int>)
    requires IsDeterministic(f) && 1 <= which <= 2 && s < |f.arcs|
    ensures AcceptsFrom(f, zero, which, MapState(s, which), u) <==> HasPath(f, zero, s, u)
    decreases |u|
  {
    UnMapMap(s, which);
    if u == [] {
      assert AcceptsBy(f, zero, s, u, []) <==> f.finals[s] != zero;
      if p :| AcceptsBy(f, zero, s, u, p) { assert p == []; }
    } else {
      var i := FindArc(f.arcs[s], zero, u[0]);
      if i == -1 {
        DeadAcceptsNothing(f, zero, which, u[1..]);
      } else {
        var t := f.arcs[s][i].nextstate;
        AcceptsFromIsPath(f, zero, which, t, u[1..]);
        if p' :| AcceptsBy(f, zero, t, u[1..], p') {
          assert ([i] + p')[1..] == p';
          assert AcceptsBy(f, zero, s, u, [i] + p');
        }
        if p :| AcceptsBy(f, zero, s, u, p) {
          assert p[0] == i;
          assert AcceptsBy(f, zero, t, u[1..], p[1..]);
        }
      }
    }
  }

  lemma AcceptsIsAcceptsFrom<W>(f: Fst<W>, zero: W, which: int, u: seq<int>)
    requires IsDeterministic(f) && 1 <= which <= 2
    ensures Accepts(f, zero, u) <==> AcceptsFrom(f, zero, which, MapState(f.start, which), u)
  {
    if f.start < 0 {
      DeadAcceptsNothing(f, zero, which, u);
    } else {
      AcceptsFromIsPath(f, zero, which, f.start, u);
    }
  }

  // ------------------------------------------------------------ both acceptors as one

  function Side(id: int): int { if id % 2 == 1 then 1 else 2 }

  function SideFst<W>(c: Acceptors<W>, id: int): Fst<W> { if id % 2 == 1 then c.fst1 else c.fst2 }

  ghost predicate IdOk<W>(c: Acceptors<W>, id: int) { IsId(SideFst(c, id), Side(id), id) }

  ghost function Move<W>(c: Acceptors<W>, id: int, a: int): int {
    Step(SideFst(c, id), c.zero, Side(id), id, a)
  }

  ghost predicate Language<W>(c: Acceptors<W>, id: int, u: seq<int>) {
    AcceptsFrom(SideFst(c, id), c.zero, Side(id), id, u)
  }

  lemma MoveStaysInSide<W>(c: Acceptors<W>, id: int, a: int)
    requires c.Valid() && IdOk(c, id)
    ensures IdOk(c, Move(c, id, a)) && (Move(c, id, a) == DEAD_STATE || Side(Move(c, id, a)) == Side(id))
  {
    StepIsId(SideFst(c, id), c.zero, Side(id), id, a);
  }

  lemma LanguageStep<W>(c: Acceptors<W>, id: int, u: seq<int>)
    requires c.Valid() && IdOk(c, id) && u != []
    ensures Language(c, id, u) <==> Language(c, Move(c, id, u[0]), u[1..])
  {
    MoveStaysInSide(c, id, u[0]);
    if Move(c, id, u[0]) == DEAD_STATE {
      DeadAcceptsNothing(SideFst(c, id), c.zero, Side(id), u[1..]);
      DeadAcceptsNothing(c.fst2, c.zero, 2, u[1..]);
    }
  }

  // ------------------------------------------------------------ partitions

  /** Elements with their representatives; an element that is not listed is its own. */
  type Partition = map<int, int>

  predicate IsPartition(m: Partition) {
    forall x :: x in m ==> m[x] in m && m[m[x]] == m[x]
  }

  function Rep(m: Partition, x: int): int { if x in m then m[x] else x }

  /** The partition in which the sets of 'x' and 'y' are one. */
  function Join(m: Partition, x: int, y: int): Partition {
    var m1 := m[x := Rep(m, x)][y := Rep(m[x := Rep(m, x)], y)];
    var r1, r2 := m1[x], m1[y];
    map z | z in m1 :: if m1[z] == r1 then r2 else m1[z]
  }

  lemma JoinEffect(m: Partition, x: int, y: int)
    requires IsPartition(m)
    ensures IsPartition(Join(m, x, y))
    ensures forall z :: Rep(Join(m, x, y), z) == if Rep(m, z) == Rep(m, x) then Rep(m, y) else Rep(m, z)
  {
  }

  /** All pairs of a queue merged, front first. */
  function JoinAll(m: Partition, q: seq<(int, int)>): Partition
    decreases |q|
  {
    if q == [] then m else JoinAll(Join(m, q[0].0, q[0].1), q[1..])
  }

  ghost predicate Coarser(m: Partition, m': Partition) {
    forall x, y :: Rep(m, x) == Rep(m, y) ==> Rep(m', x) == Rep(m', y)
  }

  lemma {:induction false} JoinAllEffect(m: Partition, q: seq<(int, int)>)
    requires IsPartition(m)
    ensures IsPartition(JoinAll(m, q)) && Coarser(m, JoinAll(m, q))
    ensures forall i :: 0 <= i < |q| ==> Rep(JoinAll(m, q), q[i].0) == Rep(JoinAll(m, q), q[i].1)
    decreases |q|
  {
    if q != [] {
      var m' := Join(m, q[0].0, q[0].1);
      JoinEffect(m, q[0].0, q[0].1);
      JoinAllEffect(m', q[1..]);
      hide Join, Rep, JoinAll, IsPartition;
      var r := JoinAll(m', q[1..]);
      assert Coarser(m, m');
      assert Rep(m', q[0].0) == Rep(m', q[0].1);
      forall i | 0 <= i < |q| ensures Rep(r, q[i].0) == Rep(r, q[i].1) {
        if i > 0 { assert q[1..][i - 1] == q[i]; }
      }
      JoinAllFront(m, q);
    }
  }

  lemma JoinAllFront(m: Partition, q: seq<(int, int)>)
    requires q != []
    ensures JoinAll(m, q) == JoinAll(Join(m, q[0].0, q[0].1), q[1..])
  {
  }

  lemma {:induction false} JoinAllConcat(m: Partition, q: seq<(int, int)>, q': seq<(int, int)>)
    ensures JoinAll(m, q + q') == JoinAll(JoinAll(m, q), q')
    decreases |q|
  {
    if q == [] {
      assert q + q' == q';
    } else {
      assert (q + q')[1..] == q[1..] + q';
      JoinAllConcat(Join(m, q[0].0, q[0].1), q[1..], q');
    }
  }

  // ------------------------------------------------------------ the invariant

  /** The sets respect finality, and moving from two elements of a set leads to one set,
      once the pairs that still wait have been merged. */
  ghost predicate Congruent<W>(c: Acceptors<W>, m: Partition, q: seq<(int, int)>) {
    && IsPartition(m)
    && (forall x :: Language(c, x, []) <==> Language(c, Rep(m, x), []))
    && (forall x, a :: Rep(JoinAll(m, q), Move(c, x, a)) == Rep(JoinAll(m, q), Move(c, Rep(m, x), a)))
  }

  /** Both states are where some string leads from the two starts. */
  ghost predicate Together<W>(c: Acceptors<W>, u: seq<int>, x: int, y: int) {
    x == Run(c, MapState(c.fst1.start, 1), u) && y == Run(c, MapState(c.fst2.start, 2), u)
  }

  ghost function Run<W>(c: Acceptors<W>, id: int, u: seq<int>): int {
    if u == [] then id else Move(c, Run(c, id, u[..|u| - 1]), u[|u| - 1])
  }

  ghost predicate Waiting<W>(c: Acceptors<W>, pair: (int, int)) {
    && IdOk(c, pair.0) && IdOk(c, pair.1)
    && (pair.0 == DEAD_STATE || Side(pair.0) == 1) && (pair.1 == DEAD_STATE || Side(pair.1) == 2)
    && (Language(c, pair.0, []) <==> Language(c, pair.1, []))
    && exists u :: Together(c, u, pair.0, pair.1)
  }

  /** When nothing waits, the partition relates states with the same language. */
  lemma {:induction false} CongruentHasSameLanguage<W>(c: Acceptors<W>, m: Partition, x: int, y: int, u: seq<int>)
    requires c.Valid() && Congruent(c, m, []) && Rep(m, x) == Rep(m, y) && IdOk(c, x) && IdOk(c, y)
    ensures Language(c, x, u) <==> Language(c, y, u)
    decreases |u|
  {
    if u != [] {
      LanguageStep(c, x, u);
      LanguageStep(c, y, u);
      MoveStaysInSide(c, x, u[0]);
      MoveStaysInSide(c, y, u[0]);
      var a := u[0];
      assert JoinAll(m, []) == m;
      assert Rep(m, Move(c, x, a)) == Rep(m, Move(c, Rep(m, x), a));
      assert Rep(m, Move(c, y, a)) == Rep(m, Move(c, Rep(m, y), a));
      CongruentHasSameLanguage(c, m, Move(c, x, a), Move(c, y, a), u[1..]);
    }
  }

  /** Merging the two states of the front pair and queueing what they move to keeps the congruence. */
  lemma MergeKeepsCongruent<W>(c: Acceptors<W>, m: Partition, x: int, y: int, q: seq<(int, int)>, added: seq<(int, int)>)
    requires Congruent(c, m, [(x, y)] + q)
    requires Language(c, x, []) <==> Language(c, y, [])
    requires forall a :: Move(c, x, a) == Move(c, y, a) || (Move(c, x, a), Move(c, y, a)) in added
    ensures Congruent(c, Join(m, x, y), q + added)
  {
    var m' := Join(m, x, y);
    JoinEffect(m, x, y);
    assert ([(x, y)] + q)[1..] == q;
    var w := JoinAll(m', q);
    assert w == JoinAll(m, [(x, y)] + q);
    JoinAllConcat(m', q, added);
    JoinAllEffect(m', q);
    JoinAllEffect(w, added);
    var w' := JoinAll(w, added);
    hide Join, JoinAll, Rep, Move, Language, IsPartition;
    forall z, a ensures Rep(w', Move(c, z, a)) == Rep(w', Move(c, Rep(m', z), a)) {
      assert Rep(w, Move(c, z, a)) == Rep(w, Move(c, Rep(m, z), a));
      assert Rep(w, Move(c, x, a)) == Rep(w, Move(c, Rep(m, x), a));
      assert Rep(w, Move(c, y, a)) == Rep(w, Move(c, Rep(m, y), a));
      assert Move(c, x, a) == Move(c, y, a) || (Move(c, x, a), Move(c, y, a)) in added;
      assert Rep(w', Move(c, x, a)) == Rep(w', Move(c, y, a));
    }
  }

  /** Dropping a pair that is in one set already changes nothing. */
  lemma SkipKeepsCongruent<W>(c: Acceptors<W>, m: Partition, x: int, y: int, q: seq<(int, int)>)
    requires Congruent(c, m, [(x, y)] + q) && Rep(m, x) == Rep(m, y)
    ensures Congruent(c, Join(m, x, y), q)
  {
    JoinEffect(m, x, y);
    assert ([(x, y)] + q)[1..] == q;
  }

  ghost predicate SameReps(m: Partition, m': Partition) {
    forall z :: Rep(m, z) == Rep(m', z)
  }

  lemma {:induction false} JoinAllSameReps(m: Partition, m': Partition, q: seq<(int, int)>)
    requires IsPartition(m) && IsPartition(m') && SameReps(m, m')
    ensures SameReps(JoinAll(m, q), JoinAll(m', q))
    decreases |q|
  {
    if q != [] {
      JoinEffect(m, q[0].0, q[0].1);
      JoinEffect(m', q[0].0, q[0].1);
      JoinAllSameReps(Join(m, q[0].0, q[0].1), Join(m', q[0].0, q[0].1), q[1..]);
    }
  }

  lemma CongruentSameReps<W>(c: Acceptors<W>, m: Partition, m': Partition, q: seq<(int, int)>)
    requires Congruent(c, m, q) && IsPartition(m') && SameReps(m, m')
    ensures Congruent(c, m', q)
  {
    JoinAllSameReps(m, m', q);
    hide JoinAll, Rep, IsPartition, Move, Language;
  }

  /** Disjoint sets of numbers. FindSet answers INVALID_ID for a number without a set. */
  class UnionFind {
    var repr: Partition

    constructor ()
      ensures repr == map[]
    {
      repr := map[];
    }

    function FindSet(item: int): int
      reads this
    {
      if item in repr then repr[item] else INVALID_ID
    }

    method MakeSet(item: int)
      requires IsPartition(repr) && (item in repr ==> repr[item] == item)
      modifies this
      ensures IsPartition(repr) && SameReps(old(repr), repr) && repr == old(repr)[item := item]
    {
      repr := repr[item := item];
    }

    method Union(x: int, y: int)
      requires IsPartition(repr) && x in repr && y in repr
      modifies this
      ensures IsPartition(repr) && SameReps(Join(old(repr), x, y), repr) && repr.Keys == old(repr.Keys)
    {
      var rx, ry := FindSet(x), FindSet(y);
      JoinEffect(repr, x, y);
      if rx != ry {
        repr := map z | z in repr :: if repr[z] == rx then ry else repr[z];
      }
    }
  }

  /** All numbers with a set are below 'n'. */
  predicate InBounds(m: Partition, n: nat) {
    forall x :: x in m ==> 0 <= x < n
  }

  lemma InBoundsUpdate(m: Partition, n: nat, x: int)
    requires InBounds(m, n) && 0 <= x < n
    ensures InBounds(m[x := x], n)
  {
  }

  /** The representative of a number, which gets a set of its own if it has none. */
  method FindOrMakeSet(sets: UnionFind, id: int, ghost n: nat) returns (r: int)
    requires IsPartition(sets.repr) && InBounds(sets.repr, n) && 0 <= id < n
    modifies sets
    ensures IsPartition(sets.repr) && SameReps(old(sets.repr), sets.repr) && InBounds(sets.repr, n)
    ensures sets.repr.Keys == old(sets.repr.Keys) + {id}
    ensures r == Rep(sets.repr, id) && r in sets.repr
  {
    r := sets.FindSet(id);
    if r == INVALID_ID {
      sets.MakeSet(id);
      r := id;
    }
  }

  // ------------------------------------------------------------ the arcs of a pair of states

  type ArcPairs = map<int, (int, int)>

  /** What arc_pairs holds once the first 'n' arcs of a state have been copied into one component. */
  ghost predicate Copied<W>(arcs: seq<Arc<W>>, n: nat, zero: W, a: int) {
    exists i :: 0 <= i < n && i < |arcs| && arcs[i].ilabel == a && arcs[i].weight != zero
  }

  /** The arcs leaving a mapped state; the dead state has none. */
  function ArcsOf<W>(f: Fst<W>, id: int): seq<Arc<W>> {
    if id == DEAD_STATE || !(0 <= UnMapState(id) < |f.arcs|) then [] else f.arcs[UnMapState(id)]
  }

  lemma StepOnArc<W>(f: Fst<W>, zero: W, which: int, id: int, i: nat)
    requires IsDeterministic(f) && i < |ArcsOf(f, id)| && ArcsOf(f, id)[i].weight != zero
    ensures var arc := ArcsOf(f, id)[i]; Step(f, zero, which, id, arc.ilabel) == MapState(arc.nextstate, which)
  {
    var arcs := ArcsOf(f, id);
    var j := FindArc(arcs, zero, arcs[i].ilabel);
    assert j == i;
  }

  lemma StepWithoutArc<W>(f: Fst<W>, zero: W, which: int, id: int, a: int)
    requires !Copied(ArcsOf(f, id), |ArcsOf(f, id)|, zero, a)
    ensures Step(f, zero, which, id, a) == DEAD_STATE
  {
  }

  /** Copies the outgoing arcs of both states into the table: label to pair of target states. */
  method CollectArcPairs<W(==)>(c: Acceptors<W>, s1: int, s2: int) returns (pairs: ArcPairs)
    requires c.Valid() && IsId(c.fst1, 1, s1) && IsId(c.fst2, 2, s2)
    ensures forall a :: a in pairs ==> pairs[a] == (Step(c.fst1, c.zero, 1, s1, a), Step(c.fst2, c.zero, 2, s2, a))
    ensures forall a :: a !in pairs ==> Step(c.fst1, c.zero, 1, s1, a) == Step(c.fst2, c.zero, 2, s2, a) == DEAD_STATE
  {
    hide Step, FindArc, IsDeterministic, Copied, MapState;
    pairs := map[];
    var arcs1, arcs2 := ArcsOf(c.fst1, s1), ArcsOf(c.fst2, s2);
    NothingCopied(arcs1, c.zero);
    NothingCopied(arcs2, c.zero);
    var i := 0;
    while i < |arcs1|
      invariant 0 <= i <= |arcs1|
      invariant forall a :: a in pairs <==> Copied(arcs1, i, c.zero, a)
      invariant forall a :: a in pairs ==> pairs[a] == (Step(c.fst1, c.zero, 1, s1, a), DEAD_STATE)
    {
      var arc := arcs1[i];
      if arc.weight != c.zero {
        StepOnArc(c.fst1, c.zero, 1, s1, i);
        var old2 := if arc.ilabel in pairs then pairs[arc.ilabel].1 else DEAD_STATE;
        pairs := pairs[arc.ilabel := (MapState(arc.nextstate, 1), old2)];
      }
      CopiedNext(arcs1, i, c.zero);
      i := i + 1;
    }
    forall a | a !in pairs ensures Step(c.fst1, c.zero, 1, s1, a) == DEAD_STATE { StepWithoutArc(c.fst1, c.zero, 1, s1, a); }
    i := 0;
    while i < |arcs2|
      invariant 0 <= i <= |arcs2|
      invariant forall a :: a in pairs <==> Copied(arcs1, |arcs1|, c.zero, a) || Copied(arcs2, i, c.zero, a)
      invariant forall a :: a in pairs ==> pairs[a] == (Step(c.fst1, c.zero, 1, s1, a),
                  if Copied(arcs2, i, c.zero, a) then Step(c.fst2, c.zero, 2, s2, a) else DEAD_STATE)
      invariant forall a :: a !in pairs ==> Step(c.fst1, c.zero, 1, s1, a) == DEAD_STATE
    {
      var arc := arcs2[i];
      if arc.weight != c.zero {
        StepOnArc(c.fst2, c.zero, 2, s2, i);
        var old1 := if arc.ilabel in pairs then pairs[arc.ilabel].0 else DEAD_STATE;
        pairs := pairs[arc.ilabel := (old1, MapState(arc.nextstate, 2))];
      }
      CopiedNext(arcs2, i, c.zero);
      i := i + 1;
    }
    forall a | !Copied(arcs2, |arcs2|, c.zero, a) ensures Step(c.fst2, c.zero, 2, s2, a) == DEAD_STATE {
      StepWithoutArc(c.fst2, c.zero, 2, s2, a);
    }
  }

  lemma NothingCopied<W>(arcs: seq<Arc<W>>, zero: W)
    ensures forall a :: !Copied(arcs, 0, zero, a)
  {
  }

  lemma CopiedNext<W>(arcs: seq<Arc<W>>, i: nat, zero: W)
    requires i < |arcs|
    ensures forall a :: Copied(arcs, i + 1, zero, a) <==> Copied(arcs, i, zero, a) || (arcs[i].ilabel == a && arcs[i].weight != zero)
  {
  }

  // ------------------------------------------------------------ strings that lead to a pair

  function Start1<W>(c: Acceptors<W>): int { MapState(c.fst1.start, 1) }

  function Start2<W>(c: Acceptors<W>): int { MapState(c.fst2.start, 2) }

  lemma StartIsOk<W>(c: Acceptors<W>)
    requires c.Valid()
    ensures IdOk(c, Start1(c)) && IdOk(c, Start2(c))
    ensures Start1(c) == DEAD_STATE || Side(Start1(c)) == 1
    ensures Start2(c) == DEAD_STATE || Side(Start2(c)) == 2
  {
  }

  lemma StartLanguage<W>(c: Acceptors<W>, u: seq<int>)
    requires c.Valid()
    ensures Accepts(c.fst1, c.zero, u) <==> Language(c, Start1(c), u)
    ensures Accepts(c.fst2, c.zero, u) <==> Language(c, Start2(c), u)
  {
    StartLanguage1(c, u);
    StartLanguage2(c, u);
  }

  lemma StartLanguage1<W>(c: Acceptors<W>, u: seq<int>)
    requires c.Valid()
    ensures Accepts(c.fst1, c.zero, u) <==> Language(c, Start1(c), u)
  {
    AcceptsIsAcceptsFrom(c.fst1, c.zero, 1, u);
    DeadAcceptsNothing(c.fst1, c.zero, 1, u);
    DeadAcceptsNothing(c.fst2, c.zero, 2, u);
  }

  lemma StartLanguage2<W>(c: Acceptors<W>, u: seq<int>)
    requires c.Valid()
    ensures Accepts(c.fst2, c.zero, u) <==> Language(c, Start2(c), u)
  {
    AcceptsIsAcceptsFrom(c.fst2, c.zero, 2, u);
    DeadAcceptsNothing(c.fst1, c.zero, 1, u);
    DeadAcceptsNothing(c.fst2, c.zero, 2, u);
  }

  /** What a string leads to accepts the rest of the string. */
  lemma {:induction false} RunLanguage<W>(c: Acceptors<W>, id: int, u: seq<int>, v: seq<int>)
    requires c.Valid() && IdOk(c, id)
    ensures IdOk(c, Run(c, id, u))
    ensures Run(c, id, u) == DEAD_STATE || Side(Run(c, id, u)) == Side(id)
    ensures Language(c, id, u + v) <==> Language(c, Run(c, id, u), v)
    decreases |u|
  {
    if u == [] {
      assert u + v == v;
    } else {
      var w, a := u[..|u| - 1], u[|u| - 1];
      RunLanguage(c, id, w, [a] + v);
      assert u + v == w + ([a] + v);
      assert ([a] + v)[1..] == v;
      MoveStaysInSide(c, Run(c, id, w), a);
      LanguageStep(c, Run(c, id, w), [a] + v);
    }
  }

  /** A pair that disagrees about finality shows a string only one of the acceptors accepts. */
  lemma MismatchDistinguishes<W>(c: Acceptors<W>, u: seq<int>, x: int, y: int)
    requires c.Valid() && Together(c, u, x, y)
    requires !(Language(c, x, []) <==> Language(c, y, []))
    ensures !(Accepts(c.fst1, c.zero, u) <==> Accepts(c.fst2, c.zero, u))
  {
    StartIsOk(c);
    StartLanguage(c, u);
    RunLanguage(c, Start1(c), u, []);
    RunLanguage(c, Start2(c), u, []);
    assert u + [] == u;
  }

  lemma TogetherStep<W>(c: Acceptors<W>, x: int, y: int, a: int)
    requires exists u :: Together(c, u, x, y)
    ensures exists u :: Together(c, u, Move(c, x, a), Move(c, y, a))
  {
    var u :| Together(c, u, x, y);
    assert (u + [a])[..|u|] == u;
    assert Together(c, u + [a], Move(c, x, a), Move(c, y, a));
  }

  ghost predicate SameLanguage<W>(c: Acceptors<W>) {
    forall u :: Accepts(c.fst1, c.zero, u) <==> Accepts(c.fst2, c.zero, u)
  }

  // ------------------------------------------------------------ the main loop

  /** Merging what waits would put the two starts in one congruent set. */
  ghost predicate LoopInv<W>(c: Acceptors<W>, m: Partition, q: seq<(int, int)>) {
    && Congruent(c, m, q)
    && (forall i :: 0 <= i < |q| ==> Waiting(c, q[i]))
    && Rep(JoinAll(m, q), Start1(c)) == Rep(JoinAll(m, q), Start2(c))
  }

  lemma LoopInvInitially<W>(c: Acceptors<W>, m: Partition)
    requires c.Valid() && IsPartition(m) && SameReps(map[], m)
    requires Language(c, Start1(c), []) <==> Language(c, Start2(c), [])
    ensures LoopInv(c, m, [(Start1(c), Start2(c))])
  {
    var q := [(Start1(c), Start2(c))];
    StartIsOk(c);
    assert Together(c, [], Start1(c), Start2(c));
    JoinAllEffect(m, q);
    assert forall x :: Rep(m, x) == Rep(map[], x) == x;
    assert q[0].0 == Start1(c) && q[0].1 == Start2(c);
    hide JoinAll, Rep, Move, Language, MapState;
  }

  lemma LoopInvSkip<W>(c: Acceptors<W>, m: Partition, q: seq<(int, int)>)
    requires q != [] && LoopInv(c, m, q) && Rep(m, q[0].0) == Rep(m, q[0].1)
    ensures LoopInv(c, m, q[1..])
  {
    var x, y := q[0].0, q[0].1;
    assert q == [(x, y)] + q[1..];
    SkipKeepsCongruent(c, m, x, y, q[1..]);
    JoinEffect(m, x, y);
    assert SameReps(Join(m, x, y), m);
    CongruentSameReps(c, Join(m, x, y), m, q[1..]);
    JoinAllSameReps(Join(m, x, y), m, q[1..]);
    JoinAllFront(m, q);
    hide JoinAll, Rep, Join, IsPartition, Congruent, Waiting, MapState;
  }

  lemma LoopInvMerge<W>(c: Acceptors<W>, m: Partition, m': Partition, q: seq<(int, int)>, added: seq<(int, int)>)
    requires q != [] && LoopInv(c, m, q)
    requires IsPartition(m') && SameReps(Join(m, q[0].0, q[0].1), m')
    requires forall i :: 0 <= i < |added| ==> Waiting(c, added[i])
    requires forall a :: Move(c, q[0].0, a) == Move(c, q[0].1, a) || (Move(c, q[0].0, a), Move(c, q[0].1, a)) in added
    ensures LoopInv(c, m', q[1..] + added)
  {
    var x, y := q[0].0, q[0].1;
    assert q == [(x, y)] + q[1..];
    assert Waiting(c, q[0]);
    MergeKeepsCongruent(c, m, x, y, q[1..], added);
    JoinEffect(m, x, y);
    CongruentSameReps(c, Join(m, x, y), m', q[1..] + added);
    JoinAllSameReps(Join(m, x, y), m', q[1..] + added);
    JoinAllFront(m, q);
    JoinAllConcat(Join(m, x, y), q[1..], added);
    JoinAllEffect(Join(m, x, y), q[1..]);
    JoinAllEffect(JoinAll(m, q), added);
    hide JoinAll, Rep, Join, IsPartition, Congruent, Waiting, MapState;
  }

  lemma LoopInvFinally<W>(c: Acceptors<W>, m: Partition)
    requires c.Valid() && LoopInv(c, m, [])
    ensures SameLanguage(c)
  {
    StartIsOk(c);
    forall u ensures Accepts(c.fst1, c.zero, u) <==> Accepts(c.fst2, c.zero, u) {
      StartLanguage(c, u);
      CongruentHasSameLanguage(c, m, Start1(c), Start2(c), u);
    }
  }

  /** Numbers below 'n' that represent their sets. */
  function Roots(m: Partition, n: nat): set<int> {
    set z | 0 <= z < n && Rep(m, z) == z
  }

  lemma JoinRemovesRoot(m: Partition, m': Partition, x: int, y: int, n: nat)
    requires IsPartition(m) && SameReps(Join(m, x, y), m')
    requires Rep(m, x) != Rep(m, y) && 0 <= Rep(m, x) < n
    ensures Roots(m', n) < Roots(m, n)
  {
    JoinEffect(m, x, y);
    assert Rep(m', Rep(m, x)) == Rep(m, y);
    assert Rep(m, x) in Roots(m, n) && Rep(m, x) !in Roots(m', n);
    forall z | z in Roots(m', n) ensures z in Roots(m, n) {
      assert Rep(m', z) == z;
    }
  }

  lemma MoveIsStep<W>(c: Acceptors<W>, id: int, a: int)
    ensures id == DEAD_STATE || Side(id) == 1 ==> Move(c, id, a) == Step(c.fst1, c.zero, 1, id, a)
    ensures id == DEAD_STATE || Side(id) == 2 ==> Move(c, id, a) == Step(c.fst2, c.zero, 2, id, a)
  {
  }

  lemma FinalIsLanguage<W>(c: Acceptors<W>, id: int)
    requires c.Valid() && IdOk(c, id)
    ensures id == DEAD_STATE || Side(id) == 1 ==> IsId(c.fst1, 1, id) && (IsFinal(c.fst1, c.zero, id) <==> Language(c, id, []))
    ensures id == DEAD_STATE || Side(id) == 2 ==> IsId(c.fst2, 2, id) && (IsFinal(c.fst2, c.zero, id) <==> Language(c, id, []))
  {
  }

  /** A pair of target states that agree about finality waits its turn. */
  lemma TargetsWait<W>(c: Acceptors<W>, pair: (int, int), a: int)
    requires c.Valid() && Waiting(c, pair)
    requires Language(c, Move(c, pair.0, a), []) <==> Language(c, Move(c, pair.1, a), [])
    ensures Waiting(c, (Move(c, pair.0, a), Move(c, pair.1, a)))
  {
    MoveStaysInSide(c, pair.0, a);
    MoveStaysInSide(c, pair.1, a);
    TogetherStep(c, pair.0, pair.1, a);
    hide Move, Language, Together;
  }

  lemma TargetsDiffer<W>(c: Acceptors<W>, pair: (int, int), a: int)
    requires c.Valid() && Waiting(c, pair)
    requires !(Language(c, Move(c, pair.0, a), []) <==> Language(c, Move(c, pair.1, a), []))
    ensures !SameLanguage(c)
  {
    TogetherStep(c, pair.0, pair.1, a);
    var u :| Together(c, u, Move(c, pair.0, a), Move(c, pair.1, a));
    MismatchDistinguishes(c, u, Move(c, pair.0, a), Move(c, pair.1, a));
  }

  /** The table of arc pairs, in terms of the moves of the two states. */
  ghost predicate IsTable<W>(c: Acceptors<W>, front: (int, int), pairs: ArcPairs) {
    && (forall a :: a in pairs ==> pairs[a] == (Move(c, front.0, a), Move(c, front.1, a)))
    && (forall a :: a !in pairs ==> Move(c, front.0, a) == Move(c, front.1, a))
  }

  /** Queues the pairs of target states, in the table's own order, up to the first that
      disagrees about finality. */
  method PushPairs<W(==)>(c: Acceptors<W>, ghost front: (int, int), pairs: ArcPairs, q: seq<(int, int)>)
    returns (ret: bool, r: seq<(int, int)>, ghost added: seq<(int, int)>)
    requires c.Valid() && Waiting(c, front) && IsTable(c, front, pairs)
    ensures r == q + added && forall i :: 0 <= i < |added| ==> Waiting(c, added[i])
    ensures ret ==> forall a :: Move(c, front.0, a) == Move(c, front.1, a) || (Move(c, front.0, a), Move(c, front.1, a)) in added
    ensures !ret ==> !SameLanguage(c)
  {
    hide Waiting, Language, SameLanguage, Step;
    ret, r, added := true, q, [];
    var todo := pairs.Keys;
    while ret && todo != {}
      invariant todo <= pairs.Keys
      invariant r == q + added && forall i :: 0 <= i < |added| ==> Waiting(c, added[i])
      invariant ret ==> forall a :: a in pairs && a !in todo ==> pairs[a] in added
      invariant !ret ==> !SameLanguage(c)
      decreases todo
    {
      NoneMeansEmpty(todo);
      var a :| a in todo;
      var pair := pairs[a];
      PairIsOk(c, front, a);
      if IsFinal(c.fst1, c.zero, pair.0) != IsFinal(c.fst2, c.zero, pair.1) {
        TargetsDiffer(c, front, a);
        ret := false;
      } else {
        TargetsWait(c, front, a);
        r := r + [pair];
        added := added + [pair];
      }
      todo := todo - {a};
    }
  }

  lemma PairIsOk<W>(c: Acceptors<W>, front: (int, int), a: int)
    requires c.Valid() && Waiting(c, front)
    ensures var x := Move(c, front.0, a);
            IsId(c.fst1, 1, x) && (IsFinal(c.fst1, c.zero, x) <==> Language(c, x, []))
    ensures var y := Move(c, front.1, a);
            IsId(c.fst2, 2, y) && (IsFinal(c.fst2, c.zero, y) <==> Language(c, y, []))
  {
    MoveStaysInSide(c, front.0, a);
    MoveStaysInSide(c, front.1, a);
    FinalIsLanguage(c, Move(c, front.0, a));
    FinalIsLanguage(c, Move(c, front.1, a));
    hide Move, Language, IsFinal;
  }

  lemma TableOfArcPairs<W>(c: Acceptors<W>, front: (int, int), pairs: ArcPairs)
    requires c.Valid() && Waiting(c, front)
    requires forall a :: a in pairs ==> pairs[a] == (Step(c.fst1, c.zero, 1, front.0, a), Step(c.fst2, c.zero, 2, front.1, a))
    requires forall a :: a !in pairs ==> Step(c.fst1, c.zero, 1, front.0, a) == Step(c.fst2, c.zero, 2, front.1, a)
    ensures IsTable(c, front, pairs)
  {
    forall a ensures Move(c, front.0, a) == Step(c.fst1, c.zero, 1, front.0, a) && Move(c, front.1, a) == Step(c.fst2, c.zero, 2, front.1, a) {
      MoveIsStep(c, front.0, a);
      MoveIsStep(c, front.1, a);
    }
    hide Move, Step;
  }

  lemma WaitingIds<W>(c: Acceptors<W>, pair: (int, int))
    requires c.Valid() && Waiting(c, pair)
    ensures IsId(c.fst1, 1, pair.0) && 0 <= pair.0 < IdBound(c)
    ensures IsId(c.fst2, 2, pair.1) && 0 <= pair.1 < IdBound(c)
  {
  }

  function IdBound<W>(c: Acceptors<W>): nat { 2 * |c.fst1.arcs| + 2 * |c.fst2.arcs| + 3 }

  lemma FrontWaits<W>(c: Acceptors<W>, m: Partition, q: seq<(int, int)>)
    requires c.Valid() && q != [] && LoopInv(c, m, q)
    ensures Waiting(c, q[0]) && IsId(c.fst1, 1, q[0].0) && IsId(c.fst2, 2, q[0].1)
    ensures 0 <= q[0].0 < IdBound(c) && 0 <= q[0].1 < IdBound(c)
  {
    WaitingIds(c, q[0]);
  }

  lemma LoopInvSame<W>(c: Acceptors<W>, m: Partition, m': Partition, q: seq<(int, int)>, n: nat)
    requires LoopInv(c, m, q) && IsPartition(m') && SameReps(m, m')
    ensures LoopInv(c, m', q) && Roots(m', n) == Roots(m, n)
  {
    CongruentSameReps(c, m, m', q);
    JoinAllSameReps(m, m', q);
    hide JoinAll, IsPartition, Congruent, Waiting, MapState;
  }

  /** Joining the representatives joins the sets. */
  lemma JoinReps(m: Partition, x: int, y: int, m': Partition)
    requires IsPartition(m) && SameReps(Join(m, Rep(m, x), Rep(m, y)), m')
    ensures SameReps(Join(m, x, y), m')
  {
    JoinEffect(m, x, y);
    JoinEffect(m, Rep(m, x), Rep(m, y));
    hide Join;
  }

  lemma StartsFinal<W>(c: Acceptors<W>)
    requires c.Valid()
    ensures |c.fst1.finals| == |c.fst1.arcs| && |c.fst2.finals| == |c.fst2.arcs|
    ensures var s1 := Start1(c);
            IsId(c.fst1, 1, s1) && 0 <= s1 < IdBound(c) && (IsFinal(c.fst1, c.zero, s1) <==> Language(c, s1, []))
    ensures var s2 := Start2(c);
            IsId(c.fst2, 2, s2) && 0 <= s2 < IdBound(c) && (IsFinal(c.fst2, c.zero, s2) <==> Language(c, s2, []))
  {
    StartIsOk(c);
    FinalIsLanguage(c, Start1(c));
    FinalIsLanguage(c, Start2(c));
  }

  lemma StartsDiffer<W>(c: Acceptors<W>)
    requires c.Valid() && !(Language(c, Start1(c), []) <==> Language(c, Start2(c), []))
    ensures !SameLanguage(c)
  {
    MismatchDistinguishes(c, [], Start1(c), Start2(c));
  }

  /** What the loop does for a front pair that is in two sets. */
  lemma JoinShrinks(m: Partition, x: int, y: int, m': Partition, n: nat)
    requires IsPartition(m) && InBounds(m, n) && Rep(m, x) in m && Rep(m, x) != Rep(m, y)
    requires SameReps(Join(m, Rep(m, x), Rep(m, y)), m')
    ensures SameReps(Join(m, x, y), m') && Roots(m', n) < Roots(m, n)
  {
    hide Roots, Join;
    JoinReps(m, x, y, m');
    JoinRemovesRoot(m, m', x, y, n);
  }

  /** Merges the sets of the pair in front, and queues the pairs of its successors. */
  method MergeFront<W(==)>(c: Acceptors<W>, sets: UnionFind, rep1: int, rep2: int, q: seq<(int, int)>)
    returns (ret: bool, r: seq<(int, int)>)
    requires c.Valid() && q != [] && LoopInv(c, sets.repr, q)
    requires InBounds(sets.repr, IdBound(c)) && rep1 in sets.repr && rep2 in sets.repr
    requires rep1 == Rep(sets.repr, q[0].0) && rep2 == Rep(sets.repr, q[0].1) && rep1 != rep2
    modifies sets
    ensures IsPartition(sets.repr) && InBounds(sets.repr, IdBound(c))
    ensures Roots(sets.repr, IdBound(c)) < Roots(old(sets.repr), IdBound(c))
    ensures |r| > 0
    ensures ret ==> LoopInv(c, sets.repr, r[1..])
    ensures !ret ==> !SameLanguage(c)
  {
    ghost var m := sets.repr;
    var s1, s2 := q[0].0, q[0].1;
    FrontWaits(c, m, q);
    hide Waiting, Language, SameLanguage, Step, IsDeterministic, IsTable, Join, Roots, Move, IdBound, Congruent, JoinAll, SameReps, IsId;
    sets.Union(rep1, rep2);
    JoinShrinks(m, s1, s2, sets.repr, IdBound(c));
    var pairs := CollectArcPairs(c, s1, s2);
    TableOfArcPairs(c, q[0], pairs);
    ghost var added;
    ret, r, added := PushPairs(c, q[0], pairs, q);
    if ret {
      LoopInvMerge(c, m, sets.repr, q, added);
      assert r[1..] == q[1..] + added;
    }
  }

  /** Decides whether two unweighted, epsilon-free, deterministic acceptors accept the same strings. */
  method Equivalent<W(==)>(c: Acceptors<W>) returns (ret: bool)
    requires c.Valid()
    ensures ret <==> SameLanguage(c)
  {
    hide Waiting, Language, SameLanguage, Step, LoopInv, IsDeterministic, IsTable, IsFinal, Join, Roots, Together, Move, IdBound, InBounds;
    var s1, s2 := MapState(c.fst1.start, 1), MapState(c.fst2.start, 2);
    StartsFinal(c);
    var sets := new UnionFind();
    ghost var n := IdBound(c);
    InBoundsUpdate(map[], n, s1);
    sets.MakeSet(s1);
    InBoundsUpdate(sets.repr, n, s2);
    sets.MakeSet(s2);
    ret := true;
    if IsFinal(c.fst1, c.zero, s1) != IsFinal(c.fst2, c.zero, s2) {
      ret := false;
      StartsDiffer(c);
    } else {
      LoopInvInitially(c, sets.repr);
    }
    var q := [(s1, s2)];
    while ret && q != []
      invariant IsPartition(sets.repr) && InBounds(sets.repr, n)
      invariant ret ==> LoopInv(c, sets.repr, q)
      invariant !ret ==> !SameLanguage(c)
      decreases Roots(sets.repr, n), |q|
    {
      s1, s2 := q[0].0, q[0].1;
      ghost var m0 := sets.repr;
      FrontWaits(c, m0, q);
      var rep1 := FindOrMakeSet(sets, s1, n);
      var rep2 := FindOrMakeSet(sets, s2, n);
      ghost var m := sets.repr;
      assert SameReps(m0, m);
      LoopInvSame(c, m0, m, q, n);
      if rep1 != rep2 {
        ret, q := MergeFront(c, sets, rep1, rep2, q);
      } else {
        LoopInvSkip(c, m, q);
      }
      q := q[1..];
    }
    if ret { LoopInvFinally(c, sets.repr); }
  }
}
