/** Composition of two transducers: what the epsilon filters of compose-filter.h
admit, and why every pair of matching paths is composed exactly once.
*/
module Compose {
  import opened Fst

  const NO_FILTER_STATE: int := -1

  /** The composition filters are a template parameter in the source; here a tag. */
  datatype FilterKind = Sequence | AltSequence | Match

  /** What SetState computes about the two current states. */
  datatype Flags = Flags(alleps1: bool, noeps1: bool, alleps2: bool, noeps2: bool)

  /** A state of the composition: a state of each side and a filter state. */
  datatype StateTuple = StateTuple(s1: nat, s2: nat, fs: int)

  datatype Composition<!W> = Composition(fst1: Fst<W>, fst2: Fst<W>, sr: Semiring<W>, kind: FilterKind) {
    ghost predicate Valid() {
      && fst1.Valid()
      && fst2.Valid()
      && (forall s, i :: 0 <= s < |fst1.arcs| && 0 <= i < |fst1.arcs[s]| ==> 0 <= fst1.arcs[s][i].olabel)
      && (forall s, i :: 0 <= s < |fst2.arcs| && 0 <= i < |fst2.arcs[s]| ==> 0 <= fst2.arcs[s][i].ilabel)
    }

    predicate HasTuple(t: StateTuple) {
      t.s1 < |fst1.arcs| && t.s2 < |fst2.arcs| && |fst1.finals| == |fst1.arcs| && |fst2.finals| == |fst2.arcs|
    }
  }

  /** Number of arcs whose output (input) label is epsilon. */
  function CountEpsilons<W>(arcs: seq<Arc<W>>, input: bool): (n: nat)
    ensures n <= |arcs|
    ensures n == 0 <==> forall i :: 0 <= i < |arcs| ==> MatchLabel(arcs[i], input) != EPSILON
    ensures n == |arcs| <==> forall i :: 0 <= i < |arcs| ==> MatchLabel(arcs[i], input) == EPSILON
  {
    if arcs == [] then 0
    else
      var last := arcs[|arcs| - 1];
      CountEpsilons(arcs[..|arcs| - 1], input) + (if MatchLabel(last, input) == EPSILON then 1 else 0)
  }

  function ComputeFlags<W(==)>(c: Composition<W>, s1: nat, s2: nat): Flags
    requires c.HasTuple(StateTuple(s1, s2, 0))
  {
    var ne1 := CountEpsilons(c.fst1.arcs[s1], false);
    var ne2 := CountEpsilons(c.fst2.arcs[s2], true);
    Flags(|c.fst1.arcs[s1]| == ne1 && c.fst1.finals[s1] == c.sr.zero, ne1 == 0,
          |c.fst2.arcs[s2]| == ne2 && c.fst2.finals[s2] == c.sr.zero, ne2 == 0)
  }

  /** The next filter state for a pair of arcs, or NO_FILTER_STATE if the pair is disallowed.
      A side that stands still presents NO_LABEL. */
  function FilterArc(kind: FilterKind, flags: Flags, fs: int, olabel1: int, ilabel2: int): int {
    match kind
    case Sequence =>
      if olabel1 == NO_LABEL then
        if flags.alleps1 then NO_FILTER_STATE else if flags.noeps1 then 0 else 1
      else if ilabel2 == NO_LABEL then
        if fs != 0 then NO_FILTER_STATE else 0
      else
        if olabel1 == EPSILON then NO_FILTER_STATE else 0
    case AltSequence =>
      if ilabel2 == NO_LABEL then
        if flags.alleps2 then NO_FILTER_STATE else if flags.noeps2 then 0 else 1
      else if olabel1 == NO_LABEL then
        if fs == 1 then NO_FILTER_STATE else 0
      else
        if olabel1 == EPSILON then NO_FILTER_STATE else 0
    case Match =>
      if ilabel2 == NO_LABEL then
        if fs == 0 then
          if flags.noeps2 then 0 else if flags.alleps2 then NO_FILTER_STATE else 1
        else
          if fs == 1 then 1 else NO_FILTER_STATE
      else if olabel1 == NO_LABEL then
        if fs == 0 then
          if flags.noeps1 then 0 else if flags.alleps1 then NO_FILTER_STATE else 2
        else
          if fs == 2 then 2 else NO_FILTER_STATE
      else if olabel1 == EPSILON then
        if fs == 0 then 0 else NO_FILTER_STATE
      else
        0
  }

  /** One composed transition: FST1 moves alone on an output epsilon, FST2 moves alone
      on an input epsilon, or both move on the same label. */
  datatype Move = Left(i: nat) | Right(j: nat) | Both(i: nat, j: nat)

  /** The labels match (whatever the filter says). */
  predicate Candidate<W>(c: Composition<W>, t: StateTuple, m: Move)
    requires c.HasTuple(t)
  {
    var arcs1, arcs2 := c.fst1.arcs[t.s1], c.fst2.arcs[t.s2];
    match m
    case Left(i) => i < |arcs1| && arcs1[i].olabel == EPSILON
    case Right(j) => j < |arcs2| && arcs2[j].ilabel == EPSILON
    case Both(i, j) => i < |arcs1| && j < |arcs2| && arcs1[i].olabel == arcs2[j].ilabel
  }

  /** The two arcs a move consists of; the side that stands still takes its implicit loop. */
  function Arc1<W>(c: Composition<W>, t: StateTuple, m: Move): Arc<W>
    requires c.HasTuple(t) && Candidate(c, t, m)
  {
    if m.Right? then Arc(EPSILON, NO_LABEL, c.sr.one, t.s1) else c.fst1.arcs[t.s1][m.i]
  }

  function Arc2<W>(c: Composition<W>, t: StateTuple, m: Move): Arc<W>
    requires c.HasTuple(t) && Candidate(c, t, m)
  {
    if m.Left? then Arc(NO_LABEL, EPSILON, c.sr.one, t.s2) else c.fst2.arcs[t.s2][m.j]
  }

  function NextFilterState<W(==)>(c: Composition<W>, t: StateTuple, m: Move): int
    requires c.HasTuple(t) && Candidate(c, t, m)
  {
    FilterArc(c.kind, ComputeFlags(c, t.s1, t.s2), t.fs, Arc1(c, t, m).olabel, Arc2(c, t, m).ilabel)
  }

  predicate Enabled<W(==)>(c: Composition<W>, t: StateTuple, m: Move)
    requires c.HasTuple(t)
  {
    Candidate(c, t, m) && NextFilterState(c, t, m) != NO_FILTER_STATE
  }

  function Next<W(==)>(c: Composition<W>, t: StateTuple, m: Move): StateTuple
    requires c.HasTuple(t) && Enabled(c, t, m)
  {
    StateTuple(Arc1(c, t, m).nextstate, Arc2(c, t, m).nextstate, NextFilterState(c, t, m))
  }

  lemma NextHasTuple<W>(c: Composition<W>, t: StateTuple, m: Move)
    requires c.Valid() && c.HasTuple(t) && Enabled(c, t, m)
    ensures c.HasTuple(Next(c, t, m))
  {
  }

  // ---------------------------------------------------------------- runs

  /** A run of the composition from tuple 't', as the sequence of its moves. */
  ghost predicate IsRun<W>(c: Composition<W>, t: StateTuple, ms: seq<Move>)
    decreases |ms|
  {
    c.HasTuple(t) &&
    (ms == [] || (Enabled(c, t, ms[0]) && IsRun(c, Next(c, t, ms[0]), ms[1..])))
  }

  ghost function RunEnd<W>(c: Composition<W>, t: StateTuple, ms: seq<Move>): StateTuple
    requires IsRun(c, t, ms)
    decreases |ms|
  {
    if ms == [] then t else RunEnd(c, Next(c, t, ms[0]), ms[1..])
  }

  /** The arcs of FST1 that a sequence of moves takes. */
  ghost function Proj1(ms: seq<Move>): (p: seq<nat>)
    ensures |p| <= |ms|
  {
    if ms == [] then [] else (if ms[0].Right? then [] else [ms[0].i]) + Proj1(ms[1..])
  }

  ghost function Proj2(ms: seq<Move>): (p: seq<nat>)
    ensures |p| <= |ms|
  {
    if ms == [] then [] else (if ms[0].Left? then [] else [ms[0].j]) + Proj2(ms[1..])
  }

  /** The product of the weights of the composed arcs, as AddArc computes each. */
  ghost function RunWeight<W>(c: Composition<W>, t: StateTuple, ms: seq<Move>): W
    requires IsRun(c, t, ms)
    decreases |ms|
  {
    if ms == [] then c.sr.one
    else c.sr.times(ArcWeight(c, t, ms[0]), RunWeight(c, Next(c, t, ms[0]), ms[1..]))
  }

  function ArcWeight<W>(c: Composition<W>, t: StateTuple, m: Move): W
    requires c.HasTuple(t) && Candidate(c, t, m)
  {
    c.sr.times(Arc1(c, t, m).weight, Arc2(c, t, m).weight)
  }

  /** A pair of paths whose strings meet in the middle. */
  ghost predicate Matching<W>(c: Composition<W>, s1: nat, s2: nat, p1: seq<nat>, p2: seq<nat>) {
    && IsPath(c.fst1, s1, p1)
    && IsPath(c.fst2, s2, p2)
    && PathString(c.fst1, s1, p1, false) == PathString(c.fst2, s2, p2, true)
  }

  // ---------------------------------------------------------------- what the filters prune

  /** No path that starts here leads on without an epsilon on this side, nor ends here. */
  predicate OnlyWaits<W(==)>(f: Fst<W>, s: nat, input: bool, zero: W)
    requires s < |f.arcs| && |f.finals| == |f.arcs|
  {
    f.finals[s] == zero && forall i :: 0 <= i < |f.arcs[s]| ==> (if input then f.arcs[s][i].ilabel else f.arcs[s][i].olabel) == 0
  }

  predicate NeverWaits<W>(f: Fst<W>, s: nat, input: bool)
    requires s < |f.arcs|
  {
    forall i :: 0 <= i < |f.arcs[s]| ==> (if input then f.arcs[s][i].ilabel else f.arcs[s][i].olabel) != 0
  }

  lemma FlagsExactly<W>(c: Composition<W>, s1: nat, s2: nat)
    requires c.HasTuple(StateTuple(s1, s2, 0))
    ensures var flags := ComputeFlags(c, s1, s2);
            && (flags.alleps1 <==> OnlyWaits(c.fst1, s1, false, c.sr.zero)) && (flags.noeps1 <==> NeverWaits(c.fst1, s1, false))
            && (flags.alleps2 <==> OnlyWaits(c.fst2, s2, true, c.sr.zero)) && (flags.noeps2 <==> NeverWaits(c.fst2, s2, true))
  {
  }

  /** When FST2 may move alone on an input epsilon, and whether FST1 may still do so afterwards. A
      side that can do nothing but read its own epsilons is not kept waiting. */
  lemma RightAlone<W>(c: Composition<W>, t: StateTuple, j: nat)
    requires c.HasTuple(t) && j < |c.fst2.arcs[t.s2]| && c.fst2.arcs[t.s2][j].ilabel == 0
    ensures var waits, never := OnlyWaits(c.fst1, t.s1, false, c.sr.zero), NeverWaits(c.fst1, t.s1, false);
            match c.kind
            case Sequence =>
              (Enabled(c, t, Right(j)) <==> !waits) && (!waits ==> Next(c, t, Right(j)).fs == if never then 0 else 1)
            case AltSequence =>
              (Enabled(c, t, Right(j)) <==> t.fs != 1) && (t.fs != 1 ==> Next(c, t, Right(j)).fs == 0)
            case Match =>
              && (Enabled(c, t, Right(j)) <==> t.fs == 2 || (t.fs == 0 && (never || !waits)))
              && (t.fs == 0 && (never || !waits) ==> Next(c, t, Right(j)).fs == if never then 0 else 2)
              && (t.fs == 2 ==> Next(c, t, Right(j)).fs == 2)
  {
    FlagsExactly(c, t.s1, t.s2);
    hide ComputeFlags, OnlyWaits, NeverWaits;
  }

  /** The same for FST1 and an output epsilon. */
  lemma LeftAlone<W>(c: Composition<W>, t: StateTuple, i: nat)
    requires c.HasTuple(t) && i < |c.fst1.arcs[t.s1]| && c.fst1.arcs[t.s1][i].olabel == 0
    ensures var waits, never := OnlyWaits(c.fst2, t.s2, true, c.sr.zero), NeverWaits(c.fst2, t.s2, true);
            match c.kind
            case Sequence =>
              (Enabled(c, t, Left(i)) <==> t.fs == 0) && (t.fs == 0 ==> Next(c, t, Left(i)).fs == 0)
            case AltSequence =>
              (Enabled(c, t, Left(i)) <==> !waits) && (!waits ==> Next(c, t, Left(i)).fs == if never then 0 else 1)
            case Match =>
              && (Enabled(c, t, Left(i)) <==> t.fs == 1 || (t.fs == 0 && (never || !waits)))
              && (t.fs == 0 && (never || !waits) ==> Next(c, t, Left(i)).fs == if never then 0 else 1)
              && (t.fs == 1 ==> Next(c, t, Left(i)).fs == 1)
  {
    FlagsExactly(c, t.s1, t.s2);
    hide ComputeFlags, OnlyWaits, NeverWaits;
  }

  /** Both sides may always move together on a label that is not epsilon; on epsilons only the match
      filter lets them, before either has gone ahead alone. */
  lemma BothTogether<W>(c: Composition<W>, t: StateTuple, i: nat, j: nat)
    requires c.Valid() && c.HasTuple(t) && i < |c.fst1.arcs[t.s1]| && j < |c.fst2.arcs[t.s2]|
    requires c.fst1.arcs[t.s1][i].olabel == c.fst2.arcs[t.s2][j].ilabel
    ensures Enabled(c, t, Both(i, j)) <==> c.fst1.arcs[t.s1][i].olabel != 0 || (c.kind == Match && t.fs == 0)
    ensures Enabled(c, t, Both(i, j)) ==> Next(c, t, Both(i, j)).fs == 0
  {
    hide ComputeFlags;
  }

  /** Without epsilons between the two FSTs on one of the sides, the filter state stays 0 in every
      run, so that each pair of states is numbered once at most. */
  lemma {:induction false} FilterStateStays<W>(c: Composition<W>, t: StateTuple, ms: seq<Move>)
    requires c.Valid() && IsRun(c, t, ms) && t.fs == 0
    requires (forall s: nat :: s < |c.fst1.arcs| ==> NeverWaits(c.fst1, s, false))
             || (forall s: nat :: s < |c.fst2.arcs| ==> NeverWaits(c.fst2, s, true))
    ensures RunEnd(c, t, ms).fs == 0
    decreases |ms|
  {
    if ms != [] {
      FilterStateStep(c, t, ms[0]);
      hide Enabled, Next, ComputeFlags, NeverWaits;
      FilterStateStays(c, Next(c, t, ms[0]), ms[1..]);
    }
  }

  lemma FilterStateStep<W>(c: Composition<W>, t: StateTuple, m: Move)
    requires c.Valid() && c.HasTuple(t) && Enabled(c, t, m) && t.fs == 0
    requires NeverWaits(c.fst1, t.s1, false) || NeverWaits(c.fst2, t.s2, true)
    ensures Next(c, t, m).fs == 0
  {
    if m.Left? {
      LeftAlone(c, t, m.i);
    } else if m.Right? {
      RightAlone(c, t, m.j);
    } else {
      hide ComputeFlags;
    }
  }

  // ---------------------------------------------------------------- soundness

  /** What a move does to each side, and what it adds to the projections. */
  lemma MoveEffect<W>(c: Composition<W>, t: StateTuple, ms: seq<Move>)
    requires IsRun(c, t, ms) && ms != []
    ensures var t' := Next(c, t, ms[0]);
            && IsRun(c, t', ms[1..])
            && (if ms[0].Right? then t'.s1 == t.s1 && Proj1(ms) == Proj1(ms[1..])
                else ms[0].i < |c.fst1.arcs[t.s1]| && t'.s1 == c.fst1.arcs[t.s1][ms[0].i].nextstate
                     && Proj1(ms) == [ms[0].i] + Proj1(ms[1..]))
            && (if ms[0].Left? then t'.s2 == t.s2 && Proj2(ms) == Proj2(ms[1..])
                else ms[0].j < |c.fst2.arcs[t.s2]| && t'.s2 == c.fst2.arcs[t.s2][ms[0].j].nextstate
                     && Proj2(ms) == [ms[0].j] + Proj2(ms[1..]))
  {
  }

  /** Every run is a pair of matching paths, whichever filter is used. */
  lemma {:induction false} RunProjects<W>(c: Composition<W>, t: StateTuple, ms: seq<Move>)
    requires c.Valid() && IsRun(c, t, ms)
    ensures Matching(c, t.s1, t.s2, Proj1(ms), Proj2(ms))
    ensures PathEnd(c.fst1, t.s1, Proj1(ms)) == RunEnd(c, t, ms).s1
    ensures PathEnd(c.fst2, t.s2, Proj2(ms)) == RunEnd(c, t, ms).s2
    decreases |ms|
  {
    if ms != [] {
      MoveEffect(c, t, ms);
      RunProjects(c, Next(c, t, ms[0]), ms[1..]);
      if !ms[0].Right? {
        PathCons(c.fst1, t.s1, ms[0].i, Proj1(ms[1..]));
      }
      if !ms[0].Left? {
        PathCons(c.fst2, t.s2, ms[0].j, Proj2(ms[1..]));
      }
    }
  }

  // ---------------------------------------------------------------- uniqueness

  /** The label that the first arc of 'p' shows to the other side, NO_LABEL if there is none. */
  ghost function HeadLabel<W>(f: Fst<W>, s: nat, p: seq<nat>, input: bool): int
    requires IsPath(f, s, p)
  {
    if p == [] then NO_LABEL else MatchLabel(f.arcs[s][p[0]], input)
  }

  /** What SetState found out, seen from an arc out of each state. */
  lemma FlagsMeaning<W>(c: Composition<W>, t: StateTuple, p1: seq<nat>, p2: seq<nat>)
    requires c.HasTuple(t) && IsPath(c.fst1, t.s1, p1) && IsPath(c.fst2, t.s2, p2)
    ensures var flags := ComputeFlags(c, t.s1, t.s2);
            var h1, h2 := HeadLabel(c.fst1, t.s1, p1, false), HeadLabel(c.fst2, t.s2, p2, true);
            && (h1 == EPSILON ==> !flags.noeps1)
            && (h2 == EPSILON ==> !flags.noeps2)
            && ((if p1 == [] then c.fst1.finals[t.s1] != c.sr.zero else h1 != EPSILON) ==> !flags.alleps1)
            && ((if p2 == [] then c.fst2.finals[t.s2] != c.sr.zero else h2 != EPSILON) ==> !flags.alleps2)
  {
  }

  /** What the first move of a run says about the heads of the two paths. */
  lemma MoveOnHeads<W>(c: Composition<W>, t: StateTuple, ms: seq<Move>)
    requires c.Valid() && IsRun(c, t, ms) && ms != []
    ensures var t' := Next(c, t, ms[0]);
            var flags := ComputeFlags(c, t.s1, t.s2);
            var p1, p2, q1, q2 := Proj1(ms), Proj2(ms), Proj1(ms[1..]), Proj2(ms[1..]);
            && IsPath(c.fst1, t.s1, p1) && IsPath(c.fst2, t.s2, p2)
            && Enabled(c, t, ms[0])
            && IsRun(c, t', ms[1..]) && IsPath(c.fst1, t'.s1, q1) && IsPath(c.fst2, t'.s2, q2)
            && var h1, h2 := HeadLabel(c.fst1, t.s1, p1, false), HeadLabel(c.fst2, t.s2, p2, true);
            && t'.fs != NO_FILTER_STATE
            && (h1 == EPSILON ==> !flags.noeps1) && (h2 == EPSILON ==> !flags.noeps2)
            && match ms[0] {
                 case Left(i) =>
                   h1 == EPSILON && h2 == HeadLabel(c.fst2, t'.s2, q2, true)
                   && t'.fs == FilterArc(c.kind, flags, t.fs, EPSILON, NO_LABEL)
                   && p1 == [i] + q1 && p2 == q2
                 case Right(j) =>
                   h2 == EPSILON && h1 == HeadLabel(c.fst1, t'.s1, q1, false)
                   && t'.fs == FilterArc(c.kind, flags, t.fs, NO_LABEL, EPSILON)
                   && p1 == q1 && p2 == [j] + q2
                 case Both(i, j) =>
                   h1 == h2 != NO_LABEL
                   && t'.fs == FilterArc(c.kind, flags, t.fs, h1, h2)
                   && p1 == [i] + q1 && p2 == [j] + q2
               }
  {
    MoveEffect(c, t, ms);
    RunProjects(c, t, ms);
    RunProjects(c, Next(c, t, ms[0]), ms[1..]);
    FlagsMeaning(c, t, Proj1(ms), Proj2(ms));
  }

  /** The filter has let one side go ahead, and an epsilon of the other side still waits. */
  predicate Stuck(kind: FilterKind, fs: int, h1: int, h2: int) {
    match kind
    case Sequence => fs != 0 && h1 == EPSILON
    case AltSequence => fs == 1 && h2 == EPSILON
    case Match => (fs == 1 && h2 == EPSILON) || (fs == 2 && h1 == EPSILON)
  }

  /** From a stuck filter state, every admitted move leads to a stuck filter state. */
  lemma StaysStuck(kind: FilterKind, flags: Flags, fs: int, h1: int, h2: int)
    requires Stuck(kind, fs, h1, h2)
    requires h1 == EPSILON ==> !flags.noeps1
    requires h2 == EPSILON ==> !flags.noeps2
    ensures h1 == EPSILON ==>
              var fs' := FilterArc(kind, flags, fs, EPSILON, NO_LABEL);
              fs' == NO_FILTER_STATE || forall h :: Stuck(kind, fs', h, h2)
    ensures h2 == EPSILON ==>
              var fs' := FilterArc(kind, flags, fs, NO_LABEL, EPSILON);
              fs' == NO_FILTER_STATE || forall h :: Stuck(kind, fs', h1, h)
    ensures h1 == h2 ==> FilterArc(kind, flags, fs, h1, h2) == NO_FILTER_STATE
  {
  }

  lemma {:induction false} StuckNeverFinishes<W>(c: Composition<W>, t: StateTuple, ms: seq<Move>)
    requires c.Valid() && IsRun(c, t, ms)
    requires IsPath(c.fst1, t.s1, Proj1(ms)) && IsPath(c.fst2, t.s2, Proj2(ms))
    ensures !Stuck(c.kind, t.fs, HeadLabel(c.fst1, t.s1, Proj1(ms), false), HeadLabel(c.fst2, t.s2, Proj2(ms), true))
    decreases |ms|
  {
    var h1, h2 := HeadLabel(c.fst1, t.s1, Proj1(ms), false), HeadLabel(c.fst2, t.s2, Proj2(ms), true);
    if ms != [] && Stuck(c.kind, t.fs, h1, h2) {
      hide ComputeFlags, NextFilterState, Enabled, Candidate, Next, IsRun, Proj1, Proj2, IsPath, Stuck, FilterArc;
      MoveOnHeads(c, t, ms);
      StaysStuck(c.kind, ComputeFlags(c, t.s1, t.s2), t.fs, h1, h2);
      StuckNeverFinishes(c, Next(c, t, ms[0]), ms[1..]);
    }
  }

  /** Two different first moves cannot lead to the same pair of paths: one of them
      overtakes an epsilon of the other side that then waits forever. */
  lemma FirstMoveUnique<W>(c: Composition<W>, t: StateTuple, ms: seq<Move>, ms': seq<Move>)
    requires c.Valid() && IsRun(c, t, ms) && IsRun(c, t, ms')
    requires Proj1(ms) == Proj1(ms') && Proj2(ms) == Proj2(ms')
    requires ms != [] && ms' != []
    ensures ms[0] == ms'[0]
  {
    hide ComputeFlags, Arc1, Arc2, NextFilterState, Enabled, Candidate, Next, CountEpsilons, IsRun, Proj1, Proj2, IsPath;
    MoveOnHeads(c, t, ms);
    MoveOnHeads(c, t, ms');
    StuckNeverFinishes(c, Next(c, t, ms[0]), ms[1..]);
    StuckNeverFinishes(c, Next(c, t, ms'[0]), ms'[1..]);
    StuckNeverFinishes(c, t, ms);
  }

  lemma {:induction false} ProjEmpty(ms: seq<Move>)
    requires Proj1(ms) == [] && Proj2(ms) == []
    ensures ms == []
  {
  }

  lemma ConsInjective(a: seq<nat>, b: seq<nat>, x: nat)
    requires [x] + a == [x] + b
    ensures a == b
  {
    assert a == ([x] + a)[1..] == ([x] + b)[1..] == b;
  }

  /** No pair of paths is composed twice. */
  lemma {:induction false} RunUnique<W>(c: Composition<W>, t: StateTuple, ms: seq<Move>, ms': seq<Move>)
    requires c.Valid() && IsRun(c, t, ms) && IsRun(c, t, ms')
    requires Proj1(ms) == Proj1(ms') && Proj2(ms) == Proj2(ms')
    ensures ms == ms'
    decreases |ms|
  {
    if ms == [] {
      ProjEmpty(ms');
    } else if ms' == [] {
      ProjEmpty(ms);
    } else {
      FirstMoveUnique(c, t, ms, ms');
      MoveEffect(c, t, ms);
      MoveEffect(c, t, ms');
      var q, q' := ms[1..], ms'[1..];
      assert Proj1(q) == Proj1(q') && Proj2(q) == Proj2(q') by {
        if !ms[0].Right? { ConsInjective(Proj1(q), Proj1(q'), ms[0].i); }
        if !ms[0].Left? { ConsInjective(Proj2(q), Proj2(q'), ms[0].j); }
      }
      RunUnique(c, Next(c, t, ms[0]), q, q');
      assert ms == [ms[0]] + q && ms' == [ms'[0]] + q';
    }
  }

  // ---------------------------------------------------------------- completeness

  predicate FilterStateOk(kind: FilterKind, fs: int) {
    0 <= fs <= (if kind == Match then 2 else 1)
  }

  /** A pair of matching paths, both ending in states whose final weight is not zero,
      that the filter has not cut off from tuple 't'. */
  ghost predicate Mergeable<W>(c: Composition<W>, t: StateTuple, p1: seq<nat>, p2: seq<nat>) {
    && c.HasTuple(t) && Matching(c, t.s1, t.s2, p1, p2)
    && PathEnd(c.fst1, t.s1, p1) < |c.fst1.finals| && PathEnd(c.fst2, t.s2, p2) < |c.fst2.finals|
    && c.fst1.finals[PathEnd(c.fst1, t.s1, p1)] != c.sr.zero
    && c.fst2.finals[PathEnd(c.fst2, t.s2, p2)] != c.sr.zero
    && FilterStateOk(c.kind, t.fs)
    && !Stuck(c.kind, t.fs, HeadLabel(c.fst1, t.s1, p1, false), HeadLabel(c.fst2, t.s2, p2, true))
  }

  datatype Side = OnlyLeft | OnlyRight | BothSides

  /** Which side moves next in the order that the filter imposes. */
  function FirstSide(kind: FilterKind, h1: int, h2: int): Side {
    match kind
    case Sequence => if h1 == EPSILON then OnlyLeft else if h2 == EPSILON then OnlyRight else BothSides
    case AltSequence => if h2 == EPSILON then OnlyRight else if h1 == EPSILON then OnlyLeft else BothSides
    case Match =>
      if h1 == EPSILON && h2 == EPSILON then BothSides
      else if h1 == EPSILON then OnlyLeft else if h2 == EPSILON then OnlyRight else BothSides
  }

  /** Two matching paths without a leading epsilon start with the same label, or are both empty. */
  lemma HeadsAgree<W>(c: Composition<W>, s1: nat, s2: nat, p1: seq<nat>, p2: seq<nat>)
    requires Matching(c, s1, s2, p1, p2)
    ensures var h1, h2 := HeadLabel(c.fst1, s1, p1, false), HeadLabel(c.fst2, s2, p2, true);
            h1 != EPSILON && h2 != EPSILON ==> h1 == h2 && (p1 == [] <==> p2 == [])
  {
    if p1 != [] && c.fst1.arcs[s1][p1[0]].olabel != EPSILON {
      assert PathString(c.fst1, s1, p1, false)[0] == c.fst1.arcs[s1][p1[0]].olabel;
    }
    if p2 != [] && c.fst2.arcs[s2][p2[0]].ilabel != EPSILON {
      assert PathString(c.fst2, s2, p2, true)[0] == c.fst2.arcs[s2][p2[0]].ilabel;
    }
  }

  /** The filter admits the side that the order asks for, pruning included, and is not stuck after it. */
  lemma FilterAdmits(kind: FilterKind, flags: Flags, fs: int, h1: int, h2: int)
    requires FilterStateOk(kind, fs) && !Stuck(kind, fs, h1, h2)
    requires h1 == EPSILON ==> !flags.noeps1
    requires h2 == EPSILON ==> !flags.noeps2
    requires h1 != EPSILON ==> !flags.alleps1
    requires h2 != EPSILON ==> !flags.alleps2
    requires h1 != EPSILON && h2 != EPSILON ==> h1 == h2 && h1 != NO_LABEL
    ensures match FirstSide(kind, h1, h2)
            case OnlyLeft =>
              h1 == EPSILON && var fs' := FilterArc(kind, flags, fs, EPSILON, NO_LABEL);
              FilterStateOk(kind, fs') && forall h :: !Stuck(kind, fs', h, h2)
            case OnlyRight =>
              h2 == EPSILON && var fs' := FilterArc(kind, flags, fs, NO_LABEL, EPSILON);
              FilterStateOk(kind, fs') && forall h :: !Stuck(kind, fs', h1, h)
            case BothSides =>
              h1 == h2 && var fs' := FilterArc(kind, flags, fs, h1, h2);
              FilterStateOk(kind, fs') && forall h, h' :: !Stuck(kind, fs', h, h')
  {
  }

  /** The move that the order asks for. */
  ghost function FirstMove<W>(c: Composition<W>, t: StateTuple, p1: seq<nat>, p2: seq<nat>): (m: Move)
    requires c.Valid() && Mergeable(c, t, p1, p2) && (p1 != [] || p2 != [])
    ensures Enabled(c, t, m)
    ensures !m.Right? ==> p1 != [] && m.i == p1[0]
    ensures !m.Left? ==> p2 != [] && m.j == p2[0]
    ensures FilterStateOk(c.kind, Next(c, t, m).fs)
    ensures forall h, h' :: (m.Left? ==> h' == HeadLabel(c.fst2, t.s2, p2, true))
                            && (m.Right? ==> h == HeadLabel(c.fst1, t.s1, p1, false))
                            ==> !Stuck(c.kind, Next(c, t, m).fs, h, h')
  {
    FlagsMeaning(c, t, p1, p2);
    HeadsAgree(c, t.s1, t.s2, p1, p2);
    var h1, h2 := HeadLabel(c.fst1, t.s1, p1, false), HeadLabel(c.fst2, t.s2, p2, true);
    FilterAdmits(c.kind, ComputeFlags(c, t.s1, t.s2), t.fs, h1, h2);
    match FirstSide(c.kind, h1, h2)
    case OnlyLeft => Left(p1[0])
    case OnlyRight => Right(p2[0])
    case BothSides => Both(p1[0], p2[0])
  }

  /** What is left of a path after a move. */
  ghost function Rest(p: seq<nat>, moved: bool): seq<nat>
    requires moved ==> p != []
  {
    if moved then p[1..] else p
  }

  lemma MoveLeavesMergeable<W>(c: Composition<W>, t: StateTuple, p1: seq<nat>, p2: seq<nat>)
    requires c.Valid() && Mergeable(c, t, p1, p2) && (p1 != [] || p2 != [])
    ensures var m := FirstMove(c, t, p1, p2);
            Mergeable(c, Next(c, t, m), Rest(p1, !m.Right?), Rest(p2, !m.Left?))
  {
    var m := FirstMove(c, t, p1, p2);
    var t' := Next(c, t, m);
    assert t'.s1 == if m.Right? then t.s1 else c.fst1.arcs[t.s1][p1[0]].nextstate;
    assert t'.s2 == if m.Left? then t.s2 else c.fst2.arcs[t.s2][p2[0]].nextstate;
    if m.Both? {
      var l := c.fst1.arcs[t.s1][p1[0]].olabel;
      assert PathString(c.fst1, t.s1, p1, false) == NonEpsilon(l) + PathString(c.fst1, t'.s1, p1[1..], false);
      assert PathString(c.fst2, t.s2, p2, true) == NonEpsilon(l) + PathString(c.fst2, t'.s2, p2[1..], true);
      AppendInjective(NonEpsilon(l), PathString(c.fst1, t'.s1, p1[1..], false), PathString(c.fst2, t'.s2, p2[1..], true));
    }
  }

  lemma AppendInjective(a: seq<int>, b: seq<int>, b': seq<int>)
    requires a + b == a + b'
    ensures b == b'
  {
    assert b == (a + b)[|a|..] == (a + b')[|a|..] == b';
  }

  /** Every pair of matching accepting paths is composed. */
  lemma {:induction false} RunExists<W>(c: Composition<W>, t: StateTuple, p1: seq<nat>, p2: seq<nat>)
      returns (ms: seq<Move>)
    requires c.Valid() && Mergeable(c, t, p1, p2)
    ensures IsRun(c, t, ms) && Proj1(ms) == p1 && Proj2(ms) == p2
    decreases |p1| + |p2|
  {
    hide Enabled, Candidate, Next, NextFilterState, ComputeFlags, Stuck, FilterArc, IsPath, HeadLabel, Mergeable, FirstMove, IsRun, Proj1, Proj2;
    MergeableHasTuple(c, t, p1, p2);
    if p1 == [] && p2 == [] {
      ms := [];
    } else {
      MoveLeavesMergeable(c, t, p1, p2);
      var m := FirstMove(c, t, p1, p2);
      SplitHead(p1, !m.Right?);
      SplitHead(p2, !m.Left?);
      var rest := RunExists(c, Next(c, t, m), Rest(p1, !m.Right?), Rest(p2, !m.Left?));
      RunCons(c, t, m, rest);
      ms := [m] + rest;
    }
  }

  lemma MergeableHasTuple<W>(c: Composition<W>, t: StateTuple, p1: seq<nat>, p2: seq<nat>)
    requires c.Valid() && Mergeable(c, t, p1, p2)
    ensures c.HasTuple(t)
    ensures p1 == [] && p2 == [] ==> IsRun(c, t, []) && Proj1([]) == p1 && Proj2([]) == p2
  {
  }

  lemma SplitHead(p: seq<nat>, moved: bool)
    requires moved ==> p != []
    ensures p == (if moved then [p[0]] else []) + Rest(p, moved)
    ensures moved ==> |Rest(p, moved)| < |p|
  {
  }

  lemma RunCons<W>(c: Composition<W>, t: StateTuple, m: Move, ms: seq<Move>)
    requires c.HasTuple(t) && Enabled(c, t, m) && IsRun(c, Next(c, t, m), ms)
    ensures IsRun(c, t, [m] + ms)
    ensures Proj1([m] + ms) == (if m.Right? then [] else [m.i]) + Proj1(ms)
    ensures Proj2([m] + ms) == (if m.Left? then [] else [m.j]) + Proj2(ms)
  {
    assert ([m] + ms)[1..] == ms;
  }

  // ---------------------------------------------------------------- weights

  /** A composed path carries the product of the weights of the two paths it composes. */
  lemma {:induction false} RunWeightIsProduct<W(!new)>(c: Composition<W>, t: StateTuple, ms: seq<Move>)
    requires c.Valid() && IsCommutative(c.sr) && IsRun(c, t, ms)
    requires IsPath(c.fst1, t.s1, Proj1(ms)) && IsPath(c.fst2, t.s2, Proj2(ms))
    ensures RunWeight(c, t, ms) ==
            c.sr.times(PathWeight(c.sr, c.fst1, t.s1, Proj1(ms)), PathWeight(c.sr, c.fst2, t.s2, Proj2(ms)))
    decreases |ms|
  {
    if ms != [] {
      var t' := Next(c, t, ms[0]);
      RunProjects(c, t', ms[1..]);
      RunWeightIsProduct(c, t', ms[1..]);
      assert !ms[0].Right? ==> Proj1(ms)[1..] == Proj1(ms[1..]);
      assert !ms[0].Left? ==> Proj2(ms)[1..] == Proj2(ms[1..]);
      var a1, a2 := Arc1(c, t, ms[0]).weight, Arc2(c, t, ms[0]).weight;
      var r1 := PathWeight(c.sr, c.fst1, t'.s1, Proj1(ms[1..]));
      var r2 := PathWeight(c.sr, c.fst2, t'.s2, Proj2(ms[1..]));
      Exchange(c.sr, a1, a2, r1, r2);
      assert ms[0].Right? ==> Proj1(ms) == Proj1(ms[1..]) && c.sr.times(a1, r1) == r1;
      assert ms[0].Left? ==> Proj2(ms) == Proj2(ms[1..]) && c.sr.times(a2, r2) == r2;
    }
  }

  lemma Exchange<W(!new)>(sr: Semiring<W>, a1: W, a2: W, r1: W, r2: W)
    requires IsCommutative(sr)
    ensures sr.times(sr.times(a1, a2), sr.times(r1, r2)) == sr.times(sr.times(a1, r1), sr.times(a2, r2))
  {
    calc {
      sr.times(sr.times(a1, a2), sr.times(r1, r2));
      sr.times(a1, sr.times(a2, sr.times(r1, r2)));
      { assert sr.times(a2, sr.times(r1, r2)) == sr.times(sr.times(a2, r1), r2); }
      sr.times(a1, sr.times(sr.times(r1, a2), r2));
      { assert sr.times(sr.times(r1, a2), r2) == sr.times(r1, sr.times(a2, r2)); }
      sr.times(a1, sr.times(r1, sr.times(a2, r2)));
      sr.times(sr.times(a1, r1), sr.times(a2, r2));
    }
  }
}
