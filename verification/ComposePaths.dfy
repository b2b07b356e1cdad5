/** The paths of an expanded composition, against pairs of paths of its two arguments. */
module ComposePaths {
  import opened Fst
  import opened Compose
  import opened ComposeFst

  /** What a ComposeFstImpl holds once every state it has met has been expanded. */
  datatype Expansion<!W> = Expansion(c: Composition<W>, tuples: seq<StateTuple>,
                                     arcs: map<nat, seq<Arc<W>>>, moves: map<nat, seq<Move>>)

  ghost predicate Complete<W>(x: Expansion<W>) {
    && x.c.Valid()
    && TableOk(x.c, x.tuples)
    && CacheOk(x.c, x.tuples, x.arcs, x.moves)
    && forall s :: 0 <= s < |x.tuples| ==> s in x.arcs && s in x.moves
  }

  /** The composed transducer, as any client reads it. */
  ghost function Result<W>(x: Expansion<W>, start: int): Fst<W>
    requires Complete(x)
  {
    Fst(start,
        seq(|x.tuples|, s requires 0 <= s < |x.tuples| => FinalWeight(x.c, x.tuples[s])),
        seq(|x.tuples|, s requires 0 <= s < |x.tuples| => x.arcs[s]))
  }

  /** The moves behind the arcs of a composed path. */
  ghost function PathMoves<W>(x: Expansion<W>, start: int, s: nat, p: seq<nat>): (ms: seq<Move>)
    requires Complete(x) && IsPath(Result(x, start), s, p)
    decreases |p|
  {
    if p == [] then []
    else
      ArcIsMove(x, start, s, p[0]);
      [x.moves[s][p[0]]] + PathMoves(x, start, Result(x, start).arcs[s][p[0]].nextstate, p[1..])
  }

  lemma ArcIsMove<W>(x: Expansion<W>, start: int, s: nat, i: nat)
    requires Complete(x) && s < |x.tuples|
    requires i < |Result(x, start).arcs[s]|
    ensures i < |x.moves[s]|
    ensures Composes(x.c, x.tuples, x.tuples[s], x.moves[s][i], Result(x, start).arcs[s][i])
  {
    assert IsExpansion(x.c, x.tuples, x.tuples[s], x.moves[s], x.arcs[s]);
  }

  /** A composed path is a run of the filter; it reads what the first path reads, writes what
      the second one writes, and weighs what the run weighs. */
  lemma {:induction false} PathIsRun<W>(x: Expansion<W>, start: int, s: nat, p: seq<nat>)
    requires Complete(x) && IsPath(Result(x, start), s, p)
    ensures var f, ms, t := Result(x, start), PathMoves(x, start, s, p), x.tuples[s];
            && IsRun(x.c, t, ms)
            && PathEnd(f, s, p) < |x.tuples| && x.tuples[PathEnd(f, s, p)] == RunEnd(x.c, t, ms)
            && PathWeight(x.c.sr, f, s, p) == RunWeight(x.c, t, ms)
    decreases |p|
  {
    if p != [] {
      ArcIsMove(x, start, s, p[0]);
      var s' := Result(x, start).arcs[s][p[0]].nextstate;
      PathIsRun(x, start, s', p[1..]);
      var ms := PathMoves(x, start, s, p);
      assert ms[1..] == PathMoves(x, start, s', p[1..]);
    }
  }

  lemma {:induction false} PathStrings<W>(x: Expansion<W>, start: int, s: nat, p: seq<nat>)
    requires Complete(x) && IsPath(Result(x, start), s, p)
    ensures var f, ms, t := Result(x, start), PathMoves(x, start, s, p), x.tuples[s];
            && IsPath(x.c.fst1, t.s1, Proj1(ms)) && IsPath(x.c.fst2, t.s2, Proj2(ms))
            && PathString(f, s, p, true) == PathString(x.c.fst1, t.s1, Proj1(ms), true)
            && PathString(f, s, p, false) == PathString(x.c.fst2, t.s2, Proj2(ms), false)
    decreases |p|
  {
    if p != [] {
      ArcIsMove(x, start, s, p[0]);
      var arc := Result(x, start).arcs[s][p[0]];
      var t, m := x.tuples[s], x.moves[s][p[0]];
      var rest := PathMoves(x, start, arc.nextstate, p[1..]);
      PathStrings(x, start, arc.nextstate, p[1..]);
      PathIsRun(x, start, s, p);
      MoveEffect(x.c, t, PathMoves(x, start, s, p));
      assert PathMoves(x, start, s, p)[1..] == rest;
      if !m.Right? { PathCons(x.c.fst1, t.s1, m.i, Proj1(rest)); }
      if !m.Left? { PathCons(x.c.fst2, t.s2, m.j, Proj2(rest)); }
    }
  }

  lemma PathMovesCons<W>(x: Expansion<W>, start: int, s: nat, k: nat, q: seq<nat>)
    requires Complete(x) && s < |x.tuples| && k < |Result(x, start).arcs[s]|
    requires IsPath(Result(x, start), Result(x, start).arcs[s][k].nextstate, q)
    ensures IsPath(Result(x, start), s, [k] + q) && k < |x.moves[s]|
    ensures PathMoves(x, start, s, [k] + q)
            == [x.moves[s][k]] + PathMoves(x, start, Result(x, start).arcs[s][k].nextstate, q)
  {
    ArcIsMove(x, start, s, k);
    assert ([k] + q)[1..] == q;
  }

  lemma {:induction false} RunIsPath<W>(x: Expansion<W>, start: int, s: nat, ms: seq<Move>) returns (p: seq<nat>)
    requires Complete(x) && s < |x.tuples| && IsRun(x.c, x.tuples[s], ms)
    ensures IsPath(Result(x, start), s, p) && PathMoves(x, start, s, p) == ms
    decreases |ms|
  {
    if ms == [] {
      p := [];
    } else {
      var k := ArcOfMove(x, start, s, ms[0]);
      assert IsRun(x.c, x.tuples[x.arcs[s][k].nextstate], ms[1..]);
      hide Complete, Composes, IsRun, IsPath, PathMoves;
      var q := RunIsPath(x, start, x.arcs[s][k].nextstate, ms[1..]);
      PathMovesCons(x, start, s, k, q);
      p := [k] + q;
    }
  }

  lemma ArcOfMove<W>(x: Expansion<W>, start: int, s: nat, m: Move) returns (k: nat)
    requires Complete(x) && s < |x.tuples| && x.c.HasTuple(x.tuples[s]) && Enabled(x.c, x.tuples[s], m)
    ensures k < |x.moves[s]| && x.moves[s][k] == m
    ensures k < |Result(x, start).arcs[s]| && Composes(x.c, x.tuples, x.tuples[s], m, Result(x, start).arcs[s][k])
  {
    assert IsExpansion(x.c, x.tuples, x.tuples[s], x.moves[s], x.arcs[s]);
    k :| 0 <= k < |x.moves[s]| && x.moves[s][k] == m;
    ArcIsMove(x, start, s, k);
  }

  lemma PathMovesUncons<W>(x: Expansion<W>, start: int, s: nat, p: seq<nat>)
    requires Complete(x) && IsPath(Result(x, start), s, p) && p != []
    ensures s < |x.tuples| && p[0] < |x.moves[s]|
    ensures IsPath(Result(x, start), Result(x, start).arcs[s][p[0]].nextstate, p[1..])
    ensures PathMoves(x, start, s, p)
            == [x.moves[s][p[0]]] + PathMoves(x, start, Result(x, start).arcs[s][p[0]].nextstate, p[1..])
  {
    ArcIsMove(x, start, s, p[0]);
  }

  lemma ConsEqual<T>(a: T, s: seq<T>, b: T, t: seq<T>)
    requires [a] + s == [b] + t
    ensures a == b && s == t
  {
    assert ([a] + s)[0] == ([b] + t)[0];
    assert ([a] + s)[1..] == s && ([b] + t)[1..] == t;
  }

  /** Paths behind which there are the same moves begin with the same arc. */
  lemma PathMovesHead<W>(x: Expansion<W>, start: int, s: nat, p: seq<nat>, p': seq<nat>)
    requires Complete(x) && IsPath(Result(x, start), s, p) && IsPath(Result(x, start), s, p') && p != [] && p' != []
    requires PathMoves(x, start, s, p) == PathMoves(x, start, s, p')
    ensures p[0] == p'[0] && s < |Result(x, start).arcs| && p[0] < |Result(x, start).arcs[s]|
    ensures var s' := Result(x, start).arcs[s][p[0]].nextstate;
            && IsPath(Result(x, start), s', p[1..]) && IsPath(Result(x, start), s', p'[1..])
            && PathMoves(x, start, s', p[1..]) == PathMoves(x, start, s', p'[1..])
  {
    PathMovesUncons(x, start, s, p);
    PathMovesUncons(x, start, s, p');
    var f, ms := Result(x, start), x.moves[s];
    assert NoDuplicates(ms) by { assert IsExpansion(x.c, x.tuples, x.tuples[s], ms, x.arcs[s]); }
    hide PathMoves, Complete, ComposesAll, Result, IsPath;
    ConsEqual(ms[p[0]], PathMoves(x, start, f.arcs[s][p[0]].nextstate, p[1..]),
              ms[p'[0]], PathMoves(x, start, f.arcs[s][p'[0]].nextstate, p'[1..]));
  }

  lemma {:induction false} PathMovesInjective<W>(x: Expansion<W>, start: int, s: nat, p: seq<nat>, p': seq<nat>)
    requires Complete(x) && IsPath(Result(x, start), s, p) && IsPath(Result(x, start), s, p')
    requires PathMoves(x, start, s, p) == PathMoves(x, start, s, p')
    ensures p == p'
    decreases |p|
  {
    hide PathMoves, IsPath, Complete, Result;
    PathMovesEmpty(x, start, s, p);
    PathMovesEmpty(x, start, s, p');
    if p != [] && p' != [] {
      PathMovesHead(x, start, s, p, p');
      PathMovesInjective(x, start, Result(x, start).arcs[s][p[0]].nextstate, p[1..], p'[1..]);
      assert p == [p[0]] + p[1..] && p' == [p'[0]] + p'[1..];
    }
  }

  lemma PathMovesEmpty<W>(x: Expansion<W>, start: int, s: nat, p: seq<nat>)
    requires Complete(x) && IsPath(Result(x, start), s, p)
    ensures PathMoves(x, start, s, p) == [] <==> p == []
  {
  }

  // ------------------------------------------------------------ the theorem

  /** A path from the start whose end has a final weight other than zero. */
  ghost predicate Accepting<W>(sr: Semiring<W>, f: Fst<W>, p: seq<nat>) {
    && 0 <= f.start && IsPath(f, f.start, p)
    && PathEnd(f, f.start, p) < |f.finals| && f.finals[PathEnd(f, f.start, p)] != sr.zero
  }

  /** Weight of an accepting path, final weight included. */
  ghost function AcceptedWeight<W>(sr: Semiring<W>, f: Fst<W>, p: seq<nat>): W
    requires Accepting(sr, f, p)
  {
    sr.times(PathWeight(sr, f, f.start, p), f.finals[PathEnd(f, f.start, p)])
  }

  /** 'start' is what ComputeStart answered. */
  ghost predicate Started<W>(x: Expansion<W>, start: int) {
    && Complete(x)
    && x.c.fst1.start >= 0 && x.c.fst2.start >= 0
    && 0 <= start < |x.tuples| && x.tuples[start] == StartTuple(x.c)
  }

  /** The two paths that a composed path composes. */
  ghost function Components<W>(x: Expansion<W>, start: int, p: seq<nat>): (seq<nat>, seq<nat>)
    requires Started(x, start) && IsPath(Result(x, start), start, p)
  {
    (Proj1(PathMoves(x, start, start, p)), Proj2(PathMoves(x, start, start, p)))
  }

  /** Accepting paths that meet in the middle and whose final weights do not multiply to zero. */
  ghost predicate AcceptingPair<W>(c: Composition<W>, p1: seq<nat>, p2: seq<nat>) {
    && Accepting(c.sr, c.fst1, p1) && Accepting(c.sr, c.fst2, p2)
    && PathString(c.fst1, c.fst1.start, p1, false) == PathString(c.fst2, c.fst2.start, p2, true)
    && c.sr.times(c.fst1.finals[PathEnd(c.fst1, c.fst1.start, p1)],
                  c.fst2.finals[PathEnd(c.fst2, c.fst2.start, p2)]) != c.sr.zero
  }

  lemma FinalWeightIsProduct<W(!new)>(c: Composition<W>, t: StateTuple)
    requires c.HasTuple(t) && IsCommutative(c.sr)
    ensures FinalWeight(c, t) == c.sr.times(c.fst1.finals[t.s1], c.fst2.finals[t.s2])
    ensures FinalWeight(c, t) != c.sr.zero ==> c.fst1.finals[t.s1] != c.sr.zero && c.fst2.finals[t.s2] != c.sr.zero
  {
    var final1, final2 := c.fst1.finals[t.s1], c.fst2.finals[t.s2];
    assert c.sr.times(final1, final2) == c.sr.times(final2, final1);
  }

  /** Where a composed path ends is where its two components end. */
  lemma ComponentsEnd<W>(x: Expansion<W>, start: int, p: seq<nat>)
    requires Started(x, start) && IsPath(Result(x, start), start, p)
    ensures var f, c := Result(x, start), x.c;
            var (p1, p2) := Components(x, start, p);
            && Matching(c, c.fst1.start, c.fst2.start, p1, p2)
            && PathEnd(f, start, p) < |x.tuples| && c.HasTuple(x.tuples[PathEnd(f, start, p)])
            && x.tuples[PathEnd(f, start, p)].s1 == PathEnd(c.fst1, c.fst1.start, p1)
            && x.tuples[PathEnd(f, start, p)].s2 == PathEnd(c.fst2, c.fst2.start, p2)
  {
    PathIsRun(x, start, start, p);
    RunProjects(x.c, x.tuples[start], PathMoves(x, start, start, p));
  }

  /** Every accepting composed path composes an accepting pair; it reads what the first path
      reads and writes what the second writes. */
  lemma ComposedPathIsAcceptingPair<W(!new)>(x: Expansion<W>, start: int, p: seq<nat>)
    requires Started(x, start) && IsCommutative(x.c.sr)
    requires Accepting(x.c.sr, Result(x, start), p)
    ensures var f, c := Result(x, start), x.c;
            var (p1, p2) := Components(x, start, p);
            && AcceptingPair(c, p1, p2)
            && PathString(f, start, p, true) == PathString(c.fst1, c.fst1.start, p1, true)
            && PathString(f, start, p, false) == PathString(c.fst2, c.fst2.start, p2, false)
  {
    hide IsCommutative, IsPath, PathMoves, Proj1, Proj2;
    ComponentsEnd(x, start, p);
    FinalWeightIsProduct(x.c, x.tuples[PathEnd(Result(x, start), start, p)]);
    PathStrings(x, start, start, p);
  }

  /** An accepting composed path carries the product of the weights of the pair it composes. */
  lemma ComposedPathWeight<W(!new)>(x: Expansion<W>, start: int, p: seq<nat>)
    requires Started(x, start) && IsCommutative(x.c.sr)
    requires Accepting(x.c.sr, Result(x, start), p)
    ensures var f, c := Result(x, start), x.c;
            var (p1, p2) := Components(x, start, p);
            && AcceptingPair(c, p1, p2)
            && AcceptedWeight(c.sr, f, p)
               == c.sr.times(AcceptedWeight(c.sr, c.fst1, p1), AcceptedWeight(c.sr, c.fst2, p2))
  {
    ComposedPathIsAcceptingPair(x, start, p);
    hide IsCommutative, IsPath, PathMoves, Proj1, Proj2;
    ComponentsEnd(x, start, p);
    var c, f := x.c, Result(x, start);
    var (p1, p2) := Components(x, start, p);
    var e := x.tuples[PathEnd(f, start, p)];
    FinalWeightIsProduct(c, e);
    PathIsRun(x, start, start, p);
    RunWeightIsProduct(c, x.tuples[start], PathMoves(x, start, start, p));
    Exchange(c.sr, PathWeight(c.sr, c.fst1, c.fst1.start, p1), PathWeight(c.sr, c.fst2, c.fst2.start, p2),
             c.fst1.finals[e.s1], c.fst2.finals[e.s2]);
  }

  /** Every accepting pair is composed by exactly one accepting path, whichever filter is used. */
  lemma AcceptingPairIsComposedOnce<W(!new)>(x: Expansion<W>, start: int, p1: seq<nat>, p2: seq<nat>)
      returns (p: seq<nat>)
    requires Started(x, start) && IsCommutative(x.c.sr)
    requires AcceptingPair(x.c, p1, p2)
    ensures Accepting(x.c.sr, Result(x, start), p) && Components(x, start, p) == (p1, p2)
    ensures forall q :: Accepting(x.c.sr, Result(x, start), q) && Components(x, start, q) == (p1, p2) ==> q == p
  {
    var c, t := x.c, x.tuples[start];
    var ms := RunExists(c, t, p1, p2);
    RunProjects(c, t, ms);
    p := RunIsPath(x, start, start, ms);
    PathIsRun(x, start, start, p);
    forall q | Accepting(c.sr, Result(x, start), q) && Components(x, start, q) == (p1, p2)
      ensures q == p
    {
      SameComponents(x, start, p, q);
    }
  }

  /** A composed path is determined by the two paths that it composes. */
  lemma SameComponents<W>(x: Expansion<W>, start: int, p: seq<nat>, q: seq<nat>)
    requires Started(x, start) && IsPath(Result(x, start), start, p) && IsPath(Result(x, start), start, q)
    requires Components(x, start, p) == Components(x, start, q)
    ensures p == q
  {
    hide PathMoves, IsPath, Result, IsRun, Proj1, Proj2, CacheOk, TableOk;
    PathIsRun(x, start, start, p);
    PathIsRun(x, start, start, q);
    RunUnique(x.c, x.tuples[start], PathMoves(x, start, start, p), PathMoves(x, start, start, q));
    PathMovesInjective(x, start, start, p, q);
  }

  /** An implementation object that has expanded every state it has met holds a complete expansion. */
  lemma ExpandedIsComplete<W>(impl: ComposeFstImpl<W>)
    requires impl.Valid() && forall s :: 0 <= s < |impl.tuples| ==> s in impl.arcs
    ensures Complete(Expansion(impl.c, impl.tuples, impl.arcs, impl.moves))
  {
  }

  // ------------------------------------------------------------ either side may be matched on

  /** A composed arc with its target spelled out, so that state numbers do not matter. */
  datatype Labelled<+W> = Labelled(ilabel: int, olabel: int, weight: W, target: StateTuple)

  ghost function Describe<W>(c: Composition<W>, t: StateTuple, ms: seq<Move>): seq<Labelled<W>>
    requires c.HasTuple(t) && forall k :: 0 <= k < |ms| ==> Enabled(c, t, ms[k])
  {
    if ms == [] then []
    else Describe(c, t, ms[..|ms| - 1]) + [DescribeMove(c, t, ms[|ms| - 1])]
  }

  ghost function DescribeMove<W>(c: Composition<W>, t: StateTuple, m: Move): Labelled<W>
    requires c.HasTuple(t) && Enabled(c, t, m)
  {
    Labelled(Arc1(c, t, m).ilabel, Arc2(c, t, m).olabel, ArcWeight(c, t, m), Next(c, t, m))
  }

  ghost function DescribeArcs<W>(tuples: seq<StateTuple>, arcs: seq<Arc<W>>): seq<Labelled<W>>
    requires forall k :: 0 <= k < |arcs| ==> arcs[k].nextstate < |tuples|
  {
    seq(|arcs|, k requires 0 <= k < |arcs| =>
      Labelled(arcs[k].ilabel, arcs[k].olabel, arcs[k].weight, tuples[arcs[k].nextstate]))
  }

  lemma {:induction false} ArcsDescribeMoves<W>(c: Composition<W>, tuples: seq<StateTuple>, t: StateTuple,
                                                ms: seq<Move>, arcs: seq<Arc<W>>)
    requires c.HasTuple(t) && ComposesAll(c, tuples, t, ms, arcs)
    ensures forall k :: 0 <= k < |ms| ==> Enabled(c, t, ms[k]) && arcs[k].nextstate < |tuples|
    ensures DescribeArcs(tuples, arcs) == Describe(c, t, ms)
  {
    forall k | 0 <= k < |ms| ensures Composes(c, tuples, t, ms[k], arcs[k]) {}
    if ms != [] {
      var n := |ms| - 1;
      ArcsDescribeMoves(c, tuples, t, ms[..n], arcs[..n]);
      assert DescribeArcs(tuples, arcs) == DescribeArcs(tuples, arcs[..n]) + [DescribeMove(c, t, ms[n])];
    }
  }

  /** Two listings of the same moves describe the same arcs, each as often. */
  lemma {:induction false} SameMovesSameArcs<W>(c: Composition<W>, t: StateTuple, ms: seq<Move>, ms': seq<Move>)
    requires c.HasTuple(t)
    requires NoDuplicates(ms) && NoDuplicates(ms')
    requires forall m :: m in ms <==> m in ms'
    requires forall m :: m in ms ==> Enabled(c, t, m)
    ensures multiset(Describe(c, t, ms)) == multiset(Describe(c, t, ms'))
    decreases |ms|
  {
    if ms == [] {
      if ms' != [] {
        HeadIsIn(ms');
        assert false;
      }
    } else {
      var last := ms[|ms| - 1];
      assert last in ms';
      var k: nat :| k < |ms'| && ms'[k] == last;
      SameElements(ms, ms', k);
      SameMovesSameArcs(c, t, ms[..|ms| - 1], ms'[..k] + ms'[k + 1..]);
      DescribeWithout(c, t, ms', k);
    }
  }

  lemma HeadIsIn<T>(s: seq<T>)
    requires s != []
    ensures s[0] in s
  {
  }

  lemma RemoveMiddle<T>(s: seq<T>, k: nat)
    requires k < |s| - 1
    ensures var n := |s| - 1;
            var rest := s[..n][..k] + s[..n][k + 1..];
            s[..k] + s[k + 1..] == rest + [s[n]] && (s[..k] + s[k + 1..])[..|s| - 2] == rest
  {
    var n := |s| - 1;
    assert s[..n][..k] == s[..k];
    assert s[k + 1..] == s[..n][k + 1..] + [s[n]];
  }

  lemma SameElements<T>(s: seq<T>, s': seq<T>, k: nat)
    requires s != [] && NoDuplicates(s) && NoDuplicates(s') && (forall m :: m in s <==> m in s')
    requires k < |s'| && s'[k] == s[|s| - 1]
    ensures var rest, rest' := s[..|s| - 1], s'[..k] + s'[k + 1..];
            NoDuplicates(rest) && NoDuplicates(rest') && forall m :: m in rest <==> m in rest'
  {
    var rest, rest', last := s[..|s| - 1], s'[..k] + s'[k + 1..], s[|s| - 1];
    assert forall m :: m in rest <==> m in s && m != last;
    forall i | 0 <= i < |rest'| ensures rest'[i] == s'[if i < k then i else i + 1] {}
    assert forall m :: m in rest' <==> m in s' && m != last by {
      forall m | m in s' && m != last ensures m in rest' {
        var i :| 0 <= i < |s'| && s'[i] == m;
        assert rest'[if i < k then i else i - 1] == m;
      }
    }
  }

  lemma {:induction false} DescribeWithout<W>(c: Composition<W>, t: StateTuple, ms: seq<Move>, k: nat)
    requires c.HasTuple(t) && k < |ms| && forall i :: 0 <= i < |ms| ==> Enabled(c, t, ms[i])
    ensures var rest := ms[..k] + ms[k + 1..];
            && (forall i :: 0 <= i < |rest| ==> Enabled(c, t, rest[i]))
            && multiset(Describe(c, t, ms)) == multiset(Describe(c, t, rest)) + multiset{DescribeMove(c, t, ms[k])}
    decreases |ms|
  {
    hide Describe, DescribeMove, Enabled, Candidate;
    var n := |ms| - 1;
    var rest := ms[..k] + ms[k + 1..];
    if k == n {
      assert rest == ms[..n];
      DescribeLast(c, t, ms);
    } else {
      var rest' := ms[..n][..k] + ms[..n][k + 1..];
      DescribeWithout(c, t, ms[..n], k);
      RemoveMiddle(ms, k);
      assert ms[k] == ms[..n][k] && rest[|rest| - 1] == ms[n] && rest[..|rest| - 1] == rest';
      RestEnabled(c, t, ms, rest', rest);
      DescribeLast(c, t, ms);
      DescribeLast(c, t, rest);
    }
  }

  lemma RestEnabled<W>(c: Composition<W>, t: StateTuple, ms: seq<Move>, rest': seq<Move>, rest: seq<Move>)
    requires c.HasTuple(t) && ms != [] && rest == rest' + [ms[|ms| - 1]]
    requires (forall i :: 0 <= i < |ms| ==> Enabled(c, t, ms[i])) && forall i :: 0 <= i < |rest'| ==> Enabled(c, t, rest'[i])
    ensures forall i :: 0 <= i < |rest| ==> Enabled(c, t, rest[i])
  {
    hide Enabled;
  }

  lemma DescribeLast<W>(c: Composition<W>, t: StateTuple, ms: seq<Move>)
    requires c.HasTuple(t) && ms != [] && forall i :: 0 <= i < |ms| ==> Enabled(c, t, ms[i])
    ensures var n := |ms| - 1;
            multiset(Describe(c, t, ms)) == multiset(Describe(c, t, ms[..n])) + multiset{DescribeMove(c, t, ms[n])}
  {
    hide DescribeMove, Enabled;
  }

  /** Matching on FST1's output and on FST2's input give the same arcs, each as often. */
  lemma ExpansionIsIndependentOfSide<W>(c: Composition<W>, t: StateTuple,
      tuples: seq<StateTuple>, ms: seq<Move>, arcs: seq<Arc<W>>,
      tuples': seq<StateTuple>, ms': seq<Move>, arcs': seq<Arc<W>>)
    requires IsExpansion(c, tuples, t, ms, arcs) && IsExpansion(c, tuples', t, ms', arcs')
    ensures forall k :: 0 <= k < |arcs| ==> arcs[k].nextstate < |tuples|
    ensures forall k :: 0 <= k < |arcs'| ==> arcs'[k].nextstate < |tuples'|
    ensures multiset(DescribeArcs(tuples, arcs)) == multiset(DescribeArcs(tuples', arcs'))
  {
    ArcsDescribeMoves(c, tuples, t, ms, arcs);
    ArcsDescribeMoves(c, tuples', t, ms', arcs');
    SameMovesSameArcs(c, t, ms, ms');
  }
}
