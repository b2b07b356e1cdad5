/** On-demand composition: the state table, the filter object, and Expand, which walks the
arcs of one side and asks the matcher of the other side for each of them.
*/
module ComposeFst {
  import opened Fst
  import opened Matcher
  import opened Compose
  import opened FiniteSets

  datatype MatchType = MatchOnInput | MatchOnOutput | MatchOnBoth

  class ComposeFilter<W(==)> {
    const c: Composition<W>
    var s1: int
    var s2: int
    var fs: int
    var flags: Flags

    constructor (c: Composition<W>)
      ensures this.c == c && Valid()
    {
      this.c := c;
      s1, s2, fs := NO_STATE_ID, NO_STATE_ID, NO_STATE_ID;
      flags := Flags(false, false, false, false);
    }

    /** Each filter keeps only the flags it consults. */
    ghost predicate Valid()
      reads this
    {
      s1 >= 0 && s2 >= 0 ==>
        && c.HasTuple(StateTuple(s1, s2, fs))
        && var want := ComputeFlags(c, s1, s2);
        && (c.kind != AltSequence ==> flags.alleps1 == want.alleps1 && flags.noeps1 == want.noeps1)
        && (c.kind != Sequence ==> flags.alleps2 == want.alleps2 && flags.noeps2 == want.noeps2)
    }

    ghost predicate At(t: StateTuple)
      reads this
    {
      Valid() && s1 == t.s1 && s2 == t.s2 && fs == t.fs
    }

    method SetState(t: StateTuple)
      requires Valid() && c.HasTuple(t)
      modifies this
      ensures At(t)
    {
      if s1 == t.s1 && s2 == t.s2 && fs == t.fs { return; }
      s1, s2, fs := t.s1, t.s2, t.fs;
      if c.kind != AltSequence {
        var na1, ne1 := |c.fst1.arcs[t.s1]|, CountEpsilons(c.fst1.arcs[t.s1], false);
        var fin1 := c.fst1.finals[t.s1] != c.sr.zero;
        flags := flags.(alleps1 := na1 == ne1 && !fin1, noeps1 := ne1 == 0);
      }
      if c.kind != Sequence {
        var na2, ne2 := |c.fst2.arcs[t.s2]|, CountEpsilons(c.fst2.arcs[t.s2], true);
        var fin2 := c.fst2.finals[t.s2] != c.sr.zero;
        flags := flags.(alleps2 := na2 == ne2 && !fin2, noeps2 := ne2 == 0);
      }
    }

    method Filter(ghost t: StateTuple, arc1: Arc<W>, arc2: Arc<W>) returns (fs': int)
      requires At(t)
      ensures c.HasTuple(t)
      ensures fs' == FilterArc(c.kind, ComputeFlags(c, t.s1, t.s2), t.fs, arc1.olabel, arc2.ilabel)
    {
      fs' := FilterArc(c.kind, flags, fs, arc1.olabel, arc2.ilabel);
    }
  }

  // ------------------------------------------------------------ the order of expansion

  /** Position of a move's arc on the side that is walked, -1 for the implicit loop. */
  function WalkedIndex(m: Move, matchInput: bool): int {
    match m
    case Left(i) => if matchInput then i else -1
    case Right(j) => if matchInput then -1 else j
    case Both(i, j) => if matchInput then i else j
  }

  /** Position of a move's arc on the side that is matched, -1 for the implicit loop. */
  function MatchedIndex(m: Move, matchInput: bool): int {
    match m
    case Left(i) => if matchInput then -1 else i
    case Right(j) => if matchInput then j else -1
    case Both(i, j) => if matchInput then j else i
  }

  function MoveAt(matchInput: bool, b: int, a: int): Move
    requires b >= -1 && a >= -1 && (b >= 0 || a >= 0)
  {
    if b == -1 then (if matchInput then Right(a) else Left(a))
    else if a == -1 then (if matchInput then Left(b) else Right(b))
    else if matchInput then Both(b, a) else Both(a, b)
  }

  predicate Before(m: Move, matchInput: bool, b: int, a: int) {
    WalkedIndex(m, matchInput) < b || (WalkedIndex(m, matchInput) == b && MatchedIndex(m, matchInput) < a)
  }

  function WalkedArcs<W>(c: Composition<W>, t: StateTuple, matchInput: bool): seq<Arc<W>>
    requires c.HasTuple(t)
  {
    if matchInput then c.fst1.arcs[t.s1] else c.fst2.arcs[t.s2]
  }

  function MatchedArcs<W>(c: Composition<W>, t: StateTuple, matchInput: bool): seq<Arc<W>>
    requires c.HasTuple(t)
  {
    if matchInput then c.fst2.arcs[t.s2] else c.fst1.arcs[t.s1]
  }

  /** The arc walked at position 'b'; position -1 is the loop that OrderedExpand makes. */
  function WalkedArc<W>(c: Composition<W>, t: StateTuple, matchInput: bool, b: int): Arc<W>
    requires c.HasTuple(t) && -1 <= b < |WalkedArcs(c, t, matchInput)|
  {
    if b >= 0 then WalkedArcs(c, t, matchInput)[b]
    else ImplicitLoop(!matchInput, c.sr.one, if matchInput then t.s1 else t.s2)
  }

  function MatchedArc<W>(c: Composition<W>, t: StateTuple, matchInput: bool, a: int): Arc<W>
    requires c.HasTuple(t) && -1 <= a < |MatchedArcs(c, t, matchInput)|
  {
    if a >= 0 then MatchedArcs(c, t, matchInput)[a]
    else ImplicitLoop(matchInput, c.sr.one, if matchInput then t.s2 else t.s1)
  }

  /** The label that the walked arc asks the matcher for. */
  function WalkedLabel<W>(c: Composition<W>, t: StateTuple, matchInput: bool, b: int): int
    requires c.HasTuple(t) && -1 <= b < |WalkedArcs(c, t, matchInput)|
  {
    MatchLabel(WalkedArc(c, t, matchInput, b), !matchInput)
  }

  /** Does the matcher, asked for the label of walked arc 'b', present matched arc 'a'? */
  predicate Presents<W>(c: Composition<W>, t: StateTuple, matchInput: bool, b: int, a: int)
    requires c.HasTuple(t) && -1 <= b < |WalkedArcs(c, t, matchInput)|
  {
    && -1 <= a < |MatchedArcs(c, t, matchInput)|
    && var l := WalkedLabel(c, t, matchInput, b);
       if a == -1 then l == EPSILON
       else MatchLabel(MatchedArcs(c, t, matchInput)[a], matchInput) == if l == NO_LABEL then EPSILON else l
  }

  /** The moves are what the matcher presents, whichever side is walked. */
  lemma CandidateIsPresented<W>(c: Composition<W>, t: StateTuple, matchInput: bool, m: Move)
    requires c.Valid() && c.HasTuple(t) && Candidate(c, t, m)
    ensures var b, a := WalkedIndex(m, matchInput), MatchedIndex(m, matchInput);
            && -1 <= b < |WalkedArcs(c, t, matchInput)| && Presents(c, t, matchInput, b, a)
            && m == MoveAt(matchInput, b, a)
  {
  }

  lemma PresentedIsCandidate<W>(c: Composition<W>, t: StateTuple, matchInput: bool, b: int, a: int)
    requires c.Valid() && c.HasTuple(t)
    requires -1 <= b < |WalkedArcs(c, t, matchInput)| && Presents(c, t, matchInput, b, a)
    ensures b >= 0 || a >= 0
    ensures var m := MoveAt(matchInput, b, a);
            && Candidate(c, t, m) && WalkedIndex(m, matchInput) == b && MatchedIndex(m, matchInput) == a
            && Arc1(c, t, m) == (if matchInput then WalkedArc(c, t, matchInput, b) else MatchedArc(c, t, matchInput, a))
            && Arc2(c, t, m) == (if matchInput then MatchedArc(c, t, matchInput, a) else WalkedArc(c, t, matchInput, b))
  {
  }

  // ------------------------------------------------------------ what an expansion is

  ghost predicate NoDuplicates<T>(s: seq<T>) {
    forall i, j :: 0 <= i < j < |s| ==> s[i] != s[j]
  }

  /** 'arc' is the composed arc of move 'm', its target numbered by the state table. */
  ghost predicate Composes<W>(c: Composition<W>, tuples: seq<StateTuple>, t: StateTuple, m: Move, arc: Arc<W>) {
    && c.HasTuple(t) && Enabled(c, t, m)
    && arc.ilabel == Arc1(c, t, m).ilabel
    && arc.olabel == Arc2(c, t, m).olabel
    && arc.weight == ArcWeight(c, t, m)
    && arc.nextstate < |tuples| && tuples[arc.nextstate] == Next(c, t, m)
  }

  ghost predicate ComposesAll<W>(c: Composition<W>, tuples: seq<StateTuple>, t: StateTuple,
                                 ms: seq<Move>, arcs: seq<Arc<W>>) {
    |ms| == |arcs| && forall k :: 0 <= k < |ms| ==> Composes(c, tuples, t, ms[k], arcs[k])
  }

  /** 'ms' lists the enabled moves before position (b, a), each once, in the order of expansion. */
  ghost predicate ListsBefore<W>(c: Composition<W>, t: StateTuple, matchInput: bool, b: int, a: int, ms: seq<Move>)
    requires c.HasTuple(t)
  {
    && NoDuplicates(ms)
    && forall m :: m in ms <==> Enabled(c, t, m) && Before(m, matchInput, b, a)
  }

  /** 'arcs' are the composed arcs out of tuple 't': one for each enabled move. */
  ghost predicate IsExpansion<W>(c: Composition<W>, tuples: seq<StateTuple>, t: StateTuple,
                                 ms: seq<Move>, arcs: seq<Arc<W>>) {
    && c.HasTuple(t) && ComposesAll(c, tuples, t, ms, arcs)
    && NoDuplicates(ms)
    && forall m :: m in ms <==> Enabled(c, t, m)
  }

  ghost predicate TableOk<W>(c: Composition<W>, tuples: seq<StateTuple>) {
    NoDuplicates(tuples) && forall s :: 0 <= s < |tuples| ==> c.HasTuple(tuples[s]) && 0 <= tuples[s].fs <= 2
  }

  lemma FilterRange(kind: FilterKind, flags: Flags, fs: int, olabel1: int, ilabel2: int)
    ensures NO_FILTER_STATE <= FilterArc(kind, flags, fs, olabel1, ilabel2) <= 2
  {
  }

  /** A number for each tuple. */
  function Code<W>(c: Composition<W>, t: StateTuple): int {
    t.s1 + |c.fst1.arcs| * (t.s2 + |c.fst2.arcs| * t.fs)
  }

  lemma Digits(q: int, r: int, q': int, r': int, n: nat)
    requires 0 <= r < n && 0 <= r' < n && r + n * q == r' + n * q'
    ensures q == q' && r == r'
  {
    var k := q' - q;
    assert n * q' == n * q + n * k;
    Multiple(n, k);
  }

  lemma Multiple(n: nat, k: int)
    ensures k >= 1 ==> n * k >= n
    ensures k <= -1 ==> n * k + n <= 0
    ensures k == 0 ==> n * k == 0
  {
  }

  lemma Below(q: int, r: int, n: nat, m: nat)
    requires 0 <= r < n && 0 <= q < m
    ensures 0 <= r + n * q < n * m
  {
    assert n * (q + 1) <= n * m;
  }

  /** There are at most three states for each pair of states. */
  lemma TableIsFinite<W>(c: Composition<W>, tuples: seq<StateTuple>)
    requires TableOk(c, tuples)
    ensures |tuples| <= |c.fst1.arcs| * (|c.fst2.arcs| * 3)
  {
    var n1, n2 := |c.fst1.arcs|, |c.fst2.arcs|;
    var codes := seq(|tuples|, s requires 0 <= s < |tuples| => Code(c, tuples[s]));
    forall s | 0 <= s < |codes| ensures 0 <= codes[s] < n1 * (n2 * 3) {
      Below(tuples[s].fs, tuples[s].s2, n2, 3);
      Below(tuples[s].s2 + n2 * tuples[s].fs, tuples[s].s1, n1, n2 * 3);
    }
    forall s, s' | 0 <= s < s' < |codes| ensures codes[s] != codes[s'] {
      var t, t' := tuples[s], tuples[s'];
      if codes[s] == codes[s'] {
        Digits(t.s2 + n2 * t.fs, t.s1, t'.s2 + n2 * t'.fs, t'.s1, n1);
        Digits(t.fs, t.s2, t'.fs, t'.s2, n2);
      }
    }
    FewBelow(codes, n1 * (n2 * 3));
  }

  lemma ComposesAllGrows<W>(c: Composition<W>, tuples: seq<StateTuple>, tuples': seq<StateTuple>, t: StateTuple,
                            ms: seq<Move>, arcs: seq<Arc<W>>)
    requires tuples <= tuples' && ComposesAll(c, tuples, t, ms, arcs)
    ensures ComposesAll(c, tuples', t, ms, arcs)
  {
    forall k | 0 <= k < |ms| ensures Composes(c, tuples', t, ms[k], arcs[k]) {
      assert Composes(c, tuples, t, ms[k], arcs[k]);
    }
  }

  /** Positions that the matcher does not present are skipped. */
  lemma SkipTo<W>(c: Composition<W>, t: StateTuple, matchInput: bool, b: int, a: int, a': int, ms: seq<Move>)
    requires c.Valid() && c.HasTuple(t) && -1 <= b < |WalkedArcs(c, t, matchInput)| && a <= a'
    requires ListsBefore(c, t, matchInput, b, a, ms)
    requires forall x :: a <= x < a' ==> !Presents(c, t, matchInput, b, x)
    ensures ListsBefore(c, t, matchInput, b, a', ms)
  {
    forall m | Enabled(c, t, m) && Before(m, matchInput, b, a')
      ensures Before(m, matchInput, b, a)
    {
      CandidateIsPresented(c, t, matchInput, m);
    }
  }

  lemma SkipToNextWalked<W>(c: Composition<W>, t: StateTuple, matchInput: bool, b: int, a: int, ms: seq<Move>)
    requires c.Valid() && c.HasTuple(t) && -1 <= b < |WalkedArcs(c, t, matchInput)|
    requires ListsBefore(c, t, matchInput, b, a, ms)
    requires forall x :: a <= x ==> !Presents(c, t, matchInput, b, x)
    ensures ListsBefore(c, t, matchInput, b + 1, -1, ms)
  {
    forall m | Enabled(c, t, m)
      ensures Before(m, matchInput, b, a) == Before(m, matchInput, b + 1, -1)
    {
      CandidateIsPresented(c, t, matchInput, m);
    }
  }

  /** A presented pair of arcs is one move, which the filter admits or not. */
  lemma StepOver<W>(c: Composition<W>, t: StateTuple, matchInput: bool, b: int, a: int, ms: seq<Move>)
    requires c.Valid() && c.HasTuple(t) && -1 <= b < |WalkedArcs(c, t, matchInput)|
    requires ListsBefore(c, t, matchInput, b, a, ms)
    requires Presents(c, t, matchInput, b, a)
    ensures b >= 0 || a >= 0
    ensures var m := MoveAt(matchInput, b, a);
            ListsBefore(c, t, matchInput, b, a + 1, if Enabled(c, t, m) then ms + [m] else ms)
  {
    PresentedIsCandidate(c, t, matchInput, b, a);
    var m := MoveAt(matchInput, b, a);
    forall m' | Enabled(c, t, m') && Before(m', matchInput, b, a + 1) && m' != m
      ensures Before(m', matchInput, b, a)
    {
      CandidateIsPresented(c, t, matchInput, m');
    }
    assert m !in ms;
  }

  lemma NothingListedYet<W>(c: Composition<W>, t: StateTuple, matchInput: bool)
    requires c.Valid() && c.HasTuple(t)
    ensures ListsBefore(c, t, matchInput, -1, -1, [])
  {
    forall m | Enabled(c, t, m) ensures !Before(m, matchInput, -1, -1) {
      CandidateIsPresented(c, t, matchInput, m);
    }
  }

  lemma AllListed<W>(c: Composition<W>, t: StateTuple, matchInput: bool, ms: seq<Move>)
    requires c.Valid() && c.HasTuple(t)
    requires ListsBefore(c, t, matchInput, |WalkedArcs(c, t, matchInput)|, -1, ms)
    ensures forall m :: m in ms <==> Enabled(c, t, m)
  {
    forall m | Enabled(c, t, m)
      ensures Before(m, matchInput, |WalkedArcs(c, t, matchInput)|, -1)
    {
      CandidateIsPresented(c, t, matchInput, m);
    }
  }

  /** The label the matcher looks for when it is asked for that of walked arc 'b'. */
  function AskedLabel<W>(c: Composition<W>, t: StateTuple, matchInput: bool, b: int): int
    requires c.HasTuple(t) && -1 <= b < |WalkedArcs(c, t, matchInput)|
  {
    var l := WalkedLabel(c, t, matchInput, b);
    if l == NO_LABEL then EPSILON else l
  }

  lemma NotPresentedBelow<W>(c: Composition<W>, t: StateTuple, matchInput: bool, b: int, lo: int)
    requires c.HasTuple(t) && -1 <= b < |WalkedArcs(c, t, matchInput)|
    requires IsLowerBound(MatchedArcs(c, t, matchInput), matchInput, AskedLabel(c, t, matchInput, b), lo)
    ensures forall x :: 0 <= x < lo ==> !Presents(c, t, matchInput, b, x)
    ensures WalkedLabel(c, t, matchInput, b) != EPSILON ==> !Presents(c, t, matchInput, b, -1)
  {
  }

  lemma NotPresentedAbove<W>(c: Composition<W>, t: StateTuple, matchInput: bool, b: int, lo: int, a: int)
    requires c.HasTuple(t) && -1 <= b < |WalkedArcs(c, t, matchInput)|
    requires var arcs := MatchedArcs(c, t, matchInput);
             && Sorted(arcs, matchInput)
             && IsLowerBound(arcs, matchInput, AskedLabel(c, t, matchInput, b), lo)
             && 0 <= lo <= a <= |arcs|
             && (a < |arcs| ==> MatchLabel(arcs[a], matchInput) != AskedLabel(c, t, matchInput, b))
    ensures forall x :: a <= x ==> !Presents(c, t, matchInput, b, x)
  {
    var arcs := MatchedArcs(c, t, matchInput);
    forall x | a <= x < |arcs| ensures !Presents(c, t, matchInput, b, x) {
      assert MatchLabel(arcs[a], matchInput) <= MatchLabel(arcs[x], matchInput);
    }
  }

  lemma NothingPresented<W>(c: Composition<W>, t: StateTuple, matchInput: bool, b: int)
    requires c.HasTuple(t) && -1 <= b < |WalkedArcs(c, t, matchInput)|
    requires WalkedLabel(c, t, matchInput, b) != EPSILON
    requires !HasLabel(MatchedArcs(c, t, matchInput), matchInput, AskedLabel(c, t, matchInput, b))
    ensures forall x :: -1 <= x ==> !Presents(c, t, matchInput, b, x)
  {
  }

  lemma PresentsValue<W>(c: Composition<W>, t: StateTuple, matchInput: bool, b: int, a: int)
    requires c.HasTuple(t) && -1 <= b < |WalkedArcs(c, t, matchInput)|
    requires -1 <= a < |MatchedArcs(c, t, matchInput)|
    requires a == -1 ==> WalkedLabel(c, t, matchInput, b) == EPSILON
    requires a >= 0 ==> MatchLabel(MatchedArcs(c, t, matchInput)[a], matchInput) == AskedLabel(c, t, matchInput, b)
    ensures Presents(c, t, matchInput, b, a)
  {
  }

  // ------------------------------------------------------------ the implementation

  class ComposeFstImpl<W(==)> {
    const c: Composition<W>
    const matchType: MatchType
    const filter: ComposeFilter<W>
    const matcher1: SortedMatcher<W>
    const matcher2: SortedMatcher<W>

    var tuples: seq<StateTuple>             // state table: the tuple of each state
    var arcs: map<nat, seq<Arc<W>>>         // cache: the arcs of the expanded states
    var pushed: seq<Arc<W>>                 // arcs pushed for the state being expanded
    ghost var moves: map<nat, seq<Move>>    // the move of each cached arc
    ghost var pushedMoves: seq<Move>

    constructor (c: Composition<W>, matchType: MatchType, binaryLabel: int)
      requires c.Valid() && SidesSorted(c, matchType)
      ensures this.c == c && this.matchType == matchType && Valid() && fresh(Repr())
      ensures tuples == [] && arcs == map[]
    {
      this.c, this.matchType := c, matchType;
      filter := new ComposeFilter<W>(c);
      matcher1 := new SortedMatcher<W>(c.fst1, false, c.sr.one, binaryLabel);
      matcher2 := new SortedMatcher<W>(c.fst2, true, c.sr.one, binaryLabel);
      tuples, arcs, pushed := [], map[], [];
      moves, pushedMoves := map[], [];
    }

    ghost function Repr(): set<object>
    {
      {this, filter, matcher1, matcher2}
    }

    ghost predicate PartsValid()
      reads Repr()
    {
      && c.Valid() && SidesSorted(c, matchType)
      && filter.c == c && filter.Valid()
      && matcher1 != matcher2
      && matcher1.fst == c.fst1 && !matcher1.input && matcher1.one == c.sr.one && matcher1.Valid()
      && matcher2.fst == c.fst2 && matcher2.input && matcher2.one == c.sr.one && matcher2.Valid()
    }

    ghost predicate Valid()
      reads Repr()
    {
      && PartsValid()
      && TableOk(c, tuples)
      && CacheOk(c, tuples, arcs, moves)
    }

    method FindState(t: StateTuple) returns (s: nat)
      requires TableOk(c, tuples) && c.HasTuple(t) && 0 <= t.fs <= 2
      modifies this`tuples
      ensures TableOk(c, tuples) && old(tuples) <= tuples
      ensures s < |tuples| && tuples[s] == t
      ensures t in old(tuples) ==> tuples == old(tuples)
    {
      s := 0;
      while s < |tuples|
        invariant s <= |tuples|
        invariant t !in tuples[..s]
      {
        if tuples[s] == t { return; }
        s := s + 1;
      }
      tuples := tuples + [t];
    }

    method ComputeStart() returns (s: int)
      requires Valid()
      modifies this`tuples
      ensures Valid() && old(tuples) <= tuples
      ensures s == NO_STATE_ID <==> c.fst1.start == NO_STATE_ID || c.fst2.start == NO_STATE_ID
      ensures s != NO_STATE_ID ==> 0 <= s < |tuples| && tuples[s] == StartTuple(c)
    {
      if c.fst1.start == NO_STATE_ID { return NO_STATE_ID; }
      if c.fst2.start == NO_STATE_ID { return NO_STATE_ID; }
      s := FindState(StateTuple(c.fst1.start, c.fst2.start, 0));
      CacheOkGrows(c, old(tuples), tuples, arcs, moves);
    }

    method ComputeFinal(s: nat) returns (w: W)
      requires Valid() && s < |tuples|
      modifies filter
      ensures Valid()
      ensures w == FinalWeight(c, tuples[s])
    {
      var t := tuples[s];
      var final1 := c.fst1.finals[t.s1];
      if final1 == c.sr.zero { return final1; }
      var final2 := c.fst2.finals[t.s2];
      if final2 == c.sr.zero { return final2; }
      filter.SetState(t);
      w := c.sr.times(final1, final2);
    }

    /** Which side to match on. */
    function MatchInput(s1: nat, s2: nat): bool
      requires s1 < |c.fst1.arcs| && s2 < |c.fst2.arcs|
    {
      match matchType
      case MatchOnInput => true
      case MatchOnOutput => false
      case MatchOnBoth => |c.fst1.arcs[s1]| <= |c.fst2.arcs[s2]|
    }

    /** The state of an expansion of tuple 't' that stands before position (b, a). */
    ghost predicate Expanding(t: StateTuple, matchInput: bool, b: int, a: int)
      reads Repr()
    {
      && PartsValid() && TableOk(c, tuples) && c.HasTuple(t) && filter.At(t)
      && (if matchInput then matcher2.ValidAt() && matcher2.state == t.s2
          else matcher1.ValidAt() && matcher1.state == t.s1)
      && Sorted(MatchedArcs(c, t, matchInput), matchInput)
      && ComposesAll(c, tuples, t, pushedMoves, pushed)
      && ListsBefore(c, t, matchInput, b, a, pushedMoves)
    }

    method Expand(s: nat)
      requires Valid() && s < |tuples|
      modifies Repr()
      ensures Valid() && old(tuples) <= tuples
      ensures arcs.Keys == old(arcs.Keys) + {s}
      ensures forall r :: r in old(arcs) && r != s ==> arcs[r] == old(arcs)[r]
    {
      hide CacheOk, IsExpansion;
      var t := tuples[s];
      filter.SetState(t);
      var matchInput := MatchInput(t.s1, t.s2);
      if matchInput {
        matcher2.SetState(t.s2);
      } else {
        matcher1.SetState(t.s1);
      }
      OrderedExpand(t, matchInput);
      CacheOkGrows(c, old(tuples), tuples, arcs, moves);
      CacheOkAdd(c, tuples, arcs, moves, s, pushedMoves, pushed);
      arcs, moves := arcs[s := pushed], moves[s := pushedMoves];
    }

    /** Expands every state, also those that turn up on the way. */
    method ExpandAll()
      requires Valid()
      modifies Repr()
      ensures Valid() && old(tuples) <= tuples
      ensures forall s :: 0 <= s < |tuples| ==> s in arcs
      ensures forall s :: s in old(arcs) ==> s in arcs && arcs[s] == old(arcs)[s]
    {
      hide CacheOk, IsExpansion, TableOk, Code;
      var s := 0;
      TableIsFinite(c, tuples);
      while s < |tuples|
        invariant s <= |tuples| <= |c.fst1.arcs| * (|c.fst2.arcs| * 3)
        invariant Valid() && old(tuples) <= tuples
        invariant forall r :: 0 <= r < s ==> r in arcs
        invariant forall r :: r in old(arcs) ==> r in arcs && arcs[r] == old(arcs)[r]
        decreases |c.fst1.arcs| * (|c.fst2.arcs| * 3) - s
      {
        if s !in arcs { Expand(s); }
        TableIsFinite(c, tuples);
        s := s + 1;
      }
    }

    method OrderedExpand(t: StateTuple, matchInput: bool)
      requires PartsValid() && TableOk(c, tuples) && c.HasTuple(t) && filter.At(t)
      requires if matchInput then matcher2.ValidAt() && matcher2.state == t.s2
               else matcher1.ValidAt() && matcher1.state == t.s1
      requires Sorted(MatchedArcs(c, t, matchInput), matchInput)
      modifies this`tuples, this`pushed, this`pushedMoves, matcher1, matcher2
      ensures PartsValid() && TableOk(c, tuples) && old(tuples) <= tuples
      ensures IsExpansion(c, tuples, t, pushedMoves, pushed)
    {
      pushed, pushedMoves := [], [];
      NothingListedYet(c, t, matchInput);
      MatchArc(t, matchInput, ImplicitLoop(!matchInput, c.sr.one, if matchInput then t.s1 else t.s2), -1);
      var walked := WalkedArcs(c, t, matchInput);
      var b := 0;
      while b < |walked|
        invariant 0 <= b <= |walked|
        invariant Expanding(t, matchInput, b, -1) && old(tuples) <= tuples
      {
        MatchArc(t, matchInput, walked[b], b);
        b := b + 1;
      }
      AllListed(c, t, matchInput, pushedMoves);
    }

    method MatchArc(t: StateTuple, matchInput: bool, arc: Arc<W>, ghost b: int)
      requires Expanding(t, matchInput, b, -1)
      requires -1 <= b < |WalkedArcs(c, t, matchInput)| && arc == WalkedArc(c, t, matchInput, b)
      modifies this`tuples, this`pushed, this`pushedMoves, matcher1, matcher2
      ensures Expanding(t, matchInput, b + 1, -1) && old(tuples) <= tuples
    {
      hide ListsBefore, ComposesAll, TableOk, Sorted, IsLowerBound, Presents, WalkedArc, HasLabel, ComputeFlags;
      var matchera := if matchInput then matcher2 else matcher1;
      var found := matchera.Find(MatchLabel(arc, !matchInput));
      ghost var lo := matchera.pos;
      if found {
        NotPresentedBelow(c, t, matchInput, b, lo);
        if !matchera.currentLoop {
          SkipTo(c, t, matchInput, b, -1, lo, pushedMoves);
        }
        ghost var a := AddMatches(t, matchInput, matchera, arc, b, lo);
        SkipToNextWalked(c, t, matchInput, b, a, pushedMoves);
      } else {
        NothingPresented(c, t, matchInput, b);
        SkipToNextWalked(c, t, matchInput, b, -1, pushedMoves);
      }
    }

    /** Steps through the matches that Find has found, from the implicit loop if it is one of them. */
    method AddMatches(t: StateTuple, matchInput: bool, matchera: SortedMatcher<W>, arc: Arc<W>, ghost b: int, ghost lo: int)
        returns (ghost a: int)
      requires matchera == if matchInput then matcher2 else matcher1
      requires Expanding(t, matchInput, b, if matchera.currentLoop then -1 else lo)
      requires -1 <= b < |WalkedArcs(c, t, matchInput)| && arc == WalkedArc(c, t, matchInput, b)
      requires matchera.exactMatch && matchera.matchLabel == AskedLabel(c, t, matchInput, b) && matchera.pos == lo
      requires matchera.currentLoop == (WalkedLabel(c, t, matchInput, b) == EPSILON)
      requires IsLowerBound(MatchedArcs(c, t, matchInput), matchInput, AskedLabel(c, t, matchInput, b), lo)
      modifies this`tuples, this`pushed, this`pushedMoves, matchera`pos, matchera`currentLoop
      ensures Expanding(t, matchInput, b, a) && old(tuples) <= tuples
      ensures forall x :: a <= x ==> !Presents(c, t, matchInput, b, x)
    {
      hide ListsBefore, ComposesAll, TableOk, Sorted, IsLowerBound, Presents, WalkedArc, ComputeFlags, SidesSorted;
      NotPresentedBelow(c, t, matchInput, b, lo);
      a := if matchera.currentLoop then -1 else lo;
      while !matchera.Done()
        invariant Expanding(t, matchInput, b, a) && old(tuples) <= tuples
        invariant matchera.exactMatch && matchera.matchLabel == AskedLabel(c, t, matchInput, b)
        invariant if matchera.currentLoop then a == -1 && matchera.pos == lo && WalkedLabel(c, t, matchInput, b) == EPSILON
                  else a == matchera.pos && lo <= a
        decreases matchera.narcs - matchera.pos, matchera.currentLoop
      {
        var arca := matchera.Value();
        PresentsValue(c, t, matchInput, b, a);
        TryMove(t, matchInput, arc, arca, b, a);
        matchera.Next();
        if a == -1 {
          SkipTo(c, t, matchInput, b, 0, lo, pushedMoves);
          a := lo;
        } else {
          a := a + 1;
        }
      }
      NotPresentedAbove(c, t, matchInput, b, lo, a);
    }

    /** Offers one pair of arcs to the filter, and adds the composed arc if it is admitted. */
    method TryMove(t: StateTuple, matchInput: bool, arcb: Arc<W>, arca: Arc<W>, ghost b: int, ghost a: int)
      requires Expanding(t, matchInput, b, a)
      requires -1 <= b < |WalkedArcs(c, t, matchInput)| && Presents(c, t, matchInput, b, a)
      requires arcb == WalkedArc(c, t, matchInput, b) && arca == MatchedArc(c, t, matchInput, a)
      modifies this`tuples, this`pushed, this`pushedMoves
      ensures Expanding(t, matchInput, b, a + 1) && old(tuples) <= tuples
    {
      hide ListsBefore, Presents, WalkedArc, MatchedArc, FilterArc, ComputeFlags, Sorted;
      PresentedIsCandidate(c, t, matchInput, b, a);
      StepOver(c, t, matchInput, b, a, pushedMoves);
      ghost var m := MoveAt(matchInput, b, a);
      var arc1, arc2 := arcb, arca;
      if !matchInput { arc1, arc2 := arca, arcb; }
      var fs := filter.Filter(t, arc1, arc2);
      if fs != NO_FILTER_STATE {
        AddArc(t, m, arc1, arc2, fs);
      }
    }

    method AddArc(ghost t: StateTuple, ghost m: Move, arc1: Arc<W>, arc2: Arc<W>, fs: int)
      requires c.Valid() && TableOk(c, tuples) && c.HasTuple(t) && Enabled(c, t, m)
      requires arc1 == Arc1(c, t, m) && arc2 == Arc2(c, t, m) && fs == NextFilterState(c, t, m)
      requires ComposesAll(c, tuples, t, pushedMoves, pushed)
      modifies this`tuples, this`pushed, this`pushedMoves
      ensures TableOk(c, tuples) && old(tuples) <= tuples
      ensures pushedMoves == old(pushedMoves) + [m]
      ensures ComposesAll(c, tuples, t, pushedMoves, pushed)
    {
      NextHasTuple(c, t, m);
      FilterRange(c.kind, ComputeFlags(c, t.s1, t.s2), t.fs, arc1.olabel, arc2.ilabel);
      var tuple := StateTuple(arc1.nextstate, arc2.nextstate, fs);
      var id := FindState(tuple);
      ComposesAllGrows(c, old(tuples), tuples, t, pushedMoves, pushed);
      pushed := pushed + [Arc(arc1.ilabel, arc2.olabel, c.sr.times(arc1.weight, arc2.weight), id)];
      pushedMoves := pushedMoves + [m];
    }
  }

  ghost predicate SidesSorted<W>(c: Composition<W>, matchType: MatchType) {
    && (!matchType.MatchOnOutput? ==> forall s :: 0 <= s < |c.fst2.arcs| ==> Sorted(c.fst2.arcs[s], true))
    && (!matchType.MatchOnInput? ==> forall s :: 0 <= s < |c.fst1.arcs| ==> Sorted(c.fst1.arcs[s], false))
  }

  ghost predicate CacheOk<W>(c: Composition<W>, tuples: seq<StateTuple>, arcs: map<nat, seq<Arc<W>>>,
                             moves: map<nat, seq<Move>>) {
    && arcs.Keys == moves.Keys
    && forall s :: s in arcs ==> s < |tuples| && IsExpansion(c, tuples, tuples[s], moves[s], arcs[s])
  }

  lemma CacheOkGrows<W>(c: Composition<W>, tuples: seq<StateTuple>, tuples': seq<StateTuple>,
                        arcs: map<nat, seq<Arc<W>>>, moves: map<nat, seq<Move>>)
    requires tuples <= tuples' && CacheOk(c, tuples, arcs, moves)
    ensures CacheOk(c, tuples', arcs, moves)
  {
    forall s | s in arcs ensures s < |tuples'| && IsExpansion(c, tuples', tuples'[s], moves[s], arcs[s]) {
      assert IsExpansion(c, tuples, tuples[s], moves[s], arcs[s]);
      ComposesAllGrows(c, tuples, tuples', tuples[s], moves[s], arcs[s]);
    }
  }

  lemma CacheOkAdd<W>(c: Composition<W>, tuples: seq<StateTuple>, arcs: map<nat, seq<Arc<W>>>, moves: map<nat, seq<Move>>,
                      s: nat, ms: seq<Move>, pushed: seq<Arc<W>>)
    requires CacheOk(c, tuples, arcs, moves) && s < |tuples| && IsExpansion(c, tuples, tuples[s], ms, pushed)
    ensures CacheOk(c, tuples, arcs[s := pushed], moves[s := ms])
  {
    hide IsExpansion;
  }

  function StartTuple<W>(c: Composition<W>): StateTuple
    requires c.fst1.start >= 0 && c.fst2.start >= 0
  {
    StateTuple(c.fst1.start, c.fst2.start, 0)
  }

  /** Final weight of a composed state. */
  function FinalWeight<W(==)>(c: Composition<W>, t: StateTuple): W
    requires c.HasTuple(t)
  {
    var final1, final2 := c.fst1.finals[t.s1], c.fst2.finals[t.s2];
    if final1 == c.sr.zero then final1 else if final2 == c.sr.zero then final2 else c.sr.times(final1, final2)
  }
}
