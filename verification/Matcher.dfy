/** The label matcher that composition uses on the side it matches on. */
module Matcher {
  import opened Fst

  ghost predicate Sorted<W>(arcs: seq<Arc<W>>, input: bool) {
    forall i, j :: 0 <= i <= j < |arcs| ==> MatchLabel(arcs[i], input) <= MatchLabel(arcs[j], input)
  }

  /** 'k' is where 'l' would be inserted to keep the arcs sorted. */
  ghost predicate IsLowerBound<W>(arcs: seq<Arc<W>>, input: bool, l: int, k: int) {
    && 0 <= k <= |arcs|
    && (forall i :: 0 <= i < k ==> MatchLabel(arcs[i], input) < l)
    && (forall i :: k <= i < |arcs| ==> l <= MatchLabel(arcs[i], input))
  }

  ghost predicate HasLabel<W>(arcs: seq<Arc<W>>, input: bool, l: int) {
    exists i :: 0 <= i < |arcs| && MatchLabel(arcs[i], input) == l
  }

  /** The arc a state is taken to have for a side that stands still. */
  function ImplicitLoop<W>(input: bool, one: W, s: nat): Arc<W> {
    if input then Arc(NO_LABEL, EPSILON, one, s) else Arc(EPSILON, NO_LABEL, one, s)
  }

  class SortedMatcher<W(==)> {
    const fst: Fst<W>
    const input: bool       // match on input labels, or on output labels
    const binaryLabel: int  // least label that is searched for by binary search
    const one: W

    var state: int
    var pos: nat            // position of the arc iterator
    var narcs: nat
    var matchLabel: int
    var loop: Arc<W>
    var currentLoop: bool
    var exactMatch: bool

    constructor (fst: Fst<W>, input: bool, one: W, binaryLabel: int)
      ensures this.fst == fst && this.input == input && this.one == one && this.binaryLabel == binaryLabel
      ensures Valid() && state == NO_STATE_ID
    {
      this.fst, this.input, this.one, this.binaryLabel := fst, input, one, binaryLabel;
      state, pos, narcs, matchLabel := NO_STATE_ID, 0, 0, NO_LABEL;
      loop := ImplicitLoop(input, one, 0);
      currentLoop, exactMatch := false, false;
    }

    ghost predicate Valid()
      reads this
    {
      loop == ImplicitLoop(input, one, loop.nextstate) && (state == NO_STATE_ID || ValidAt())
    }

    ghost predicate ValidAt()
      reads this
    {
      && 0 <= state < |fst.arcs|
      && narcs == |fst.arcs[state]|
      && pos <= narcs
      && loop == ImplicitLoop(input, one, state)
    }

    function Arcs(): seq<Arc<W>>
      requires ValidAt()
      reads this
    {
      fst.arcs[state]
    }

    method SetState(s: nat)
      requires Valid() && s < |fst.arcs|
      modifies this
      ensures ValidAt() && state == s
    {
      if state == s { return; }
      state := s;
      pos := 0;
      narcs := |fst.arcs[s]|;
      loop := loop.(nextstate := s);
    }

    /** NO_LABEL asks for the epsilon arcs alone, EPSILON for the implicit loop as well. */
    method Find(l: int) returns (found: bool)
      requires ValidAt() && Sorted(Arcs(), input)
      modifies this`exactMatch, this`currentLoop, this`matchLabel, this`pos
      ensures ValidAt() && exactMatch
      ensures currentLoop == (l == EPSILON)
      ensures matchLabel == if l == NO_LABEL then EPSILON else l
      ensures IsLowerBound(Arcs(), input, matchLabel, pos)
      ensures found <==> l == EPSILON || HasLabel(Arcs(), input, matchLabel)
    {
      exactMatch := true;
      currentLoop := l == EPSILON;
      matchLabel := if l == NO_LABEL then EPSILON else l;
      var ok := Search();
      if ok { return true; }
      return currentLoop;
    }

    predicate Done()
      requires ValidAt()
      reads this
    {
      if currentLoop then false
      else if pos == narcs then true
      else if !exactMatch then false
      else MatchLabel(fst.arcs[state][pos], input) != matchLabel
    }

    function Value(): Arc<W>
      requires ValidAt() && !Done()
      reads this
    {
      if currentLoop then loop else fst.arcs[state][pos]
    }

    method Next()
      requires ValidAt() && !Done()
      modifies this`currentLoop, this`pos
      ensures ValidAt() && !currentLoop
      ensures pos == if old(currentLoop) then old(pos) else old(pos) + 1
    {
      if currentLoop {
        currentLoop := false;
      } else {
        pos := pos + 1;
      }
    }

    /** Both strategies leave the iterator at the lower bound. */
    method Search() returns (found: bool)
      requires ValidAt() && Sorted(Arcs(), input)
      modifies this`pos
      ensures ValidAt() && IsLowerBound(Arcs(), input, matchLabel, pos)
      ensures found <==> HasLabel(Arcs(), input, matchLabel)
    {
      if matchLabel >= binaryLabel {
        found := BinarySearch();
      } else {
        found := LinearSearch();
      }
    }

    method BinarySearch() returns (found: bool)
      requires ValidAt() && Sorted(Arcs(), input)
      modifies this`pos
      ensures ValidAt() && IsLowerBound(Arcs(), input, matchLabel, pos)
      ensures found <==> HasLabel(Arcs(), input, matchLabel)
    {
      ghost var arcs := Arcs();
      var low, high := 0, narcs;
      while low < high
        invariant 0 <= low <= high <= narcs && ValidAt()
        invariant forall i :: 0 <= i < low ==> MatchLabel(arcs[i], input) < matchLabel
        invariant forall i :: high <= i < narcs ==> matchLabel <= MatchLabel(arcs[i], input)
      {
        var mid := low + (high - low) / 2;
        pos := mid;
        if MatchLabel(fst.arcs[state][pos], input) < matchLabel {
          low := mid + 1;
        } else {
          high := mid;
        }
      }
      pos := low;
      found := low < narcs && MatchLabel(fst.arcs[state][pos], input) == matchLabel;
    }

    method LinearSearch() returns (found: bool)
      requires ValidAt() && Sorted(Arcs(), input)
      modifies this`pos
      ensures ValidAt() && IsLowerBound(Arcs(), input, matchLabel, pos)
      ensures found <==> HasLabel(Arcs(), input, matchLabel)
    {
      ghost var arcs := Arcs();
      pos := 0;
      while pos != narcs
        invariant ValidAt()
        invariant forall i :: 0 <= i < pos ==> MatchLabel(arcs[i], input) < matchLabel
        decreases narcs - pos
      {
        var l := MatchLabel(fst.arcs[state][pos], input);
        if l == matchLabel { return true; }
        if l > matchLabel { break; }
        pos := pos + 1;
      }
      return false;
    }
  }
}
