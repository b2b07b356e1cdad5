/** SccVisitor's methods against the steps of module Tarjan. */
module SccVisit {
  import opened Fst
  import opened Reach
  import opened Tarjan

  lemma SetAllStep<T>(vec: seq<T>, stack: seq<nat>, i: nat, value: T)
    requires 0 < i <= |stack| && stack[i - 1] < |vec|
    ensures SetAll(vec, stack[i - 1..], value) == SetAll(vec, stack[i..], value)[stack[i - 1] := value]
  {
    assert stack[i - 1..] == [stack[i - 1]] + stack[i..];
    var a, b := SetAll(vec, stack[i - 1..], value), SetAll(vec, stack[i..], value)[stack[i - 1] := value];
    forall j | 0 <= j < |vec| ensures a[j] == b[j] {
      assert j in stack[i - 1..] <==> j == stack[i - 1] || j in stack[i..];
    }
  }

  lemma NothingSet<T>(vec: seq<T>, stack: seq<nat>, value: T)
    ensures SetAll(vec, stack[|stack|..], value) == vec
  {
  }

  lemma SetAllLength<T>(vec: seq<T>, states: seq<nat>, value: T)
    ensures |SetAll(vec, states, value)| == |vec|
  {
  }

  lemma GrowOne<T>(vec: seq<T>, n: nat, default: T)
    requires |vec| <= n
    ensures Grow(vec, n, default) + [default] == Grow(vec, n + 1, default)
  {
  }

  lemma AtTop(stack: seq<nat>, s: nat, n: nat)
    requires s in stack && From(stack, s) < n <= |stack|
    ensures stack[n - 1] in stack
    ensures stack[n - 1] == s <==> n - 1 == From(stack, s)
  {
    var k := From(stack, s);
    if n - 1 > k { assert stack[k + 1..][n - 2 - k] == stack[n - 1]; }
  }

  class SccVisitor<W(==)> {
    const fst: Fst<W>
    const zero: W

    var start: int
    var scc: seq<int>
    var access: seq<bool>
    var coaccess: seq<bool>
    var dfnumber: seq<int>
    var lowlink: seq<int>
    var onstack: seq<bool>
    var sccStack: seq<nat>
    var nstates: nat
    var nscc: nat

    constructor (fst: Fst<W>, zero: W)
      ensures this.fst == fst && this.zero == zero
    {
      this.fst, this.zero := fst, zero;
    }

    function View(): Visitor
      reads this
    {
      Visitor(scc, access, coaccess, dfnumber, lowlink, onstack, sccStack, nstates, nscc)
    }

    predicate SameLengths()
      reads this
    {
      |scc| == |access| == |coaccess| == |dfnumber| == |lowlink| == |onstack|
    }

    method InitVisit()
      modifies this
      ensures View() == Visitor([], [], [], [], [], [], [], 0, 0) && start == fst.start
    {
      scc, access, coaccess, dfnumber, lowlink, onstack, sccStack := [], [], [], [], [], [], [];
      start := fst.start;
      nstates, nscc := 0, 0;
    }

    method InitState(s: nat, root: nat)
      requires SameLengths()
      modifies this
      ensures View() == Tarjan.InitState(old(View()), s, root == start) && start == old(start)
    {
      sccStack := sccStack + [s];
      Extend(s);
      dfnumber := dfnumber[s := nstates];
      lowlink := lowlink[s := nstates];
      onstack := onstack[s := true];
      if root == start {
        access := access[s := true];
      } else {
        access := access[s := false];
      }
      nstates := nstates + 1;
    }

    /** The vectors grow until they have an entry for 's'. */
    method Extend(s: nat)
      requires SameLengths()
      modifies this`scc, this`access, this`coaccess, this`dfnumber, this`lowlink, this`onstack
      ensures scc == Grow(old(scc), s + 1, -1) && access == Grow(old(access), s + 1, false)
      ensures coaccess == Grow(old(coaccess), s + 1, false) && dfnumber == Grow(old(dfnumber), s + 1, -1)
      ensures lowlink == Grow(old(lowlink), s + 1, -1) && onstack == Grow(old(onstack), s + 1, false)
    {
      ghost var n := |dfnumber|;
      while |dfnumber| <= s
        invariant n <= |dfnumber| && (|dfnumber| <= s + 1 || |dfnumber| == n) && SameLengths()
        invariant scc == Grow(old(scc), |dfnumber|, -1) && access == Grow(old(access), |dfnumber|, false)
        invariant coaccess == Grow(old(coaccess), |dfnumber|, false) && dfnumber == Grow(old(dfnumber), |dfnumber|, -1)
        invariant lowlink == Grow(old(lowlink), |dfnumber|, -1) && onstack == Grow(old(onstack), |dfnumber|, false)
      {
        hide Grow;
        GrowOne(old(scc), |dfnumber|, -1);
        GrowOne(old(access), |dfnumber|, false);
        GrowOne(old(coaccess), |dfnumber|, false);
        GrowOne(old(dfnumber), |dfnumber|, -1);
        GrowOne(old(lowlink), |dfnumber|, -1);
        GrowOne(old(onstack), |dfnumber|, false);
        scc, access, coaccess := scc + [-1], access + [false], coaccess + [false];
        dfnumber, lowlink, onstack := dfnumber + [-1], lowlink + [-1], onstack + [false];
      }
    }

    method BackArc(s: nat, t: nat)
      requires Knows(View(), s) && Knows(View(), t)
      modifies this`lowlink, this`coaccess
      ensures View() == Tarjan.BackArc(old(View()), s, t)
    {
      if dfnumber[t] < lowlink[s] { lowlink := lowlink[s := dfnumber[t]]; }
      if coaccess[t] { coaccess := coaccess[s := true]; }
    }

    method ForwardOrCrossArc(s: nat, t: nat)
      requires Knows(View(), s) && Knows(View(), t)
      modifies this`lowlink, this`coaccess
      ensures View() == Tarjan.ForwardOrCrossArc(old(View()), s, t)
    {
      if dfnumber[t] < dfnumber[s] && onstack[t] && dfnumber[t] < lowlink[s] {
        lowlink := lowlink[s := dfnumber[t]];
      }
      if coaccess[t] { coaccess := coaccess[s := true]; }
    }

    /** The parent is NO_STATE_ID for the root of a tree. */
    method FinishState(s: nat, p: int)
      requires Knows(View(), s) && s in sccStack && (forall x :: x in sccStack ==> Knows(View(), x))
      requires p >= 0 ==> Knows(View(), p)
      modifies this
      ensures start == old(start)
      ensures View() == var v := CloseState(old(View()), s, IsFinal(fst, zero, s));
                        if p >= 0 then TellParent(v, s, p) else v
    {
      if IsFinal(fst, zero, s) { coaccess := coaccess[s := true]; }
      if dfnumber[s] == lowlink[s] {
        PopComponent(s);
      }
      if p != NO_STATE_ID && p >= 0 {
        if coaccess[s] { coaccess := coaccess[p := true]; }
        if lowlink[s] < lowlink[p] { lowlink := lowlink[p := lowlink[s]]; }
      }
    }

    method PopComponent(s: nat)
      requires s in sccStack && (forall x :: x in sccStack ==> Knows(View(), x))
      modifies this`scc, this`coaccess, this`onstack, this`sccStack, this`nscc
      ensures View() == NumberComponent(old(View()), s)
    {
      var sccCoaccess := MemberCoaccess(s);
      PopMembers(s, sccCoaccess);
      nscc := nscc + 1;
    }

    /** Looks at the stack from the top down to 's'. */
    method MemberCoaccess(s: nat) returns (sccCoaccess: bool)
      requires s in sccStack && (forall x :: x in sccStack ==> x < |coaccess|)
      ensures sccCoaccess <==> exists t :: t in sccStack[From(sccStack, s)..] && At(coaccess, t, false)
    {
      ghost var k := From(sccStack, s);
      sccCoaccess := false;
      var i := |sccStack|;
      var more := true;
      while more
        invariant k <= i <= |sccStack| && more == (i > k)
        invariant sccCoaccess <==> exists t :: t in sccStack[i..] && At(coaccess, t, false)
        decreases i
      {
        i := i - 1;
        var t := sccStack[i];
        assert sccStack[i..] == [t] + sccStack[i + 1..];
        assert t in sccStack && coaccess[t] == At(coaccess, t, false);
        if coaccess[t] { sccCoaccess := true; }
        AtTop(sccStack, s, i + 1);
        more := s != t;
      }
    }

    method PopMembers(s: nat, sccCoaccess: bool)
      requires s in sccStack && (forall x :: x in sccStack ==> Knows(View(), x))
      modifies this`scc, this`coaccess, this`onstack, this`sccStack
      ensures var k := From(old(sccStack), s);
              var members := old(sccStack)[k..];
              && sccStack == old(sccStack)[..k]
              && scc == SetAll(old(scc), members, nscc)
              && coaccess == (if sccCoaccess then SetAll(old(coaccess), members, true) else old(coaccess))
              && onstack == SetAll(old(onstack), members, false)
    {
      hide SetAll, From;
      ghost var stack, k := sccStack, From(sccStack, s);
      NothingSet(scc, stack, nscc as int);
      NothingSet(coaccess, stack, true);
      NothingSet(onstack, stack, false);
      assert stack[..|stack|] == stack;
      var more := true;
      while more
        invariant k <= |sccStack| <= |stack| && more == (|sccStack| > k) && sccStack == stack[..|sccStack|]
        invariant scc == SetAll(old(scc), stack[|sccStack|..], nscc)
        invariant coaccess == if sccCoaccess then SetAll(old(coaccess), stack[|sccStack|..], true) else old(coaccess)
        invariant onstack == SetAll(old(onstack), stack[|sccStack|..], false)
        decreases |sccStack|
      {
        var n := |sccStack|;
        var t := sccStack[n - 1];
        AtTop(stack, s, n);
        SetAllStep(old(scc), stack, n, nscc as int);
        SetAllStep(old(coaccess), stack, n, true);
        SetAllStep(old(onstack), stack, n, false);
        SetAllLength(old(scc), stack[n..], nscc as int);
        SetAllLength(old(coaccess), stack[n..], true);
        SetAllLength(old(onstack), stack[n..], false);
        scc := scc[t := nscc];
        if sccCoaccess { coaccess := coaccess[t := true]; }
        onstack := onstack[t := false];
        sccStack := sccStack[..n - 1];
        more := s != t;
      }
    }

    method FinishVisit()
      modifies this`scc
      ensures |scc| == |old(scc)|
      ensures forall s :: 0 <= s < |scc| ==> scc[s] == nscc - 1 - old(scc)[s]
    {
      var s := 0;
      while s < |scc|
        invariant s <= |scc| == |old(scc)|
        invariant forall r :: 0 <= r < s ==> scc[r] == nscc - 1 - old(scc)[r]
        invariant forall r :: s <= r < |scc| ==> scc[r] == old(scc)[r]
      {
        scc := scc[s := nscc - 1 - scc[s]];
        s := s + 1;
      }
    }
  }
}
