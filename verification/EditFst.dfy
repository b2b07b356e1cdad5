/** An overlay that edits a wrapped FST without changing it, state by state, on shared data. */
module EditFst {
  import opened Fst

  // ------------------------------------------------------------ a plain mutable FST

  function WithStart<W>(f: Fst<W>, s: int): Fst<W> { f.(start := s) }

  function WithState<W>(f: Fst<W>, zero: W): Fst<W> {
    f.(finals := f.finals + [zero], arcs := f.arcs + [[]])
  }

  function WithFinal<W>(f: Fst<W>, s: nat, w: W): Fst<W>
    requires s < |f.finals|
  {
    f.(finals := f.finals[s := w])
  }

  function WithArc<W>(f: Fst<W>, s: nat, arc: Arc<W>): Fst<W>
    requires s < |f.arcs|
  {
    f.(arcs := f.arcs[s := f.arcs[s] + [arc]])
  }

  function WithoutArcs<W>(f: Fst<W>, s: nat): Fst<W>
    requires s < |f.arcs|
  {
    f.(arcs := f.arcs[s := []])
  }

  /** Without the last 'n' arcs of a state. */
  function WithoutLastArcs<W>(f: Fst<W>, s: nat, n: nat): Fst<W>
    requires s < |f.arcs| && n <= |f.arcs[s]|
  {
    f.(arcs := f.arcs[s := f.arcs[s][..|f.arcs[s]| - n]])
  }

  function EmptyFst<W>(): Fst<W> { Fst(NO_STATE_ID, [], []) }

  // ------------------------------------------------------------ the overlay as a value

  /** The fields of the shared data. */
  datatype Overlay<W> = Overlay(edits: Fst<W>, ids: map<nat, nat>, finals: map<nat, W>, newStates: nat)

  function NumStates<W>(wrapped: Fst<W>, d: Overlay<W>): nat {
    |wrapped.arcs| + d.newStates
  }

  /** Every new state, and every state whose arcs were edited, is in 'edits' under a number of its
      own; a state has its final weight in the side map only while it is not. */
  ghost predicate Ok<W>(wrapped: Fst<W>, d: Overlay<W>) {
    && |wrapped.finals| == |wrapped.arcs| && |d.edits.finals| == |d.edits.arcs|
    && (forall s: nat :: s in d.ids ==> s < NumStates(wrapped, d) && d.ids[s] < |d.edits.arcs|)
    && (forall s: nat, t: nat :: s in d.ids && t in d.ids && s != t ==> d.ids[s] != d.ids[t])
    && (forall s: nat :: |wrapped.arcs| <= s < NumStates(wrapped, d) ==> s in d.ids)
    && (forall s: nat :: s in d.finals ==> s < |wrapped.arcs| && s !in d.ids)
  }

  function FinalOf<W>(wrapped: Fst<W>, d: Overlay<W>, s: nat): W
    requires Ok(wrapped, d) && s < NumStates(wrapped, d)
  {
    if s in d.finals then d.finals[s] else if s in d.ids then d.edits.finals[d.ids[s]] else wrapped.finals[s]
  }

  function ArcsOf<W>(wrapped: Fst<W>, d: Overlay<W>, s: nat): seq<Arc<W>>
    requires Ok(wrapped, d) && s < NumStates(wrapped, d)
  {
    if s in d.ids then d.edits.arcs[d.ids[s]] else wrapped.arcs[s]
  }

  function StartOf<W>(wrapped: Fst<W>, d: Overlay<W>): int {
    if d.edits.start == NO_STATE_ID then wrapped.start else d.edits.start
  }

  /** The FST one reads through the overlay. */
  ghost function ViewOf<W>(wrapped: Fst<W>, d: Overlay<W>): (f: Fst<W>)
    requires Ok(wrapped, d)
    ensures |f.finals| == |f.arcs| == NumStates(wrapped, d) && f.start == StartOf(wrapped, d)
    ensures forall s: nat :: s < NumStates(wrapped, d) ==>
              f.finals[s] == FinalOf(wrapped, d, s) && f.arcs[s] == ArcsOf(wrapped, d, s)
  {
    var n := NumStates(wrapped, d);
    Fst(StartOf(wrapped, d),
        seq(n, s requires 0 <= s < n => FinalOf(wrapped, d, s)),
        seq(n, s requires 0 <= s < n => ArcsOf(wrapped, d, s)))
  }

  /** 'g' reads as the overlay does. */
  ghost predicate ReadsAs<W>(wrapped: Fst<W>, d: Overlay<W>, g: Fst<W>) {
    && Ok(wrapped, d) && |g.finals| == |g.arcs| == NumStates(wrapped, d) && g.start == StartOf(wrapped, d)
    && forall s: nat :: s < NumStates(wrapped, d) ==>
         FinalOf(wrapped, d, s) == g.finals[s] && ArcsOf(wrapped, d, s) == g.arcs[s]
  }

  lemma ReadsAsView<W>(wrapped: Fst<W>, d: Overlay<W>, g: Fst<W>)
    requires ReadsAs(wrapped, d, g)
    ensures ViewOf(wrapped, d) == g
  {
    var v := ViewOf(wrapped, d);
    assert v.finals == g.finals && v.arcs == g.arcs;
  }

  // ------------------------------------------------------------ what the steps do to the view

  /** The state of 's' copied into 'edits'. */
  function CopiedIn<W>(d: Overlay<W>, s: nat, final: W, arcs: seq<Arc<W>>): Overlay<W> {
    Overlay(d.edits.(finals := d.edits.finals + [final], arcs := d.edits.arcs + [arcs]),
            d.ids[s := |d.edits.arcs|], d.finals - {s}, d.newStates)
  }

  lemma CopyKeepsView<W>(wrapped: Fst<W>, d: Overlay<W>, s: nat)
    requires Ok(wrapped, d) && s < NumStates(wrapped, d) && s !in d.ids
    ensures var d' := CopiedIn(d, s, FinalOf(wrapped, d, s), wrapped.arcs[s]);
            Ok(wrapped, d') && ViewOf(wrapped, d') == ViewOf(wrapped, d)
  {
    var d' := CopiedIn(d, s, FinalOf(wrapped, d, s), wrapped.arcs[s]);
    ReadsAsView(wrapped, d', ViewOf(wrapped, d));
  }

  lemma AddStateView<W>(wrapped: Fst<W>, d: Overlay<W>, zero: W)
    requires Ok(wrapped, d)
    ensures var n := NumStates(wrapped, d);
            var d' := Overlay(WithState(d.edits, zero), d.ids[n := |d.edits.arcs|], d.finals, d.newStates + 1);
            Ok(wrapped, d') && ViewOf(wrapped, d') == WithState(ViewOf(wrapped, d), zero)
  {
    var n := NumStates(wrapped, d);
    var d' := Overlay(WithState(d.edits, zero), d.ids[n := |d.edits.arcs|], d.finals, d.newStates + 1);
    ReadsAsView(wrapped, d', WithState(ViewOf(wrapped, d), zero));
  }

  lemma SideFinalView<W>(wrapped: Fst<W>, d: Overlay<W>, s: nat, w: W)
    requires Ok(wrapped, d) && s < NumStates(wrapped, d) && s !in d.ids
    ensures var d' := d.(finals := d.finals[s := w]);
            Ok(wrapped, d') && ViewOf(wrapped, d') == WithFinal(ViewOf(wrapped, d), s, w)
  {
    ReadsAsView(wrapped, d.(finals := d.finals[s := w]), WithFinal(ViewOf(wrapped, d), s, w));
  }

  lemma EditedFinalView<W>(wrapped: Fst<W>, d: Overlay<W>, s: nat, w: W)
    requires Ok(wrapped, d) && s in d.ids
    ensures var d' := d.(edits := WithFinal(d.edits, d.ids[s], w));
            Ok(wrapped, d') && ViewOf(wrapped, d') == WithFinal(ViewOf(wrapped, d), s, w)
  {
    ReadsAsView(wrapped, d.(edits := WithFinal(d.edits, d.ids[s], w)), WithFinal(ViewOf(wrapped, d), s, w));
  }

  /** New arcs for a state that is in 'edits'. */
  lemma EditedArcsView<W>(wrapped: Fst<W>, d: Overlay<W>, s: nat, arcs: seq<Arc<W>>)
    requires Ok(wrapped, d) && s in d.ids
    ensures var d' := d.(edits := d.edits.(arcs := d.edits.arcs[d.ids[s] := arcs]));
            var v := ViewOf(wrapped, d);
            Ok(wrapped, d') && ViewOf(wrapped, d') == v.(arcs := v.arcs[s := arcs])
  {
    var v := ViewOf(wrapped, d);
    ReadsAsView(wrapped, d.(edits := d.edits.(arcs := d.edits.arcs[d.ids[s] := arcs])), v.(arcs := v.arcs[s := arcs]));
  }

  lemma StartView<W>(wrapped: Fst<W>, d: Overlay<W>, s: int)
    requires Ok(wrapped, d)
    ensures var d' := d.(edits := WithStart(d.edits, s));
            Ok(wrapped, d') && ViewOf(wrapped, d')
            == WithStart(ViewOf(wrapped, d), if s == NO_STATE_ID then wrapped.start else s)
  {
    ReadsAsView(wrapped, d.(edits := WithStart(d.edits, s)),
                WithStart(ViewOf(wrapped, d), if s == NO_STATE_ID then wrapped.start else s));
  }

  function NoEdits<W>(): Overlay<W> { Overlay(EmptyFst(), map[], map[], 0) }

  lemma NoEditsView<W>(wrapped: Fst<W>)
    requires |wrapped.finals| == |wrapped.arcs|
    ensures Ok(wrapped, NoEdits()) && ViewOf(wrapped, NoEdits()) == wrapped
  {
    ReadsAsView(wrapped, NoEdits(), wrapped);
  }

  // ------------------------------------------------------------ edits, one by one and in runs

  datatype Edit<W> =
    | SetStart(s: nat) | SetFinal(s: nat, w: W) | AddState | AddArc(s: nat, arc: Arc<W>)
    | DeleteArcs(s: nat) | DeleteLastArcs(s: nat, n: nat)

  /** The states and arcs an edit names exist. */
  predicate Applies<W>(f: Fst<W>, e: Edit<W>) {
    && |f.finals| == |f.arcs|
    && match e {
         case AddState => true
         case DeleteLastArcs(s, n) => s < |f.arcs| && n <= |f.arcs[s]|
         case _ => e.s < |f.arcs|
       }
  }

  /** What the edit does to a plain mutable FST. */
  function ApplyEdit<W>(f: Fst<W>, zero: W, e: Edit<W>): Fst<W>
    requires Applies(f, e)
  {
    match e
    case SetStart(s) => WithStart(f, s)
    case SetFinal(s, w) => WithFinal(f, s, w)
    case AddState => WithState(f, zero)
    case AddArc(s, arc) => WithArc(f, s, arc)
    case DeleteArcs(s) => WithoutArcs(f, s)
    case DeleteLastArcs(s, n) => WithoutLastArcs(f, s, n)
  }

  predicate AllApply<W>(f: Fst<W>, zero: W, es: seq<Edit<W>>)
    decreases |es|
  {
    es == [] || (Applies(f, es[0]) && AllApply(ApplyEdit(f, zero, es[0]), zero, es[1..]))
  }

  function ApplyAll<W>(f: Fst<W>, zero: W, es: seq<Edit<W>>): Fst<W>
    requires AllApply(f, zero, es)
    decreases |es|
  {
    if es == [] then f else ApplyAll(ApplyEdit(f, zero, es[0]), zero, es[1..])
  }

  // ------------------------------------------------------------ the shared data

  class EditFstData<W> {
    const zero: W
    var edits: Fst<W>
    var externalToInternalIds: map<nat, nat>
    var editedFinalWeights: map<nat, W>
    var numNewStates: nat
    var useCount: nat
    ghost var owners: set<EditFstImpl<W>>

    constructor (zero: W, d: Overlay<W>)
      ensures State() == d && this.zero == zero && useCount == 0 && owners == {}
    {
      this.zero := zero;
      edits, externalToInternalIds, editedFinalWeights, numNewStates := d.edits, d.ids, d.finals, d.newStates;
      useCount, owners := 0, {};
    }

    function State(): Overlay<W>
      reads this
    {
      Overlay(edits, externalToInternalIds, editedFinalWeights, numNewStates)
    }

    /** The number of a state in 'edits'; copies the state there if it is not yet. */
    method GetEditableInternalId(s: nat, wrapped: Fst<W>) returns (id: nat)
      requires Ok(wrapped, State()) && s < NumStates(wrapped, State())
      modifies `edits, `externalToInternalIds, `editedFinalWeights
      ensures Ok(wrapped, State()) && ViewOf(wrapped, State()) == old(ViewOf(wrapped, State()))
      ensures s in externalToInternalIds && id == externalToInternalIds[s]
    {
      if s in externalToInternalIds { return externalToInternalIds[s]; }
      CopyKeepsView(wrapped, State(), s);
      ghost var d := State();
      ghost var final := FinalOf(wrapped, d, s);
      hide Ok, ViewOf, FinalOf;
      SmallId(wrapped, d, s);
      id := |edits.arcs|;
      edits := WithState(edits, zero);
      externalToInternalIds := externalToInternalIds[s := id];
      var i := 0;
      while i < |wrapped.arcs[s]|
        modifies `edits
        invariant i <= |wrapped.arcs[s]|
        invariant edits.start == d.edits.start && edits.finals == d.edits.finals + [zero]
        invariant edits.arcs == d.edits.arcs + [wrapped.arcs[s][..i]]
      {
        assert wrapped.arcs[s][..i] + [wrapped.arcs[s][i]] == wrapped.arcs[s][..i + 1];
        edits := WithArc(edits, id, wrapped.arcs[s][i]);
        i := i + 1;
      }
      assert wrapped.arcs[s][..i] == wrapped.arcs[s];
      UpdateLast(d.edits.finals, zero, final);
      if s !in editedFinalWeights {
        edits := WithFinal(edits, id, wrapped.finals[s]);
        assert editedFinalWeights - {s} == editedFinalWeights;
      } else {
        edits := WithFinal(edits, id, editedFinalWeights[s]);
        editedFinalWeights := editedFinalWeights - {s};
      }
      assert State() == CopiedIn(d, s, final, wrapped.arcs[s]);
    }

    method SetStart(s: int, ghost wrapped: Fst<W>)
      requires Ok(wrapped, State())
      modifies `edits
      ensures Ok(wrapped, State())
      ensures ViewOf(wrapped, State())
              == WithStart(old(ViewOf(wrapped, State())), if s == NO_STATE_ID then wrapped.start else s)
    {
      StartView(wrapped, State(), s);
      edits := WithStart(edits, s);
    }

    method SetFinal(s: nat, w: W, wrapped: Fst<W>) returns (oldWeight: W)
      requires Ok(wrapped, State()) && s < NumStates(wrapped, State())
      modifies `edits, `externalToInternalIds, `editedFinalWeights
      ensures Ok(wrapped, State())
      ensures ViewOf(wrapped, State()) == WithFinal(old(ViewOf(wrapped, State())), s, w)
      ensures oldWeight == old(ViewOf(wrapped, State())).finals[s]
    {
      oldWeight := FinalOf(wrapped, State(), s);
      if s !in externalToInternalIds {
        SideFinalView(wrapped, State(), s, w);
        editedFinalWeights := editedFinalWeights[s := w];
      } else {
        var id := GetEditableInternalId(s, wrapped);
        EditedFinalView(wrapped, State(), s, w);
        edits := WithFinal(edits, id, w);
      }
    }

    method AddState(currNumStates: nat, ghost wrapped: Fst<W>) returns (id: nat)
      requires Ok(wrapped, State()) && currNumStates == NumStates(wrapped, State())
      modifies `edits, `externalToInternalIds, `numNewStates
      ensures Ok(wrapped, State()) && id == currNumStates
      ensures ViewOf(wrapped, State()) == WithState(old(ViewOf(wrapped, State())), zero)
    {
      AddStateView(wrapped, State(), zero);
      var internalId := |edits.arcs|;
      edits := WithState(edits, zero);
      externalToInternalIds := externalToInternalIds[currNumStates := internalId];
      numNewStates := numNewStates + 1;
      return currNumStates;
    }

    method AddArc(s: nat, arc: Arc<W>, wrapped: Fst<W>)
      requires Ok(wrapped, State()) && s < NumStates(wrapped, State())
      modifies `edits, `externalToInternalIds, `editedFinalWeights
      ensures Ok(wrapped, State())
      ensures ViewOf(wrapped, State()) == WithArc(old(ViewOf(wrapped, State())), s, arc)
    {
      var id := GetEditableInternalId(s, wrapped);
      EditedArcsView(wrapped, State(), s, edits.arcs[id] + [arc]);
      edits := WithArc(edits, id, arc);
    }

    /** Deletes the last 'n' arcs of a state. */
    method DeleteLastArcs(s: nat, n: nat, wrapped: Fst<W>)
      requires Ok(wrapped, State()) && s < NumStates(wrapped, State()) && n <= |ArcsOf(wrapped, State(), s)|
      modifies `edits, `externalToInternalIds, `editedFinalWeights
      ensures Ok(wrapped, State())
      ensures ViewOf(wrapped, State()) == WithoutLastArcs(old(ViewOf(wrapped, State())), s, n)
    {
      assert ViewOf(wrapped, State()).arcs[s] == ArcsOf(wrapped, State(), s);
      var id := GetEditableInternalId(s, wrapped);
      assert ViewOf(wrapped, State()).arcs[s] == edits.arcs[id];
      EditedArcsView(wrapped, State(), s, edits.arcs[id][..|edits.arcs[id]| - n]);
      edits := WithoutLastArcs(edits, id, n);
    }

    method DeleteArcs(s: nat, wrapped: Fst<W>)
      requires Ok(wrapped, State()) && s < NumStates(wrapped, State())
      modifies `edits, `externalToInternalIds, `editedFinalWeights
      ensures Ok(wrapped, State())
      ensures ViewOf(wrapped, State()) == WithoutArcs(old(ViewOf(wrapped, State())), s)
    {
      var id := GetEditableInternalId(s, wrapped);
      EditedArcsView(wrapped, State(), s, []);
      edits := WithoutArcs(edits, id);
    }

    /** Forgets all edits. */
    method DeleteStates()
      modifies `edits, `externalToInternalIds, `editedFinalWeights, `numNewStates
      ensures State() == NoEdits()
    {
      edits, externalToInternalIds, editedFinalWeights, numNewStates := EmptyFst(), map[], map[], 0;
    }
  }

  lemma UpdateLast<W>(s: seq<W>, x: W, y: W)
    ensures (s + [x])[|s| := y] == s + [y]
  {
  }

  lemma SmallId<W>(wrapped: Fst<W>, d: Overlay<W>, s: nat)
    requires Ok(wrapped, d) && s < NumStates(wrapped, d) && s !in d.ids
    ensures s < |wrapped.arcs| == |wrapped.finals| && |d.edits.finals| == |d.edits.arcs|
    ensures FinalOf(wrapped, d, s) == if s in d.finals then d.finals[s] else wrapped.finals[s]
  {
  }

  /** An editable FST. Copies share the data until one of them edits it. */
  class EditFstImpl<W> {
    var wrapped: Fst<W>
    var data: EditFstData<W>

    /** Wraps an FST. */
    constructor (wrapped: Fst<W>, zero: W)
      requires |wrapped.finals| == |wrapped.arcs|
      ensures Valid() && fresh(data) && data.owners == {this} && data.zero == zero
      ensures View() == wrapped && this.wrapped == wrapped
    {
      NoEditsView(wrapped);
      this.wrapped := wrapped;
      data := new EditFstData(zero, NoEdits());
      new;
      data.useCount := 1;
      data.owners := {this};
    }

    /** A copy shares the data. */
    constructor Copy(impl: EditFstImpl<W>)
      requires impl.Valid()
      modifies impl.data
      ensures Valid() && impl.Valid() && data == impl.data == old(impl.data)
      ensures data.owners == old(impl.data.owners) + {this}
      ensures View() == impl.View() && wrapped == impl.wrapped
      ensures forall b :: b in old(impl.data.owners) ==> b.Valid() && b.View() == old(b.View())
    {
      wrapped, data := impl.wrapped, impl.data;
      new;
      hide Ok, ViewOf;
      data.useCount := data.useCount + 1;
      data.owners := data.owners + {this};
    }

    /** The data count their users, and make sense on top of what each of them wraps. */
    ghost predicate Valid()
      reads this, data, data.owners
    {
      && this in data.owners && data.useCount == |data.owners|
      && forall b :: b in data.owners ==> b.data == data && Ok(b.wrapped, data.State())
    }

    /** The FST one reads. */
    ghost function View(): Fst<W>
      requires Ok(wrapped, data.State())
      reads this, data
    {
      ViewOf(wrapped, data.State())
    }

    function Start(): (r: int)
      requires Valid()
      reads this, data, data.owners
      ensures r == View().start
    {
      StartOf(wrapped, data.State())
    }

    function Final(s: nat): (r: W)
      requires Valid() && s < |View().arcs|
      reads this, data, data.owners
      ensures r == View().finals[s]
    {
      FinalOf(wrapped, data.State(), s)
    }

    function NumStates(): (r: nat)
      requires Valid()
      reads this, data, data.owners
      ensures r == |View().arcs|
    {
      |wrapped.arcs| + data.numNewStates
    }

    function NumArcs(s: nat): (r: nat)
      requires Valid() && s < |View().arcs|
      reads this, data, data.owners
      ensures r == |View().arcs[s]|
    {
      |ArcsOf(wrapped, data.State(), s)|
    }

    /** Gives this object data of its own if others use them too. */
    method MutateCheck()
      requires Valid()
      modifies this`data, data`useCount, data`owners
      ensures Valid() && data.owners == {this} && data.State() == old(data.State()) && data.zero == old(data.zero)
      ensures old(data.useCount) == 1 ==> data == old(data)
      ensures old(data.useCount) != 1 ==> fresh(data)
      ensures forall b :: b in old(data.owners) && b != this ==> b.Valid() && b.View() == old(b.View())
    {
      hide Ok, ViewOf;
      ghost var others := data.owners - {this};
      if data.useCount != 1 {
        data.useCount := data.useCount - 1;
        data.owners := others;
        data := new EditFstData(data.zero, data.State());
        data.useCount := 1;
        data.owners := {this};
      } else {
        SingleOwner(data.owners, this);
      }
    }

    /** Sets the start state; setting it to none brings back the start of the wrapped FST. */
    method SetStart(s: int)
      requires Valid()
      modifies this`data, data
      ensures Valid() && wrapped == old(wrapped) && data.owners == {this} && data.zero == old(data.zero)
      ensures data == old(data) || fresh(data)
      ensures View() == Fst(if s == NO_STATE_ID then wrapped.start else s, old(View().finals), old(View().arcs))
      ensures forall b :: b in old(data.owners) && b != this ==> b.Valid() && b.View() == old(b.View())
    {
      hide Ok, ViewOf;
      MutateCheck();
      data.SetStart(s, wrapped);
    }

    method SetFinal(s: nat, w: W)
      requires Valid() && s < |View().arcs|
      modifies this`data, data
      ensures Valid() && wrapped == old(wrapped) && data.owners == {this} && data.zero == old(data.zero)
      ensures data == old(data) || fresh(data)
      ensures View() == Fst(old(View().start), old(View().finals[s := w]), old(View().arcs))
      ensures forall b :: b in old(data.owners) && b != this ==> b.Valid() && b.View() == old(b.View())
    {
      hide Ok, ViewOf;
      MutateCheck();
      var _ := data.SetFinal(s, w, wrapped);
    }

    method AddState() returns (s: nat)
      requires Valid()
      modifies this`data, data
      ensures Valid() && wrapped == old(wrapped) && data.owners == {this} && data.zero == old(data.zero)
      ensures data == old(data) || fresh(data)
      ensures View() == Fst(old(View().start), old(View().finals) + [data.zero], old(View().arcs) + [[]])
      ensures s == |old(View().arcs)|
      ensures forall b :: b in old(data.owners) && b != this ==> b.Valid() && b.View() == old(b.View())
    {
      hide Ok, ViewOf;
      MutateCheck();
      s := data.AddState(NumStates(), wrapped);
    }

    method AddArc(s: nat, arc: Arc<W>)
      requires Valid() && s < |View().arcs|
      modifies this`data, data
      ensures Valid() && wrapped == old(wrapped) && data.owners == {this} && data.zero == old(data.zero)
      ensures data == old(data) || fresh(data)
      ensures View() == Fst(old(View().start), old(View().finals), old(View().arcs[s := View().arcs[s] + [arc]]))
      ensures forall b :: b in old(data.owners) && b != this ==> b.Valid() && b.View() == old(b.View())
    {
      hide Ok, ViewOf;
      MutateCheck();
      data.AddArc(s, arc, wrapped);
    }

    method DeleteLastArcs(s: nat, n: nat)
      requires Valid() && s < |View().arcs| && n <= |View().arcs[s]|
      modifies this`data, data
      ensures Valid() && wrapped == old(wrapped) && data.owners == {this} && data.zero == old(data.zero)
      ensures data == old(data) || fresh(data)
      ensures View() == Fst(old(View().start), old(View().finals), old(View().arcs[s := View().arcs[s][..|View().arcs[s]| - n]]))
      ensures forall b :: b in old(data.owners) && b != this ==> b.Valid() && b.View() == old(b.View())
    {
      hide Ok, ViewOf;
      MutateCheck();
      data.DeleteLastArcs(s, n, wrapped);
    }

    method DeleteArcs(s: nat)
      requires Valid() && s < |View().arcs|
      modifies this`data, data
      ensures Valid() && wrapped == old(wrapped) && data.owners == {this} && data.zero == old(data.zero)
      ensures data == old(data) || fresh(data)
      ensures View() == Fst(old(View().start), old(View().finals), old(View().arcs[s := []]))
      ensures forall b :: b in old(data.owners) && b != this ==> b.Valid() && b.View() == old(b.View())
    {
      hide Ok, ViewOf;
      MutateCheck();
      data.DeleteArcs(s, wrapped);
    }

    /** Deletes all states. The data are not copied first: whoever shares them loses its edits. */
    method DeleteStates()
      requires Valid()
      modifies this, data
      ensures Valid() && data == old(data) && data.owners == old(data.owners)
      ensures View() == Fst(NO_STATE_ID, [], [])
      ensures forall b :: b in data.owners && b != this ==> b.Valid() && b.View() == b.wrapped == old(b.wrapped)
    {
      data.DeleteStates();
      wrapped := EmptyFst();
      NoEditsView(wrapped);
      forall b | b in data.owners ensures Ok(b.wrapped, data.State()) && ViewOf(b.wrapped, data.State()) == b.wrapped {
        NoEditsView(b.wrapped);
      }
    }

    /** One edit, whichever it is. */
    method Perform(e: Edit<W>)
      requires Valid() && Applies(View(), e)
      modifies this`data, data
      ensures Valid() && wrapped == old(wrapped) && data.owners == {this} && data.zero == old(data.zero)
      ensures data == old(data) || fresh(data)
      ensures View() == ApplyEdit(old(View()), data.zero, e)
      ensures forall b :: b in old(data.owners) && b != this ==> b.Valid() && b.View() == old(b.View())
    {
      match e
      case SetStart(s) => SetStart(s);
      case SetFinal(s, w) => SetFinal(s, w);
      case AddState => var _ := AddState();
      case AddArc(s, arc) => AddArc(s, arc);
      case DeleteArcs(s) => DeleteArcs(s);
      case DeleteLastArcs(s, n) => DeleteLastArcs(s, n);
    }

    /** Any run of edits reads like the same run on a plain mutable FST, and goes unnoticed by
        every copy. */
    method PerformAll(es: seq<Edit<W>>)
      requires Valid() && AllApply(View(), data.zero, es)
      modifies this`data, data
      ensures Valid() && wrapped == old(wrapped) && data.zero == old(data.zero)
      ensures data == old(data) || fresh(data)
      ensures View() == ApplyAll(old(View()), data.zero, es)
      ensures forall b :: b in old(data.owners) && b != this ==> b.Valid() && b.View() == old(b.View())
      decreases |es|
    {
      if es != [] {
        Perform(es[0]);
        forall b | b in old(data.owners) && b != this ensures b.data != data && this !in b.data.owners {
          assert b.Valid();
        }
        PerformAll(es[1..]);
      }
    }
  }

  lemma SingleOwner<W>(owners: set<EditFstImpl<W>>, b: EditFstImpl<W>)
    requires b in owners && |owners| == 1
    ensures owners == {b}
  {
    assert |owners - {b}| == 0;
  }

  /** Reading back a start state gives what was set, unless none was set and the wrapped FST has one. */
  lemma StartReadsBackWhen<W>(wrapped: Fst<W>, d: Overlay<W>, s: int)
    requires Ok(wrapped, d)
    ensures StartOf(wrapped, d.(edits := WithStart(d.edits, s))) == s
            <==> s != NO_STATE_ID || wrapped.start == NO_STATE_ID
  {
  }
}
