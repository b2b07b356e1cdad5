# Verified model of the text normalizer's automaton engine and text passes

The normalizer rewrites text with weighted finite-state transducers from a bundled OpenFst 1.6.7 and
with its own spacing, placeholder and punctuation passes. This project models the algorithms both rest
on and proves what they are for.

* **Composition** (`Fst`, `Matcher`, `Compose`, `ComposeFst`, `ComposePaths`). The three epsilon filters,
  the sorted matcher with its implicit epsilon loop and the expansion loops. Accepting paths of the
  result correspond one to one with pairs of accepting paths that agree on the string in between, for
  each filter and whichever side is matched, and carry the product of the two weights.
* **Components and trimming** (`Reach`, `Tarjan`, `SccVisitor`, `DfsVisit`, `VectorFst`, `Connect`). The
  coloured explicit-stack search with the single-pass component visitor is exact about components,
  accessibility and coaccessibility; `Connect` keeps exactly the accepting paths.
* **Determinization** (`Determinize`, `DeterminizePaths`, `DeterminizeFst`). Weighted subset construction
  over exact tropical weights gives every string the weight it had, and at most one path.
* **Equivalence** (`Equivalent`). The union-find check returns true exactly when the languages agree.
* **Supporting structures** (`IntervalSet`, `LabelReachable`, `Heap`, `StateSort`, `EditFst`). Canonical
  interval sets, label reachability with two strategies, the heap with stable keys, in-place state
  renumbering, the copy-on-write overlay.
* **Text** (`Icu`, `Utf8`, `Spaces`, `SpacesGaps`, `SpacesNormal`, `SpacesLaw`, `Punctuation`). The
  label/UTF-8 round trip, the spacing rules' fixed point and their law gap by gap, the punctuation passes
  by the characters they change.
* **Placeholders** (`Placeholders`, `PlaceholdersTaken`, `PlaceholdersRoundTrip`, `PlaceholderMarks`, `PlaceholderRegions`,
  `PlaceholdersLost`, `PlaceholdersExact`, `PlaceholdersSwallowed`). Protection and restoration of spans:
  when the two undo each other, exactly for texts without underscores, and what is lost otherwise.

`FiniteSets` holds a few facts about finite sets that several components use.

An operation that changes state is a class method proved against a value-level specification; the laws
are lemmas about the specification. `hide` at the head of a lemma keeps definitions it does not need
out of the solver's way.

How the properties are built up:

* `Compose.RunUnique` and `Compose.RunExists` say that a pair of paths that agree is merged by exactly one
  run of moves, whatever the filter prunes; `ComposeFstImpl.OrderedExpand` pushes exactly the moves the
  filter lets through, each once; `ComposePaths` turns runs into paths of the result.
* `Tarjan.Inv` is kept by the three visitor steps; the loop in `Dfs.SearchTree` only performs those
  steps, and `Dfs.VisitIsExact` reads the answer off the invariant at the end. `Connect.Connect` is
  stated through the deleted set, and `AcceptingPathSurvives` and `LeftPathIsOld` are the bijection.
* What protection and restoration do is proved on texts whose every character carries its origin
  (`PlaceholderMarks.Mark`): the neighbours a character can have are kept by every pass, and restoring the
  tags in the order of their numbers either keeps them or leaves a name that no later tag can take away
  (`PlaceholdersLost.Step`).
* Spacing is proved on a second representation, the sequence of visible characters with the number of
  spaces in each gap (`SpacesGaps.Spacing`): each pass is shown to be a pointwise change of gaps, and
  idempotence is then a statement about gaps. `SpacesLaw.GapLaw` brings the result back to texts and says,
  by code points alone, what stands between any two neighbouring visible characters afterwards.
* The passes on characters (`Punctuation`, `PlaceholdersTaken`, `SpacesLaw`, `SpacesGaps.Joined`) are stated
  with literal code points, apart from the classes the passes themselves use.

Where code and documentation differ, or a law needs a condition, the model follows the code:

* With no start state `Connect` deletes nothing, although every state is useless (`Connect.ConnectTrims`).
* With no start state `StateSort` leaves the states unsorted. For an FST whose states differ in their
  weights or labels that is right only for the identity (`StateSorting.UnsortedIsReorderingWhen`, and the
  method's own contract); `StateSorting.UnsortedExample` is an instance.
* In `EditFst`, setting the start to "no state" is lost exactly when the wrapped FST has a start
  (`EditFst.StartReadsBackWhen`). The comment on the two-argument `DeleteArcs` says all but the first n
  arcs are removed; the code removes the last n. `DeleteStates()` alone skips the copy that protects
  sharers: each of them then reads as its wrapped FST again, which `EditFstImpl.DeleteStates` states.
* The two strategies of `LabelReachable` give different answers exactly when label 0 is in the interval
  set and on an arc of the range (`LabelReach.StrategiesAgreeWhen`). The program numbers the labels of its
  interval sets from 1 (`state-reachable.h:46`), and on such sets they agree
  (`LabelReach.StrategiesAgreeFromOne`). Their weights agree without
  associativity of Plus: both add the arcs one by one, from the left.
* `Complement` and `Difference` are exact on non-negative intervals; on negative ones exactly when
  `IntervalSets.ComplementIsExactWhen` and `IntervalSets.DifferenceIsExactWhen` say; both fail on
  [-5, -3) (`IntervalSets.NegativeExample`).
* `RestoreSpans` does not always undo `ProtectSpans`. For texts without underscores (and without "PROT")
  it does if and only if no match that is replaced overlaps an earlier placeholder, which is so if and only
  if no protected span holds an underscore (`PlaceholdersExact.RestoreUndoesProtectWhen`). The text `..#x`
  is lost (`PlaceholdersRoundTrip.ExampleIsLost`). For texts with underscores, matches that keep clear of
  placeholders are enough (`PlaceholdersRoundTrip.RestoreUndoesProtect`) but not needed.
* One would expect a text to be lost whenever a protected span holds the letters "PROT". With at most ten
  placeholders that is so (`PlaceholdersSwallowed.SwallowedNameIsLost`), and for the last span always
  (`PlaceholdersRoundTrip.SwallowedTagIsLost`). With eleven it is not: in
  `@#0___,!,!,!,!,!,!,!,#0___` the tag numbered 1, cut short and followed by a restored span that begins
  with `0___`, reads as the tag numbered 10, and the text comes back
  (`PlaceholdersSwallowed.ElevenComeBack`).
* `UTF8StringToLabels` accepts overlong forms and the lead bytes 0xFE and 0xFF; encoding gives the bytes
  back exactly when neither occurs, which the lead bytes and the bytes behind them show
  (`Icu.ReencodeIsSameWhen`); 0xC0 0x80 is an instance (`Icu.OverlongExample`).
* After the repeated-punctuation pass two marks of one class still stand side by side in one case, the
  canonical form of a mixed run (`Punctuation.SqueezedHasNoRepeats`).

The source names in the table are relative to the repository's root.

## Model

| member | source | states |
|---|---|---|
| ComposePaths.AcceptingPairIsComposedOnce | third/openfst-1.6.7-install/include/fst/compose-filter.h:226-247 | every pair of accepting paths whose middle strings agree is the image of exactly one accepting path of the result, for each filter kind, so the pruning flags lose and duplicate nothing |
| ComposePaths.ComposedPathIsAcceptingPair | third/openfst-1.6.7-install/include/fst/compose.h:334-397 | every accepting path of the result comes from such a pair and has the first path's input string and the second path's output string |
| ComposePaths.ComposedPathWeight | third/openfst-1.6.7-install/include/fst/compose.h:368-397 | an accepting path weighs the product of its two component paths, final weights included, in any commutative semiring |
| ComposePaths.ExpansionIsIndependentOfSide | third/openfst-1.6.7-install/include/fst/compose.h:277-365 | two expansions of a state, however the sides were matched and the table numbered, push the same multiset of arcs up to the tuples the targets stand for |
| ComposePaths.ExpandedIsComplete | third/openfst-1.6.7-install/include/fst/compose.h:277-287 | an implementation object that has expanded every state it numbered satisfies the hypothesis of the path theorems |
| ComposePaths.PathIsRun | third/openfst-1.6.7-install/include/fst/compose.h:334-374 | a path of the result performs a run of enabled moves that ends in the tuple of the path's last state with the path's weight |
| ComposePaths.RunIsPath | third/openfst-1.6.7-install/include/fst/compose.h:334-374 | every run of enabled moves is performed by some path of the result |
| Compose.RunUnique | third/openfst-1.6.7-install/include/fst/compose-filter.h:238-247 | two runs from one tuple that project to the same two paths are the same run: the filters admit one interleaving of epsilon moves |
| Compose.RunExists | third/openfst-1.6.7-install/include/fst/compose-filter.h:226-247 | two paths that agree on the middle string and end in final states are merged by some run the filter allows |
| Compose.FilterAdmits | third/openfst-1.6.7-install/include/fst/compose-filter.h:226-422 | at a filter state that is not stuck each of the three filters admits the preferred next move and is again not stuck, despite the flags computed for the two states |
| Compose.StuckNeverFinishes | third/openfst-1.6.7-install/include/fst/compose-filter.h:226-422 | once a filter state blocks the next arcs of two paths no run completes them, so each pair is merged in one way only |
| Compose.RightAlone | third/openfst-1.6.7-install/include/fst/compose-filter.h:226-247 | when the second side may read an epsilon alone, for each filter: in the sequence filter if and only if the first side is final or has an arc that is no epsilon, so that no arc is pushed into a state that must wait forever; and the filter state stays 0 if the first side has no epsilon |
| Compose.LeftAlone | third/openfst-1.6.7-install/include/fst/compose-filter.h:302-326 | the same for the first side, which the alternative sequence filter prunes |
| Compose.BothTogether | third/openfst-1.6.7-install/include/fst/compose-filter.h:402-422 | when both sides may move together: always on a label, on epsilons only under the match filter before either has gone ahead |
| Compose.FilterStateStays | third/openfst-1.6.7-install/include/fst/compose-filter.h:226-422 | if one of the FSTs has no epsilons on the composed side, the filter state is 0 after every run |
| Compose.RunProjects | third/openfst-1.6.7-install/include/fst/compose.h:334-374 | a run walks a path in each operand, the two agree on the middle string, and they end in the states of the last tuple |
| Compose.RunWeightIsProduct | third/openfst-1.6.7-install/include/fst/compose.h:368-374 | the weight of a run is the product of the weights of the two paths, in any commutative semiring |
| ComposeFst.ComposeFilter.SetState | third/openfst-1.6.7-install/include/fst/compose-filter.h:385-400 | after the call the stored flags are the ones the two states' arc counts, epsilon counts and finality define, for each of the three filters |
| ComposeFst.ComposeFilter.Filter | third/openfst-1.6.7-install/include/fst/compose-filter.h:402-422 | answers the filter transition of the state the filter was set to |
| ComposeFst.ComposeFstImpl.FindState | third/openfst-1.6.7-install/include/fst/compose.h:376-384 | numbers tuples injectively: a known tuple keeps its number, a new one extends the table |
| ComposeFst.ComposeFstImpl.ComputeStart | third/openfst-1.6.7-install/include/fst/compose.h:376-384 | no start exactly when an operand has none, otherwise the number of the pair of starts in the filter's start state |
| ComposeFst.ComposeFstImpl.ComputeFinal | third/openfst-1.6.7-install/include/fst/compose.h:386-397 | the final weight of the pair a state stands for, Zero as soon as the first operand's is |
| ComposeFst.ComposeFstImpl.Expand | third/openfst-1.6.7-install/include/fst/compose.h:277-287 | caches for this state, and only for it, a complete expansion: each enabled move once and nothing else, with all earlier numbers and arcs unchanged |
| ComposeFst.ComposeFstImpl.ExpandAll | third/openfst-1.6.7-install/include/fst/compose.h:978-985 | expanding state after state, as copying the result does, ends with every numbered state expanded |
| ComposeFst.TableIsFinite | third/openfst-1.6.7-install/include/fst/compose.h:376-384 | the state table never holds more than three states for each pair of states |
| ComposeFst.ComposeFstImpl.OrderedExpand | third/openfst-1.6.7-install/include/fst/compose.h:334-346 | the pushed arcs describe exactly the enabled moves of the tuple, each once |
| ComposeFst.ComposeFstImpl.MatchArc | third/openfst-1.6.7-install/include/fst/compose.h:350-365 | advances the list of pushed moves over every candidate of one walked arc |
| ComposeFst.ComposeFstImpl.AddMatches | third/openfst-1.6.7-install/include/fst/compose.h:354-364 | offers the filter exactly the arcs, loop included, that match the walked arc, and skips none |
| ComposeFst.ComposeFstImpl.AddArc | third/openfst-1.6.7-install/include/fst/compose.h:368-374 | pushes the one arc that describes the move: labels, weight product and target tuple |
| Matcher.SortedMatcher.SetState | third/openfst-1.6.7-install/include/fst/matcher.h:233-245 | positions the matcher on a state's arcs |
| Matcher.SortedMatcher.Find | third/openfst-1.6.7-install/include/fst/matcher.h:247-261 | true exactly when the label is epsilon or on some arc; the position is the first arc not below it; the loop is pending exactly for epsilon |
| Matcher.SortedMatcher.Search | third/openfst-1.6.7-install/include/fst/matcher.h:379-388 | whichever search is used, the position is the lower bound and the answer is whether the label occurs |
| Matcher.SortedMatcher.BinarySearch | third/openfst-1.6.7-install/include/fst/matcher.h:347-362 | lower bound and presence of the label on sorted arcs |
| Matcher.SortedMatcher.LinearSearch | third/openfst-1.6.7-install/include/fst/matcher.h:367-374 | lower bound and presence of the label on sorted arcs |
| Matcher.SortedMatcher.Next | third/openfst-1.6.7-install/include/fst/matcher.h:294-300 | leaves the loop first, then moves one arc on |
| Tarjan.DiscoverKeepsInv | third/openfst-1.6.7-install/include/fst/connect.h:202-224 | discovering a white state keeps the invariant of the search: numbering, stack order, low links, finished components, coaccessibility |
| Tarjan.ExploreKeepsInv | third/openfst-1.6.7-install/include/fst/connect.h:120-141 | following a back, forward or cross arc keeps it |
| Tarjan.FinishKeepsInv | third/openfst-1.6.7-install/include/fst/connect.h:227-254 | finishing a state, closing its component if it is a root and telling its parent, keeps it |
| Tarjan.MembersConnected | third/openfst-1.6.7-install/include/fst/connect.h:229-249 | the states popped with a root reach one another |
| Tarjan.RootIsClosed | third/openfst-1.6.7-install/include/fst/connect.h:229-249 | no arc leads from a root's component to a state still open below it |
| SccVisit.SccVisitor.InitState | third/openfst-1.6.7-install/include/fst/connect.h:202-224 | performs the discovery step on the visitor's vectors |
| SccVisit.SccVisitor.BackArc | third/openfst-1.6.7-install/include/fst/connect.h:120-131 | performs the back-arc step on low links and coaccessibility |
| SccVisit.SccVisitor.ForwardOrCrossArc | third/openfst-1.6.7-install/include/fst/connect.h:133-141 | performs the forward-or-cross step |
| SccVisit.SccVisitor.FinishState | third/openfst-1.6.7-install/include/fst/connect.h:227-254 | performs the finishing step: numbers and marks the whole component of a root, then passes low link and coaccessibility to the parent |
| SccVisit.SccVisitor.MemberCoaccess | third/openfst-1.6.7-install/include/fst/connect.h:230-236 | true exactly when some member of the component is marked coaccessible |
| SccVisit.SccVisitor.PopMembers | third/openfst-1.6.7-install/include/fst/connect.h:237-243 | all stack entries from the root on, and no others, get the component's number and mark and leave the stack |
| SccVisit.SccVisitor.FinishVisit | third/openfst-1.6.7-install/include/fst/connect.h:146-152 | reverses the numbering of every state |
| Dfs.DfsVisit | third/openfst-1.6.7-install/include/fst/dfs-visit.h:94-195 | the visit terminates and leaves: equal numbers exactly for mutually reachable states, no arc to a lower number, access exactly for states reachable from the start, coaccess exactly for states that reach a final one |
| Dfs.SearchTree | third/openfst-1.6.7-install/include/fst/dfs-visit.h:123-177 | one tree of the forest: every state seen stays seen, the root is seen, the invariant holds with an empty stack |
| Dfs.VisitIsExact | third/openfst-1.6.7-install/include/fst/connect.h:146-152 | the invariant at the end of the search implies the exact answer after renumbering |
| Dfs.ComponentsDescend | third/openfst-1.6.7-install/include/fst/connect.h:146-152 | along paths component numbers, before reversal, never grow |
| Dfs.AccessIsReachability | third/openfst-1.6.7-install/include/fst/connect.h:215-221 | marks set only in the start's tree coincide with reachability from the start |
| Dfs.FirstTreeIsClosed | third/openfst-1.6.7-install/include/fst/dfs-visit.h:122-177 | when the first tree is finished it is closed under arcs, so states found later are not reachable from the start |
| Connect.Connect | third/openfst-1.6.7-install/include/fst/connect.h:266-279 | deletes exactly the states that are inaccessible or not coaccessible; with no start it changes nothing |
| Connect.ConnectTrims | third/openfst-1.6.7-install/include/fst/connect.h:266-279 | the result is trim if and only if there was a start state or no state at all |
| Connect.AcceptingPathSurvives | third/openfst-1.6.7-install/include/fst/connect.h:266-279 | every accepting path is still there after renumbering, with labels, weights and final weight unchanged |
| Connect.LeftPathIsOld | third/openfst-1.6.7-install/include/fst/connect.h:266-279 | every accepting path of the result is the image of exactly one accepting path of the input |
| Connect.EverySurvivorIsUseful | third/openfst-1.6.7-install/include/fst/connect.h:266-279 | every state that is left lies on an accepting path of the result |
| VectorFst.VectorFst.DeleteStates | third/openfst-1.6.7-install/include/fst/vector-fst.h:181-216 | removes the listed states and the arcs into them and renumbers the rest in order |
| VectorFst.VectorFst.MoveStates | third/openfst-1.6.7-install/include/fst/vector-fst.h:182-194 | moves every kept state to the number of kept states before it and records the map |
| VectorFst.CompactArcs | third/openfst-1.6.7-install/include/fst/vector-fst.h:197-211 | keeps, in order, exactly the arcs into kept states, with their targets renumbered |
| DeterminizeFst.DeterminizeKeepsStringWeights | third/openfst-1.6.7-install/include/fst/determinize.h:588-611 | a value is the weight of a string in the result if and only if it is in the input, for every string, when every numbered state is expanded |
| DeterminizeFst.DetPathRepresents | third/openfst-1.6.7-install/include/fst/determinize.h:651-710 | after reading u along any path of the result, arc weights times the residual of q is the least weight of an input path on u to q, for every q |
| DeterminizeFst.DetPathKeepsWeight | third/openfst-1.6.7-install/include/fst/determinize.h:598-611 | a path's weight with the final weight is the least over all accepting input paths on the string |
| DeterminizeFst.DetPathUnique | third/openfst-1.6.7-install/include/fst/determinize.h:651-670 | two paths from one state with the same labels are equal |
| DeterminizeFst.DetPathExists | third/openfst-1.6.7-install/include/fst/determinize.h:637-670 | every string that labels an input path labels a path of the result |
| DeterminizePaths.StepRepresents | third/openfst-1.6.7-install/include/fst/determinize.h:651-704 | one normalized step keeps the meaning of a residual subset |
| DeterminizePaths.RepresentsStringWeight | third/openfst-1.6.7-install/include/fst/determinize.h:598-611 | the subset's final weight, times what has been emitted, is the weight of the string |
| Determinize.NormArc | third/openfst-1.6.7-install/include/fst/determinize.h:672-702 | merges the elements of equal states and divides by the least weight: the divisor is a lower bound of all weights of the entry and the weight of one, every residual is at least One and some residual is One, there is one element per state in state order, and divisor times residual is the least weight of that state |
| Determinize.StepWeightIsLeast | third/openfst-1.6.7-install/include/fst/determinize.h:681-702 | the weight of a step is the least weight of all moves on its label, and the weight of one of them |
| Determinize.DivideOut | third/openfst-1.6.7-install/include/fst/determinize.h:696-701 | dividing by the divisor loses no weight: multiplying back restores it |
| Determinize.NormalizedIsStep | third/openfst-1.6.7-install/include/fst/determinize.h:672-702 | a normalized label entry has the least weight of all moves on the label, target by target |
| DeterminizeFst.DeterminizeFsaImpl.GetLabelMap | third/openfst-1.6.7-install/include/fst/determinize.h:651-670 | an entry for exactly the labels leaving the subset, each a normalized step on that label whose residuals are all at least One and one of them One |
| DeterminizeFst.DeterminizeFsaImpl.CollectMoves | third/openfst-1.6.7-install/include/fst/determinize.h:232-242 | collects under each label the destination of every arc of every element |
| DeterminizeFst.DeterminizeFsaImpl.Expand | third/openfst-1.6.7-install/include/fst/determinize.h:637-644 | caches for this state, and only for it, one arc per label, each a step of the subset construction |
| DeterminizeFst.DeterminizeFsaImpl.ComputeStart | third/openfst-1.6.7-install/include/fst/determinize.h:588-596 | the subset holding the input's start with weight One |
| DeterminizeFst.DeterminizeFsaImpl.ComputeFinal | third/openfst-1.6.7-install/include/fst/determinize.h:598-611 | the sum of residual times final weight over the subset |
| DeterminizeFst.DeterminizeFsaImpl.AddArcs | third/openfst-1.6.7-install/include/fst/determinize.h:706-710 | one arc per entry, in label order, to the number of its subset |
| Equivalent.Equivalent | third/openfst-1.6.7-install/include/fst/equivalent.h:153-220 | terminates and returns true if and only if the two deterministic acceptors accept the same strings |
| Equivalent.CongruentHasSameLanguage | third/openfst-1.6.7-install/include/fst/equivalent.h:174-176 | states in one block of a finality-respecting congruence accept the same strings |
| Equivalent.MergeKeepsCongruent | third/openfst-1.6.7-install/include/fst/equivalent.h:183-218 | merging two states and queueing the pairs of their successors keeps the partition a congruence once the queue is merged |
| Equivalent.SkipKeepsCongruent | third/openfst-1.6.7-install/include/fst/equivalent.h:177-183 | dropping a pair already in one block keeps it |
| Equivalent.MismatchDistinguishes | third/openfst-1.6.7-install/include/fst/equivalent.h:209-215 | a pair that differs in finality comes with a string that one acceptor accepts and the other does not |
| Equivalent.CollectArcPairs | third/openfst-1.6.7-install/include/fst/equivalent.h:184-207 | the table pairs the two successors on every label that either state has, the dead state standing in for a missing arc |
| Equivalent.PushPairs | third/openfst-1.6.7-install/include/fst/equivalent.h:209-218 | either every pair of differing successors is queued, or the languages differ |
| Equivalent.MergeFront | third/openfst-1.6.7-install/include/fst/equivalent.h:177-219 | one round keeps the loop invariant with one block fewer, or finds that the languages differ |
| Equivalent.FindOrMakeSet | third/openfst-1.6.7-install/include/fst/equivalent.h:68-79 | answers the representative, adding a singleton for an unknown number and changing no other block |
| Equivalent.AcceptsIsAcceptsFrom | third/openfst-1.6.7-install/include/fst/equivalent.h:52-67 | acceptance by runs over mapped states is acceptance by paths of the acceptor |
| Equivalent.UnionFind.Union | third/openfst-1.6.7-install/include/fst/union-find.h:37-37 | joins two blocks and leaves the others alone |
| IntervalSets.IntervalSet.Normalize | third/openfst-1.6.7-install/include/fst/interval-set.h:208-228 | sorted, non-empty, non-adjacent intervals for the same points, and the count of points |
| IntervalSets.IntervalSet.Absorb | third/openfst-1.6.7-install/include/fst/interval-set.h:215-222 | one interval absorbs exactly the sorted intervals that start within or next to it |
| IntervalSets.IntervalSet.Member | third/openfst-1.6.7-install/include/fst/interval-set.h:138-144 | binary search decides membership of a point |
| IntervalSets.IntervalSet.Intersect | third/openfst-1.6.7-install/include/fst/interval-set.h:233-257 | normalized, with exactly the points in both |
| IntervalSets.IntervalSet.Complement | third/openfst-1.6.7-install/include/fst/interval-set.h:262-283 | normalized, with exactly the points below the maximum that are in no interval and not below an interval that ends before zero |
| IntervalSets.IntervalSet.Difference | third/openfst-1.6.7-install/include/fst/interval-set.h:288-298 | normalized, with exactly the points of the first set outside the second that the complement covers |
| IntervalSets.IntervalSet.Overlaps | third/openfst-1.6.7-install/include/fst/interval-set.h:303-316 | true exactly when the sets meet |
| IntervalSets.IntervalSet.StrictlyOverlaps | third/openfst-1.6.7-install/include/fst/interval-set.h:321-358 | true exactly when the sets meet and each has a point outside the other |
| IntervalSets.IntervalSet.Contains | third/openfst-1.6.7-install/include/fst/interval-set.h:362-383 | true exactly when the other set is included |
| IntervalSets.IntervalSet.Union | third/openfst-1.6.7-install/include/fst/interval-set.h:131-135 | adds the other set's points, leaving the list to be normalized |
| IntervalSets.NormalFormIsCanonical | third/openfst-1.6.7-install/include/fst/interval-set.h:146-150 | two normalized lists are equal if and only if they hold the same points |
| IntervalSets.TotalIsNumberOfPoints | third/openfst-1.6.7-install/include/fst/interval-set.h:125-126 | the count kept beside a normalized list is the number of its points |
| IntervalSets.ComplementIsExactWhen | third/openfst-1.6.7-install/include/fst/interval-set.h:262-283 | the complement within [0, maxval) is exact if and only if no interval ends below both zero and the maximum |
| IntervalSets.NegativeExample | third/openfst-1.6.7-install/include/fst/interval-set.h:262-298 | on [-5, -3) neither the complement within [0, 10) nor the difference with nothing is exact |
| IntervalSets.DifferenceIsExactWhen | third/openfst-1.6.7-install/include/fst/interval-set.h:288-298 | the difference is exact if and only if the first set has no negative point below all of the second |
| LabelReach.LabelReachable.Reach | third/openfst-1.6.7-install/include/fst/label-reachable.h:281-348 | begin, end and weight are those of the arcs in range whose label is reachable, by the strategy the two sizes select, and the answer is whether there is one |
| LabelReach.LabelReachable.ReachByArcs | third/openfst-1.6.7-install/include/fst/label-reachable.h:294-327 | testing each arc finds the first, one past the last, and the sum of the reachable arcs |
| LabelReach.LabelReachable.ReachByIntervals | third/openfst-1.6.7-install/include/fst/label-reachable.h:328-345 | searching each interval, every search starting from the previous bound, finds the same description |
| LabelReach.LabelReachable.LowerBound | third/openfst-1.6.7-install/include/fst/label-reachable.h:464-486 | first position in the range whose label is not below the given one, with the iterator left there |
| LabelReach.LabelReachable.ReachLabel | third/openfst-1.6.7-install/include/fst/label-reachable.h:248-251 | true exactly for a non-zero label in the interval set |
| LabelReach.LabelReachable.Sum | third/openfst-1.6.7-install/include/fst/accumulator.h:42-50 | adds the weights of a range of arcs to a weight, from the left |
| LabelReach.StrategiesAgreeWhen | third/openfst-1.6.7-install/include/fst/label-reachable.h:281-348 | the strategies agree on begin, end and weight if and only if label 0 is not both in the set and in the range |
| LabelReach.StrategiesAgreeFromOne | third/openfst-1.6.7-install/include/fst/state-reachable.h:46-46 | on sets whose labels are numbered from 1 the strategies always agree |
| LabelReach.FoundMeans | third/openfst-1.6.7-install/include/fst/label-reachable.h:293-345 | the answer describes the list of reachable arcs: its first, one past its last, its sum |
| LabelReach.HitsAreAll | third/openfst-1.6.7-install/include/fst/label-reachable.h:293-345 | that list holds exactly the reachable arcs of the range, in order |
| Heaps.Heap.Insert | third/openfst-1.6.7-install/include/fst/heap.h:40-51 | returns a key not in use and adds the value under it; all other keys keep their values |
| Heaps.Heap.Update | third/openfst-1.6.7-install/include/fst/heap.h:57-66 | gives a live key a new value, moving it up or down as needed; all other keys keep theirs |
| Heaps.Heap.Pop | third/openfst-1.6.7-install/include/fst/heap.h:69-75 | returns a least value and removes exactly its key |
| Heaps.Heap.Get | third/openfst-1.6.7-install/include/fst/heap.h:82-82 | the value last given to a live key |
| Heaps.Heap.Empty | third/openfst-1.6.7-install/include/fst/heap.h:85-85 | true exactly when no key is live |
| Heaps.Heap.Clear | third/openfst-1.6.7-install/include/fst/heap.h:87-87 | no key is live any more |
| Heaps.Heap.Swap | third/openfst-1.6.7-install/include/fst/heap.h:124-130 | exchanges two places with their keys; positions and keys stay inverse and every key keeps its value |
| Heaps.Heap.Heapify | third/openfst-1.6.7-install/include/fst/heap.h:133-142 | restores heap order below one place |
| Heaps.Heap.InsertAt | third/openfst-1.6.7-install/include/fst/heap.h:145-152 | restores heap order above one place and returns its key |
| Heaps.RootIsLeast | third/openfst-1.6.7-install/include/fst/heap.h:69-75 | no value of a heap-ordered prefix is less than the one at its root, for every strict weak order |
| Heaps.TopIsLeast | third/openfst-1.6.7-install/include/fst/heap.h:69-75 | no live key holds a value less than the top's |
| Heaps.MoveUp | third/openfst-1.6.7-install/include/fst/heap.h:145-152 | an exchange with the parent moves the only possible fault one level up |
| Heaps.MoveDown | third/openfst-1.6.7-install/include/fst/heap.h:133-142 | an exchange with the better child moves the only possible fault one level down |
| Heaps.SwapKeepsKeys | third/openfst-1.6.7-install/include/fst/heap.h:124-130 | exchanging two places keeps the two index vectors inverse permutations and the live values by key |
| Heaps.ChildrenOf | third/openfst-1.6.7-install/include/fst/heap.h:104-121 | the places whose parent is i are its left and right child, with the root its own parent |
| StateSorting.StateSort | third/openfst-1.6.7-install/include/fst/statesort.h:23-70 | fails exactly on an order of the wrong length; otherwise, given a start, state order[s] ends with s's final weight and s's arcs with renamed targets, and the start is renamed; where states differ in weights or labels, the result is that reordering if and only if there was a start or the order is the identity |
| StateSorting.FollowCycle | third/openfst-1.6.7-install/include/fst/statesort.h:42-67 | writes every state of one cycle once, reading each before it is overwritten, and touches no other cycle |
| StateSorting.WriteState | third/openfst-1.6.7-install/include/fst/statesort.h:60-65 | replaces one state's final weight and arcs by the renamed copy |
| StateSorting.WriteKeepsProgress | third/openfst-1.6.7-install/include/fst/statesort.h:50-67 | writing the next state of a cycle keeps what is already placed and what is still to be read |
| StateSorting.NotYetWritten | third/openfst-1.6.7-install/include/fst/statesort.h:51-59 | the next target on an unfinished cycle has not been overwritten |
| StateSorting.PathIsRenamed | third/openfst-1.6.7-install/include/fst/statesort.h:33-68 | paths carry over to renamed states with the same strings on both sides |
| StateSorting.PathWeightIsKept | third/openfst-1.6.7-install/include/fst/statesort.h:33-68 | and with the same weight |
| StateSorting.UnsortedIsReorderingWhen | third/openfst-1.6.7-install/include/fst/statesort.h:32-32 | without a start, for an FST whose states differ in weights or labels, the untouched FST is the reordering if and only if the order is the identity |
| StateSorting.UnsortedKeepsLooks | third/openfst-1.6.7-install/include/fst/statesort.h:32-32 | without a start the untouched FST can be the reordering only if the order takes every state to one with the same weight and labels, and is for the identity |
| StateSorting.UnsortedExample | third/openfst-1.6.7-install/include/fst/statesort.h:32-32 | a two-state FST without a start is returned unsorted |
| EditFst.EditFstImpl.SetStart | third/openfst-1.6.7-install/include/fst/edit-fst.h:449-454 | reads as before with start set, or the wrapped start when given no state; every other owner of the shared edits reads as before |
| EditFst.EditFstImpl.SetFinal | third/openfst-1.6.7-install/include/fst/edit-fst.h:456-462 | reads as before with one final weight changed; every other owner of the shared edits reads as before |
| EditFst.EditFstImpl.AddState | third/openfst-1.6.7-install/include/fst/edit-fst.h:464-469 | reads as before with a state added at the end; every other owner of the shared edits reads as before |
| EditFst.EditFstImpl.AddArc | third/openfst-1.6.7-install/include/fst/edit-fst.h:471-476 | reads as before with an arc added to one state; every other owner of the shared edits reads as before |
| EditFst.EditFstImpl.DeleteLastArcs | third/openfst-1.6.7-install/include/fst/edit-fst.h:488-493 | reads as before with the arcs of one state cut to the prefix without the last n; every other owner of the shared edits reads as before |
| EditFst.EditFstImpl.DeleteArcs | third/openfst-1.6.7-install/include/fst/edit-fst.h:495-499 | reads as before with all arcs of one state removed; every other owner of the shared edits reads as before |
| EditFst.EditFstImpl.PerformAll | third/openfst-1.6.7-install/include/fst/edit-fst.h:449-499 | any sequence of edits reads as the same sequence on a plain FST, and leaves every earlier sharer's reading unchanged |
| EditFst.EditFstImpl.Perform | third/openfst-1.6.7-install/include/fst/edit-fst.h:449-499 | one edit reads as the same edit on a plain FST |
| EditFst.EditFstImpl.DeleteStates | third/openfst-1.6.7-install/include/fst/edit-fst.h:577-585 | reads as empty; every sharer loses its edits and reads as its own wrapped FST |
| EditFst.EditFstImpl.MutateCheck | third/openfst-1.6.7-install/include/fst/edit-fst.h:552-557 | afterwards the edits have one owner; they are copied exactly when they were shared, and no reading changes |
| EditFst.EditFstImpl.Copy | third/openfst-1.6.7-install/include/fst/edit-fst.h:392-397 | shares the edits and reads like the original; no other sharer changes |
| EditFst.EditFstImpl.Start | third/openfst-1.6.7-install/include/fst/edit-fst.h:401-404 | the start of the combined FST |
| EditFst.EditFstImpl.Final | third/openfst-1.6.7-install/include/fst/edit-fst.h:406-406 | the final weight in the combined FST, wherever it is stored |
| EditFst.EditFstImpl.NumArcs | third/openfst-1.6.7-install/include/fst/edit-fst.h:408-408 | the arc count in the combined FST |
| EditFst.EditFstImpl.NumStates | third/openfst-1.6.7-install/include/fst/edit-fst.h:418-420 | the state count of the combined FST |
| EditFst.EditFstData.GetEditableInternalId | third/openfst-1.6.7-install/include/fst/edit-fst.h:249-272 | makes a state editable by copying it, and moves a stored final weight into the copy; nothing reads differently |
| EditFst.EditFstData.SetFinal | third/openfst-1.6.7-install/include/fst/edit-fst.h:134-147 | changes one final weight, in the copy or in the side map but never both, and returns the old one |
| EditFst.EditFstData.AddState | third/openfst-1.6.7-install/include/fst/edit-fst.h:149-155 | numbers a new state after all others and enters it in the map |
| EditFst.CopyKeepsView | third/openfst-1.6.7-install/include/fst/edit-fst.h:249-272 | copying a state into the edits keeps the overlay's invariant and its reading |
| EditFst.EditedFinalView | third/openfst-1.6.7-install/include/fst/edit-fst.h:134-147 | a final weight written to a copied state is the one read |
| EditFst.SideFinalView | third/openfst-1.6.7-install/include/fst/edit-fst.h:134-147 | a final weight written to the side map is the one read, with the wrapped arcs still in place |
| EditFst.StartReadsBackWhen | third/openfst-1.6.7-install/include/fst/edit-fst.h:401-404 | a start reads back if and only if it is a state or the wrapped FST has none |
| Icu.RoundTrip | third/openfst-1.6.7-install/include/fst/icu.h:26-104 | every list of labels in [0, 2^31) is encoded, and decoding reads back exactly that list |
| Icu.LabelRoundTrip | third/openfst-1.6.7-install/include/fst/icu.h:26-104 | one encoded label is read back with its length whatever follows it, in each of the six length classes |
| Icu.EncodeFailsWhen | third/openfst-1.6.7-install/include/fst/icu.h:66-104 | encoding fails if and only if some label is negative |
| Icu.DecodeSucceedsWhen | third/openfst-1.6.7-install/include/fst/icu.h:26-63 | decoding succeeds if and only if every byte below 0x80 or from 0xC0 on is followed by exactly the bytes from 0x80 to 0xBF that it announces, by byte ranges; overlong forms are not rejected |
| Icu.DecodedIsNonNegative | third/openfst-1.6.7-install/include/fst/icu.h:26-63 | decoding never yields a negative label |
| Icu.ReencodeIsSameWhen | third/openfst-1.6.7-install/include/fst/icu.h:26-104 | encoding what was decoded gives the same bytes if and only if no lead byte is 0xC0, 0xC1, 0xFE or 0xFF and none of 0xE0, 0xF0, 0xF8, 0xFC stands before too small a byte |
| Icu.ShortestByBytes | third/openfst-1.6.7-install/include/fst/icu.h:26-104 | a decoded label is in its shortest form if and only if its first two bytes say so |
| Icu.OverlongExample | third/openfst-1.6.7-install/include/fst/icu.h:26-63 | the bytes 0xC0 0x80 decode to the label 0, which is encoded in one byte |
| Icu.UTF8StringToLabels | third/openfst-1.6.7-install/include/fst/icu.h:26-63 | accepts exactly the decodable strings and appends their labels, or those before the fault |
| Icu.LabelsToUTF8String | third/openfst-1.6.7-install/include/fst/icu.h:66-104 | succeeds exactly on lists of non-negative labels and writes their encoding; the output is untouched on failure |
| Icu.ReadContinuations | third/openfst-1.6.7-install/include/fst/icu.h:41-53 | reads the announced number of continuation bytes or fails at the first byte that is none |
| Utf8.CharRoundTrip | src/tts_robust_normalizer.cpp:35-69 | for every code point of UTF-8 the lead byte announces the encoded length and decoding at a boundary gives the code point and that length |
| Utf8.CharBoundary | src/tts_robust_normalizer.cpp:911-913 | in an encoded code point exactly the bytes after the first are continuation bytes, so walking back stops at its start |
| Utf8.ContainsCjk | src/tts_robust_normalizer.cpp:100-115 | the byte loop answers whether some code point of the encoded text is a Chinese character |
| Utf8.BoundariesAreLeads | src/tts_robust_normalizer.cpp:911-913 | in encoded text the positions that hold no continuation byte are exactly the starts of characters |
| SpacesNormal.NormalizeSpacesIsIdempotent | src/tts_robust_normalizer.cpp:476-701 | normalizing normalized text changes nothing |
| SpacesNormal.NormalizeSpacesKeepsVisible | src/tts_robust_normalizer.cpp:476-701 | the sequence of characters other than white space is unchanged |
| SpacesNormal.NormalizedLooksRight | src/tts_robust_normalizer.cpp:476-701 | the result has no double space, no space between CJK or kana characters or between them and digits, CJK and kana never directly beside a Latin letter or protected token, no space beside wide punctuation or blank before ASCII punctuation, and no blank edges |
| SpacesNormal.InnerIsFixed | src/tts_robust_normalizer.cpp:479-693 | the passes before the ASCII punctuation rule reach a joint fixed point in one round |
| SpacesNormal.DropsFixed | src/tts_robust_normalizer.cpp:695-701 | dropping blanks before ASCII punctuation keeps that fixed point |
| SpacesLaw.GapLaw | src/tts_robust_normalizer.cpp:476-701 | between any two neighbouring visible characters, by code points: nothing is left before , . ; ! ?; spaces vanish if both are CJK or kana, one is CJK or kana and the other a digit, or one touches wide punctuation on its trimmed side, and otherwise become exactly one; where there was none, one appears between CJK or kana and a letter or placeholder and nowhere else; other white space stays |
| SpacesLaw.LeadLaw | src/tts_robust_normalizer.cpp:695-701 | white space in front of the first visible character vanishes if and only if it is spaces and tabs only or , . ; ! ? follows; what stays begins with neither |
| SpacesLaw.TrailLaw | src/tts_robust_normalizer.cpp:695-701 | white space behind the last visible character vanishes if and only if it is spaces and tabs only; what stays ends in neither |
| SpacesLaw.OneGap | src/tts_robust_normalizer.cpp:479-693 | the same rule for one gap of the first six passes, from what reading placeholders from the front finds |
| Spaces.JoinCjk | src/tts_robust_normalizer.cpp:487-513 | the loop computes the specified joining of CJK and kana across spaces, which SpacesGaps.JoinFlat states by code points |
| Spaces.JoinDigits | src/tts_robust_normalizer.cpp:516-554 | the loop computes the specified joining of CJK and kana with digits |
| Spaces.PartLatin | src/tts_robust_normalizer.cpp:557-649 | the loop, with its look back into the result at a token, computes the specified parting from Latin letters and protected tokens |
| Spaces.AppendToken | src/tts_robust_normalizer.cpp:563-608 | one round of the loop at a protected token: what is written and what is left to read make up the same specified result |
| Spaces.TrimPunct | src/tts_robust_normalizer.cpp:655-693 | the loop, which also removes spaces already written, computes the specified trimming around wide punctuation |
| Spaces.StripEdges | src/tts_robust_normalizer.cpp:151-160 | removes exactly the spaces and tabs at both ends |
| Spaces.NormalizeSpaces | src/tts_robust_normalizer.cpp:476-701 | computes the composition of the passes in their order, whose effect on every gap SpacesLaw.GapLaw states |
| SpacesGaps.JoinFlat | src/tts_robust_normalizer.cpp:487-554 | joining changes gap widths only: those between two CJK or kana characters, or in the third pass between one of them and a digit, by code-point ranges, become zero, and all others stay |
| SpacesGaps.PartFlat | src/tts_robust_normalizer.cpp:557-649 | parting changes gap widths only: those at a parted boundary or token end become one, all others stay |
| SpacesGaps.TrimFlat | src/tts_robust_normalizer.cpp:655-693 | trimming changes gap widths only: those beside wide punctuation become zero, all others stay |
| SpacesGaps.FlatOfParse | src/tts_robust_normalizer.cpp:476-701 | reading text as visible characters and gaps loses nothing |
| PlaceholdersRoundTrip.RestoreUndoesProtect | src/tts_robust_normalizer.cpp:348-438 | restoring protected text gives the text back for any number of arbitrary matchers, when it holds no tag prefix and no replaced match overlaps a placeholder |
| PlaceholdersExact.RestoreUndoesProtectWhen | src/tts_robust_normalizer.cpp:348-438 | for a text without underscores and tag prefix and any number of arbitrary matchers, restoring gives the text back if and only if no replaced match overlaps a placeholder, and that is so if and only if no protected span holds an underscore |
| PlaceholdersExact.UnderscoreIsLost | src/tts_robust_normalizer.cpp:425-438 | if a protected span of a text without underscores holds one, what is restored holds the letters of the prefix |
| PlaceholdersExact.OverlapIsRecorded | src/tts_robust_normalizer.cpp:387-403 | a replaced match that overlaps a placeholder records a span with an underscore, by the rule that skips matches after a word character |
| PlaceholderMarks.PassMarks | src/tts_robust_normalizer.cpp:381-406 | a pass keeps, for characters that carry their origin, what may stand beside what: words of the text go on, tags stand behind no word, and behind a tag stands what stood behind its span |
| PlaceholderMarks.ProtectedMarks | src/tts_robust_normalizer.cpp:409-422 | the same over all passes, with every tag still in the text or in a later span |
| PlaceholderRegions.ReplaceAtRegion | src/tts_robust_normalizer.cpp:431-435 | a name in a text is touched by no tag but its own, and by its own only while its three underscores stand behind it |
| PlaceholdersLost.Step | src/tts_robust_normalizer.cpp:429-436 | restoring the next tag leaves the text orderly, or spoils it for good |
| PlaceholdersLost.DirtyIsStuck | src/tts_robust_normalizer.cpp:429-436 | restoring a span that holds part of an earlier tag leaves a name whose turn has passed |
| PlaceholdersLost.FrontlessIsLost | src/tts_robust_normalizer.cpp:429-436 | restoring a tag whose first underscores were taken breaks the tag before it |
| PlaceholdersLost.Run | src/tts_robust_normalizer.cpp:425-438 | if a span with part of a tag has its own tag in the text, the letters of the prefix are left at the end |
| PlaceholdersSwallowed.SwallowedNameIsLost | src/tts_robust_normalizer.cpp:425-438 | with at most ten placeholders a text is lost whenever any protected span holds the letters of the prefix |
| PlaceholdersSwallowed.ElevenComeBack | src/tts_robust_normalizer.cpp:425-438 | with eleven placeholders such a text can come back: an instance |
| PlaceholdersRoundTrip.PassRenders | src/tts_robust_normalizer.cpp:381-406 | one replacement pass turns a rendering of the text into a rendering with more spans replaced |
| PlaceholdersRoundTrip.RestoreRenders | src/tts_robust_normalizer.cpp:429-436 | restoring one tag undoes exactly that placeholder in a rendering |
| PlaceholdersRoundTrip.LocateMatch | src/tts_robust_normalizer.cpp:387-403 | a match clear of placeholders is a span of the original text |
| PlaceholdersRoundTrip.SwallowedTagIsLost | src/tts_robust_normalizer.cpp:425-438 | when the last protected span contains the letters of the prefix, restoring does not give the text back, however many there are |
| PlaceholdersRoundTrip.ExampleIsLost | src/tts_robust_normalizer.cpp:371-420 | a hashtag match followed by a dot-token match over its placeholder loses the text `..#x` |
| Placeholders.ProtectSpans | src/tts_robust_normalizer.cpp:348-423 | computes the passes in order over one shared list of spans |
| Placeholders.Replace | src/tts_robust_normalizer.cpp:381-406 | one pass over ordered disjoint matches: skips those after a word character, replaces the others by numbered tags, and keeps the text in between |
| PlaceholdersTaken.ReplacedExactly | src/tts_robust_normalizer.cpp:381-406 | of ordered disjoint matches exactly those at 0 or behind a character outside 0-9, A-Z, a-z and _ are taken: their texts are added to the spans in order, numbered tags stand in their places, and every other character is copied |
| PlaceholdersTaken.TakenAre | src/tts_robust_normalizer.cpp:391-395 | the matches taken are those of the list that start at 0 or behind such a character, and no others, still ordered and disjoint |
| PlaceholdersTaken.ProtectedExactly | src/tts_robust_normalizer.cpp:348-422 | the same over all passes, each on the text the one before it leaves |
| Placeholders.RestoreSpans | src/tts_robust_normalizer.cpp:425-438 | computes the replacement of each tag in index order |
| Placeholders.RestoreOne | src/tts_robust_normalizer.cpp:431-435 | replaces every occurrence of a tag, left to right, without rescanning what it inserted |
| Placeholders.ReplacesFirst | src/tts_robust_normalizer.cpp:431-435 | the first occurrence of a tag becomes the span, the text before it is copied and the text behind it is searched on its own, so every occurrence is replaced |
| Placeholders.ReplacesNothing | src/tts_robust_normalizer.cpp:431-435 | a text without the tag stays as it is |
| Placeholders.Find | src/tts_robust_normalizer.cpp:432-432 | the first occurrence from a position on, or none |
| Placeholders.TagIsUnique | src/tts_robust_normalizer.cpp:430-430 | a tag starts another tag's text only if the numbers are equal, so tag 1 is not found in tag 10 |
| Placeholders.TagIsToken | src/tts_robust_normalizer.cpp:399-401 | what protection writes is one whole token to the spacing rules |
| Placeholders.DecimalRoundTrip | src/tts_robust_normalizer.cpp:400-400 | a number is the value of its decimal digits |
| Punctuation.CollapseRepeats | src/tts_robust_normalizer.cpp:780-878 | the loop computes the specified collapse |
| Punctuation.NextPiece | src/tts_robust_normalizer.cpp:784-876 | one round emits the canonical form of one maximal run and skips exactly that run |
| Punctuation.SkipMarks | src/tts_robust_normalizer.cpp:826-838 | skips exclamation and question marks and reports whether the other kind occurred |
| Punctuation.MaximalRunIsCanonical | src/tts_robust_normalizer.cpp:780-878 | in any context a maximal run of one class becomes its canonical form and the text around it is collapsed on its own |
| Punctuation.CommasBecomeOne | src/tts_robust_normalizer.cpp:805-821 | in any context a maximal run of 0x2C and 0xFF0C becomes one 0xFF0C |
| Punctuation.StopsBecomeFirst | src/tts_robust_normalizer.cpp:788-804 | in any context a maximal run of 0x3002 and 0xFF0E becomes its first character |
| Punctuation.MarksBecomeWide | src/tts_robust_normalizer.cpp:822-873 | in any context a maximal run of two or more of 0x21, 0xFF01, 0x3F and 0xFF1F becomes 0xFF1F 0xFF01, 0xFF01 or 0xFF1F according to what it holds, and a single one stays |
| Punctuation.OthersAreCopied | src/tts_robust_normalizer.cpp:874-875 | any other character is copied, and the texts on its two sides are collapsed on their own |
| Punctuation.SqueezeIsIdempotent | src/tts_robust_normalizer.cpp:780-878 | collapsing collapsed text changes nothing |
| Punctuation.SqueezedHasNoRepeats | src/tts_robust_normalizer.cpp:780-878 | neighbours of one class are left only as the canonical form of a mixed run |
| Punctuation.EnsureTerminalPunctuation | src/tts_robust_normalizer.cpp:887-949 | the two backward scans compute the specified ending |
| Punctuation.TerminatedExactly | src/tts_robust_normalizer.cpp:887-949 | for the last character that is neither blank nor closer: the text is unchanged if and only if it is one of 0x21, 0x3F, 0x2C, 0x2025, 0x2026, 0x3000-0x303F, 0xFF00-0xFFEF; it is widened in place if and only if it is 0x2E; 0x3002 is appended in exactly the other cases |
| Punctuation.NothingTerminated | src/tts_robust_normalizer.cpp:887-949 | a non-empty text of closers and blanks only gains 0x3002, the empty text stays |
| Punctuation.EveryTextEnds | src/tts_robust_normalizer.cpp:887-949 | every text falls under one of these two laws |
| Punctuation.TerminatedEndsWell | src/tts_robust_normalizer.cpp:887-949 | non-empty text ends, past trailing blanks and closers, in a terminal character |
| Punctuation.TerminateIsIdempotent | src/tts_robust_normalizer.cpp:887-949 | ending ended text changes nothing |
| Punctuation.TerminateKeepsText | src/tts_robust_normalizer.cpp:887-949 | the text is unchanged, gains one full stop, or has its deciding ASCII full stop widened and nothing else |

## Left out

- Equivalent.UnionFind.Union: does not model ranks or path compression; the partition is a plain map and the second argument's representative always wins, which no result here depends on.
- ComposeFst.ComposeFstImpl.Expand: does not model the cache store, its garbage collection or delayed expansion order; states expand in any order and stay expanded.
- ComposeFst.ComposeFstImpl.FindState: does not model the hash table; the state table is a sequence searched in order, as is the one in DeterminizeFsaImpl.
- DeterminizeFst.DeterminizeKeepsStringWeights: does not claim that expansion ends, which weighted determinization does not promise; it speaks of the result once every numbered state is expanded.
- Determinize.NormArc: does not model rounding; quantization is the identity on exact weights, and weights are integers with infinity.
- Dfs.DfsVisit: does not model FSTs whose number of states is found out during the visit, arc filters, or visitors that stop early.
- SccVisit.SccVisitor.InitState: does not model the property bits or the optional output vectors.
- Equivalent.Equivalent: does not model the branch that pushes weights and encodes arcs first, nor the error flag for inputs that are not deterministic epsilon-free acceptors.
- LabelReach.LabelReachable.Reach: does not model call counters, iterator flags, or how the interval sets are built and labels renumbered; labels are non-negative.
- LabelReach.LabelReachable.Sum: does not model the logarithmic accumulators.
- EditFst.EditFstImpl.PerformAll: does not cover DeleteStates, whose effect on sharers is stated on its own, nor deleting a list of states, which the source rejects.
- PlaceholdersRoundTrip.RestoreUndoesProtect: gives a sufficient condition where the text holds underscores; a match that covers part of a tag can then happen to be restored. Without underscores RestoreUndoesProtectWhen is exact.
- PlaceholdersRoundTrip.SwallowedTagIsLost: speaks of the last span; SwallowedNameIsLost covers all spans up to ten placeholders, and ElevenComeBack shows that there is no such law for more.
- Placeholders.ProtectSpans: does not model what the seven patterns match; a matcher is any function to ordered disjoint matches.
- Spaces.NormalizeSpaces: works on code points free of NUL rather than bytes, as the other passes do. Utf8 proves that decoding, stepping and looking for boundaries on encoded bytes see exactly the code points, and one whole loop over bytes (ContainsCjk); no pass is restated over bytes. The two regular expressions of the phase are modelled by their meaning.
- Punctuation.CollapseRepeats: starts after the ellipsis replacement, whose regular expression is not modelled.
- Punctuation.EnsureTerminalPunctuation: does not model the variant that works line by line.
- Heaps.Heap.Clear: takes the capacity as unbounded; Reserve is not modelled.
- Integer widths are unbounded except for labels and bytes in Icu and Utf8.
- Lookahead filters and matchers, label pushing, and the hash, phi, rho, sigma and multi-epsilon matchers.
- Transducer (Gallic) determinization, distance pruning, disambiguation, condensation and connected components.
- Symbol tables, property bits, error flags, input and output, memory pools, mutable arc iterators.
- The rewriting of hyphens, structural punctuation and base clean-up of the text pipeline, where regular-expression semantics would dominate.
- Sparrowhawk and FAR execution, the command line and configuration.
