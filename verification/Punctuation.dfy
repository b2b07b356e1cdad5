/** Repeated and final punctuation of a text. */
module Punctuation {
  import opened Spaces

  const FULL_STOP: int := 0x3002
  const WIDE_COMMA: int := 0xFF0C
  const WIDE_BANG: int := 0xFF01
  const WIDE_QUESTION: int := 0xFF1F

  // ------------------------------------------------------------ repeated punctuation

  /** Marks that are run together; exclamation and question marks mix. */
  datatype Class = Stop | Comma | Mark | NoClass

  predicate IsBang(c: int) { c == 0x21 || c == WIDE_BANG }

  predicate IsQuestion(c: int) { c == 0x3F || c == WIDE_QUESTION }

  function ClassOf(c: int): Class {
    if c == FULL_STOP || c == 0xFF0E then Stop
    else if c == WIDE_COMMA || c == 0x2C then Comma
    else if IsBang(c) || IsQuestion(c) then Mark
    else NoClass
  }

  /** Where the run of a class that goes on at 'i' ends. */
  function RunEnd(s: Text, i: nat, k: Class): (n: nat)
    requires i <= |s|
    ensures i <= n <= |s|
    ensures forall j :: i <= j < n ==> ClassOf(s[j]) == k
    ensures n < |s| ==> ClassOf(s[n]) != k
    decreases |s| - i
  {
    if i < |s| && ClassOf(s[i]) == k then RunEnd(s, i + 1, k) else i
  }

  predicate HasBang(s: Text) { exists i :: 0 <= i < |s| && IsBang(s[i]) }

  predicate HasQuestion(s: Text) { exists i :: 0 <= i < |s| && IsQuestion(s[i]) }

  /** What a run becomes. */
  function Canonical(run: Text): Text
    requires run != []
  {
    match ClassOf(run[0])
    case Stop => [run[0]]
    case Comma => [WIDE_COMMA]
    case Mark =>
      if |run| == 1 then run
      else if HasBang(run) && HasQuestion(run) then [WIDE_QUESTION, WIDE_BANG]
      else if HasBang(run) then [WIDE_BANG]
      else [WIDE_QUESTION]
    case NoClass => run
  }

  /** All runs, from left to right. */
  function Squeezed(s: Text): Text
    decreases |s|
  {
    if s == [] then []
    else if ClassOf(s[0]) == NoClass then [s[0]] + Squeezed(s[1..])
    else
      var n := RunEnd(s, 1, ClassOf(s[0]));
      Canonical(s[..n]) + Squeezed(s[n..])
  }

  /** A run of one class. */
  ghost predicate IsRun(run: Text, k: Class) {
    run != [] && k != NoClass && forall i :: 0 <= i < |run| ==> ClassOf(run[i]) == k
  }

  /** 's' does not go on with a mark of class 'k'. */
  predicate NotNext(s: Text, k: Class) { s == [] || ClassOf(s[0]) != k }

  lemma {:induction false} RunEndOfRun(run: Text, rest: Text, k: Class, i: nat)
    requires IsRun(run, k) && NotNext(rest, k) && i <= |run|
    ensures RunEnd(run + rest, i, k) == |run|
    decreases |run| - i
  {
    var s := run + rest;
    if i < |run| {
      assert s[i] == run[i];
      RunEndOfRun(run, rest, k, i + 1);
    } else if rest != [] {
      assert s[i] == rest[0];
    }
  }

  lemma SqueezeRun(run: Text, rest: Text, k: Class)
    requires IsRun(run, k) && NotNext(rest, k)
    ensures Squeezed(run + rest) == Canonical(run) + Squeezed(rest)
  {
    var s := run + rest;
    RunEndOfRun(run, rest, k, 1);
    assert s[0] == run[0] && s[..|run|] == run && s[|run|..] == rest;
  }

  lemma FirstRun(s: Text)
    requires s != [] && ClassOf(s[0]) != NoClass
    ensures var k := ClassOf(s[0]);
            var n := RunEnd(s, 1, k);
            0 < n <= |s| && IsRun(s[..n], k) && NotNext(s[n..], k) && s == s[..n] + s[n..]
  {
    hide RunEnd, ClassOf;
    var k := ClassOf(s[0]);
    RunSlices(s, RunEnd(s, 1, k), k);
  }

  lemma RunSlices(s: Text, n: nat, k: Class)
    requires 0 < n <= |s| && k != NoClass && (forall j :: 0 <= j < n ==> ClassOf(s[j]) == k) && (n < |s| ==> ClassOf(s[n]) != k)
    ensures IsRun(s[..n], k) && NotNext(s[n..], k) && s == s[..n] + s[n..]
  {
    hide ClassOf;
  }

  /** Every maximal run becomes its canonical form, whatever is around it. */
  lemma {:induction false} MaximalRunIsCanonical(a: Text, run: Text, b: Text, k: Class)
    requires IsRun(run, k) && NotNext(b, k) && (a == [] || ClassOf(a[|a| - 1]) != k)
    ensures Squeezed(a + run + b) == Squeezed(a) + Canonical(run) + Squeezed(b)
    decreases |a|
  {
    hide Canonical, Squeezed, RunEnd, ClassOf;
    if a == [] {
      SqueezeRun(run, b, k);
      SqueezeNothing();
      assert a + run + b == run + b;
    } else if ClassOf(a[0]) == NoClass {
      MaximalRunIsCanonical(a[1..], run, b, k);
      SqueezeOther(a);
      SqueezeOther(a + run + b);
      assert (a + run + b)[1..] == a[1..] + run + b;
    } else {
      FirstRun(a);
      var l := ClassOf(a[0]);
      var n := RunEnd(a, 1, l);
      var a2 := a[n..];
      MaximalRunIsCanonical(a2, run, b, k);
      SqueezeRun(a[..n], a2, l);
      NotNextConcat(a2, run, b, l, k, a[n - 1]);
      SqueezeRun(a[..n], a2 + run + b, l);
      assert a + run + b == a[..n] + (a2 + run + b);
    }
  }

  lemma NotNextConcat(a: Text, run: Text, b: Text, l: Class, k: Class, last: int)
    requires NotNext(a, l) && IsRun(run, k) && (a == [] ==> l != k)
    ensures NotNext(a + run + b, l)
  {
    if a == [] { assert (a + run + b)[0] == run[0]; }
  }

  lemma SqueezeNothing()
    ensures Squeezed([]) == []
  {
  }

  lemma SqueezeOther(s: Text)
    requires s != [] && ClassOf(s[0]) == NoClass
    ensures Squeezed(s) == [s[0]] + Squeezed(s[1..])
  {
  }

  /** Canonical forms are runs that stay as they are, of the class they came from. */
  lemma CanonicalIsFixed(run: Text, k: Class)
    requires IsRun(run, k)
    ensures IsRun(Canonical(run), k) && Canonical(Canonical(run)) == Canonical(run)
  {
    var c := Canonical(run);
    assert ClassOf(run[0]) == k;
    if k == Mark {
      if |run| == 1 { assert c == run; }
      assert |c| == 2 ==> IsQuestion(c[0]) && IsBang(c[1]);
    }
  }

  lemma {:induction false} SqueezedStart(s: Text)
    ensures s != [] ==> Squeezed(s) != [] && ClassOf(Squeezed(s)[0]) == ClassOf(s[0])
    ensures s == [] ==> Squeezed(s) == []
    decreases |s|
  {
    hide Canonical, RunEnd;
    if s != [] && ClassOf(s[0]) != NoClass {
      FirstRun(s);
      var k := ClassOf(s[0]);
      var n := RunEnd(s, 1, k);
      CanonicalIsFixed(s[..n], k);
    }
  }

  /** Running the collapse loop twice is running it once. */
  lemma {:induction false} SqueezeIsIdempotent(s: Text)
    ensures Squeezed(Squeezed(s)) == Squeezed(s)
    decreases |s|
  {
    hide Canonical, Squeezed, RunEnd;
    if s == [] {
      SqueezeNothing();
    } else if ClassOf(s[0]) == NoClass {
      SqueezeOther(s);
      SqueezeIsIdempotent(s[1..]);
      SqueezeOther(Squeezed(s));
      assert Squeezed(s)[1..] == Squeezed(s[1..]);
    } else {
      FirstRun(s);
      var k := ClassOf(s[0]);
      var n := RunEnd(s, 1, k);
      SqueezeRun(s[..n], s[n..], k);
      SqueezeIsIdempotent(s[n..]);
      CanonicalIsFixed(s[..n], k);
      SqueezedStart(s[n..]);
      SqueezeRun(Canonical(s[..n]), Squeezed(s[n..]), k);
    }
  }

  /** The result has no two neighbouring marks of a class, but for a question mark before an
      exclamation mark. */
  lemma CanonicalPair(run: Text, k: Class, i: nat)
    requires IsRun(run, k) && i + 1 < |Canonical(run)|
    ensures Canonical(run)[i] == WIDE_QUESTION && Canonical(run)[i + 1] == WIDE_BANG
  {
    assert ClassOf(run[0]) == k;
  }

  lemma {:induction false} SqueezedHasNoRepeats(s: Text, i: nat)
    requires i + 1 < |Squeezed(s)| && ClassOf(Squeezed(s)[i]) == ClassOf(Squeezed(s)[i + 1]) != NoClass
    ensures Squeezed(s)[i] == WIDE_QUESTION && Squeezed(s)[i + 1] == WIDE_BANG
    decreases |s|
  {
    hide RunEnd, Squeezed, ClassOf, Canonical;
    if s == [] {
      SqueezeNothing();
    } else if ClassOf(s[0]) == NoClass {
      SqueezeOther(s);
      SqueezedHasNoRepeats(s[1..], i - 1);
    } else {
      FirstRun(s);
      var k := ClassOf(s[0]);
      var n := RunEnd(s, 1, k);
      var c := Canonical(s[..n]);
      SqueezeRun(s[..n], s[n..], k);
      SqueezedStart(s[n..]);
      CanonicalIsFixed(s[..n], k);
      if i + 1 < |c| { CanonicalPair(s[..n], k, i); }
      if i >= |c| { SqueezedHasNoRepeats(s[n..], i - |c|); }
    }
  }

  // ------------------------------------------------------------ the collapse loop

  /** Passes over the marks of one class. */
  method SkipRun(s: Text, i: nat, k: Class) returns (q: nat)
    requires i <= |s|
    ensures q == RunEnd(s, i, k)
  {
    q := i;
    while q < |s| && ClassOf(s[q]) == k
      invariant i <= q <= |s| && RunEnd(s, q, k) == RunEnd(s, i, k)
    {
      q := q + 1;
    }
  }

  /** Passes over exclamation and question marks, and tells whether one of the other kind was among them. */
  method SkipMarks(s: Text, i: nat, bang: bool) returns (q: nat, other: bool)
    requires i <= |s|
    ensures q == RunEnd(s, i, Mark)
    ensures other <==> exists j :: i <= j < q && (if bang then IsQuestion(s[j]) else IsBang(s[j]))
  {
    q, other := i, false;
    while q < |s|
      invariant i <= q <= |s| && RunEnd(s, q, Mark) == RunEnd(s, i, Mark)
      invariant other <==> exists j :: i <= j < q && (if bang then IsQuestion(s[j]) else IsBang(s[j]))
    {
      if (if bang then IsBang(s[q]) else IsQuestion(s[q])) {
        q := q + 1;
      } else if (if bang then IsQuestion(s[q]) else IsBang(s[q])) {
        other := true;
        q := q + 1;
      } else {
        break;
      }
    }
  }

  lemma MarksCanonical(run: Text, bang: bool, other: bool)
    requires IsRun(run, Mark) && |run| > 1 && (if bang then IsBang(run[0]) else IsQuestion(run[0]))
    requires other <==> exists j :: 1 <= j < |run| && (if bang then IsQuestion(run[j]) else IsBang(run[j]))
    ensures Canonical(run) == if other then [WIDE_QUESTION, WIDE_BANG] else if bang then [WIDE_BANG] else [WIDE_QUESTION]
  {
    assert HasBang(run) <==> bang || other;
    assert HasQuestion(run) <==> !bang || other;
  }

  /** One round of the loop: what is appended for the character at 'p', and where to go on. */
  method NextPiece(s: Text, p: nat) returns (piece: Text, q: nat)
    requires p < |s|
    ensures p < q <= |s| && Squeezed(s[p..]) == piece + Squeezed(s[q..])
  {
    hide Canonical, Squeezed, RunEnd;
    var c := s[p];
    if c == FULL_STOP || c == 0xFF0E {
      q := SkipRun(s, p + 1, Stop);
      SqueezeAt(s, p, q, Stop);
      piece := [c];
    } else if c == WIDE_COMMA || c == 0x2C {
      q := SkipRun(s, p + 1, Comma);
      SqueezeAt(s, p, q, Comma);
      piece := [WIDE_COMMA];
    } else if IsBang(c) {
      var hasQuestion: bool;
      q, hasQuestion := SkipMarks(s, p + 1, true);
      SqueezeAt(s, p, q, Mark);
      if q == p + 1 { return [c], q; }
      MarksAt(s, p, q, true, hasQuestion);
      piece := if hasQuestion then [WIDE_QUESTION, WIDE_BANG] else [WIDE_BANG];
    } else if IsQuestion(c) {
      var hasBang: bool;
      q, hasBang := SkipMarks(s, p + 1, false);
      SqueezeAt(s, p, q, Mark);
      if q == p + 1 { return [c], q; }
      MarksAt(s, p, q, false, hasBang);
      piece := if hasBang then [WIDE_QUESTION, WIDE_BANG] else [WIDE_QUESTION];
    } else {
      q := p + 1;
      SqueezeOther(s[p..]);
      assert s[p..][1..] == s[q..];
      piece := [c];
    }
  }

  method CollapseRepeats(s: Text) returns (result: Text)
    requires 0 !in s
    ensures result == Squeezed(s)
  {
    hide Squeezed;
    result := [];
    var p: nat := 0;
    SqueezeNothing();
    assert s[0..] == s;
    while p < |s|
      invariant p <= |s| && result + Squeezed(s[p..]) == Squeezed(s)
    {
      var piece, q := NextPiece(s, p);
      result := result + piece;
      p := q;
    }
    assert s[p..] == [];
  }

  lemma {:induction false} RunEndIn(s: Text, p: nat, i: nat, k: Class)
    requires p <= i <= |s|
    ensures RunEnd(s[p..], i - p, k) == RunEnd(s, i, k) - p
    decreases |s| - i
  {
    if i < |s| && ClassOf(s[i]) == k { RunEndIn(s, p, i + 1, k); }
  }

  lemma SqueezeAt(s: Text, p: nat, q: nat, k: Class)
    requires p < |s| && ClassOf(s[p]) == k != NoClass && q == RunEnd(s, p + 1, k)
    ensures p < q <= |s| && Squeezed(s[p..]) == Canonical(s[p..q]) + Squeezed(s[q..])
    ensures k != Comma && (q == p + 1 || k == Stop) ==> Canonical(s[p..q]) == [s[p]]
    ensures k == Comma ==> Canonical(s[p..q]) == [WIDE_COMMA]
  {
    var rest := s[p..];
    RunEndIn(s, p, p + 1, k);
    assert rest[..q - p] == s[p..q] && rest[q - p..] == s[q..];
  }

  lemma MarksAt(s: Text, p: nat, q: nat, bang: bool, other: bool)
    requires p + 1 < q <= |s| && (if bang then IsBang(s[p]) else IsQuestion(s[p])) && q == RunEnd(s, p + 1, Mark)
    requires other <==> exists j :: p + 1 <= j < q && (if bang then IsQuestion(s[j]) else IsBang(s[j]))
    ensures Canonical(s[p..q]) == if other then [WIDE_QUESTION, WIDE_BANG] else if bang then [WIDE_BANG] else [WIDE_QUESTION]
  {
    var run := s[p..q];
    assert IsRun(run, Mark);
    if other {
      var j :| p + 1 <= j < q && (if bang then IsQuestion(s[j]) else IsBang(s[j]));
      assert run[j - p] == s[j];
    }
    MarksCanonical(run, bang, other);
  }

  // ------------------------------------------------------------ final punctuation

  predicate IsAsciiCloser(c: int) { c in {0x22, 0x27, 0x29, 0x5D, 0x7D} }

  predicate IsWideCloser(c: int) {
    c in {0xFF09, 0x3011, 0x300B, 0x3009, 0x300D, 0x300F, 0x3015, 0xFF3D, 0x2019, 0x201D}
  }

  predicate IsCloser(c: int) { if c < 0x80 then IsAsciiCloser(c) else IsWideCloser(c) }

  predicate IsZhDelimiter(c: int) {
    c in {0x3001, 0x3002, 0xFF0C, 0xFF0E, 0xFF1A, 0xFF1B, 0xFF01, 0xFF1F, 0xFF08, 0xFF09, 0x3010, 0x3011,
          0x300C, 0x300D, 0x300E, 0x300F, 0x3014, 0x3015, 0xFF3B, 0xFF3D, 0x300A, 0x300B}
  }

  predicate IsCjkPunct(c: int) {
    0x3000 <= c <= 0x303F || 0xFF00 <= c <= 0xFFEF || IsZhDelimiter(c)
  }

  /** Characters after which nothing has to be added. */
  predicate IsTerminal(c: int) {
    if c < 0x80 then c == 0x21 || c == 0x3F || c == 0x2C
    else c in {0x3002, 0xFF0E, 0xFF0C, 0xFF01, 0xFF1F, 0x3001, 0xFF1A, 0xFF1B, 0x2026, 0x2025} || IsCjkPunct(c)
  }

  /** How much is left without the blanks at the end. */
  function BeforeBlanks(s: Text): (n: nat)
    ensures n <= |s|
    ensures forall j :: n <= j < |s| ==> IsEdge(s[j])
    ensures n > 0 ==> !IsEdge(s[n - 1])
  {
    if s != [] && IsEdge(s[|s| - 1]) then BeforeBlanks(s[..|s| - 1]) else |s|
  }

  /** How much is left of the first 'n' characters without the closers at their end. */
  function BeforeClosers(s: Text, n: nat): (k: nat)
    requires n <= |s|
    ensures k <= n
    ensures forall j :: k <= j < n ==> IsCloser(s[j])
    ensures k > 0 ==> !IsCloser(s[k - 1])
  {
    if n > 0 && IsCloser(s[n - 1]) then BeforeClosers(s, n - 1) else n
  }

  /** The position behind the character that decides. */
  function Decisive(s: Text): nat { BeforeClosers(s, BeforeBlanks(s)) }

  function Terminated(s: Text): Text {
    var k := Decisive(s);
    if s == [] then s
    else if k == 0 then s + [FULL_STOP]
    else if s[k - 1] == 0x2E then s[k - 1 := FULL_STOP]
    else if IsTerminal(s[k - 1]) then s
    else s + [FULL_STOP]
  }

  /** Backwards over the blanks at the end; -1 when there is nothing else. */
  method SkipBlanksBack(text: Text) returns (i: int)
    ensures i == BeforeBlanks(text) - 1
  {
    i := |text| - 1;
    assert text[..|text|] == text;
    while i >= 0 && (text[i] == SPACE || text[i] == TAB)
      invariant -1 <= i < |text| && BeforeBlanks(text[..i + 1]) == BeforeBlanks(text)
    {
      assert text[..i + 1][..i] == text[..i];
      i := i - 1;
    }
  }

  /** Backwards over closing marks. */
  method SkipClosersBack(text: Text, i0: int) returns (i: int)
    requires -1 <= i0 < |text|
    ensures i == BeforeClosers(text, i0 + 1) - 1
  {
    hide IsAsciiCloser, IsWideCloser;
    i := i0;
    while i >= 0
      invariant -1 <= i < |text| && BeforeClosers(text, i + 1) == BeforeClosers(text, i0 + 1)
    {
      var c := text[i];
      if c < 0x80 {
        if IsAsciiCloser(c) {
          i := i - 1;
          continue;
        }
        break;
      }
      if IsWideCloser(c) {
        i := i - 1;
        continue;
      }
      break;
    }
  }

  method EnsureTerminalPunctuation(text: Text) returns (r: Text)
    requires 0 !in text
    ensures r == Terminated(text)
  {
    hide BeforeBlanks, BeforeClosers, IsCjkPunct;
    if text == [] { return text; }
    var i := SkipBlanksBack(text);
    NothingBefore(text);
    if i < 0 { return text + [FULL_STOP]; }
    i := SkipClosersBack(text, i);
    if i < 0 { return text + [FULL_STOP]; }
    var c := text[i];
    if c < 0x80 {
      if c == 0x2E {
        r := text[..i] + [FULL_STOP] + text[i + 1..];
        assert r == text[i := FULL_STOP];
        return;
      }
      if c == 0x21 || c == 0x3F || c == 0x2C { return text; }
    } else {
      if c in {0x3002, 0xFF0E, 0xFF0C, 0xFF01, 0xFF1F, 0x3001, 0xFF1A, 0xFF1B, 0x2026, 0x2025} { return text; }
      if IsCjkPunct(c) { return text; }
    }
    return text + [FULL_STOP];
  }

  lemma NothingBefore(s: Text)
    ensures BeforeClosers(s, 0) == 0
  {
  }

  /** The last character that is neither blank nor closer. */
  ghost predicate EndsIn(s: Text, c: int) {
    Decisive(s) > 0 && s[Decisive(s) - 1] == c
  }

  lemma {:induction false} BeforeBlanksIs(s: Text, n: nat)
    requires n <= |s| && (forall j :: n <= j < |s| ==> IsEdge(s[j])) && (n > 0 ==> !IsEdge(s[n - 1]))
    ensures BeforeBlanks(s) == n
  {
  }

  lemma {:induction false} BeforeClosersIs(s: Text, n: nat, k: nat)
    requires k <= n <= |s| && (forall j :: k <= j < n ==> IsCloser(s[j])) && (k > 0 ==> !IsCloser(s[k - 1]))
    ensures BeforeClosers(s, n) == k
  {
  }

  /** Any text that is not empty ends, but for blanks and closers, in a character that passes the test. */
  lemma TerminatedEndsWell(s: Text)
    requires s != []
    ensures exists c :: EndsIn(Terminated(s), c) && IsTerminal(c)
  {
    var r, k, n := Terminated(s), Decisive(s), BeforeBlanks(s);
    if k > 0 && s[k - 1] == 0x2E {
      BeforeBlanksIs(r, n);
      BeforeClosersIs(r, n, k);
      assert EndsIn(r, FULL_STOP);
    } else if k > 0 && IsTerminal(s[k - 1]) {
      assert EndsIn(r, s[k - 1]);
    } else {
      BeforeBlanksIs(r, |r|);
      BeforeClosersIs(r, |r|, |r|);
      assert EndsIn(r, FULL_STOP);
    }
  }

  lemma TerminateIsIdempotent(s: Text)
    ensures Terminated(Terminated(s)) == Terminated(s)
  {
    if s != [] {
      TerminatedEndsWell(s);
      var c :| EndsIn(Terminated(s), c) && IsTerminal(c);
      assert c != 0x2E;
    }
  }

  /** At most one character is added, at the end, or changed, a full stop at the decisive place. */
  lemma TerminateKeepsText(s: Text)
    ensures var r := Terminated(s);
            || r == s || r == s + [FULL_STOP]
            || (EndsIn(s, 0x2E) && |r| == |s| && r[Decisive(s) - 1] == FULL_STOP
                && forall j :: 0 <= j < |s| && j != Decisive(s) - 1 ==> r[j] == s[j])
  {
  }

  // ------------------------------------------------------------ the passes by their characters

  predicate AllIn(s: Text, cs: set<int>) {
    forall i :: 0 <= i < |s| ==> s[i] in cs
  }

  /** The run is maximal where it stands: neither neighbour belongs to it. */
  predicate StandsAlone(a: Text, run: Text, b: Text, cs: set<int>) {
    run != [] && AllIn(run, cs) && (a == [] || a[|a| - 1] !in cs) && (b == [] || b[0] !in cs)
  }

  /** Commas, ASCII or wide, become one wide comma. */
  lemma CommasBecomeOne(a: Text, run: Text, b: Text)
    requires StandsAlone(a, run, b, {0x2C, 0xFF0C})
    ensures Squeezed(a + run + b) == Squeezed(a) + [0xFF0C] + Squeezed(b)
  {
    hide Squeezed;
    MaximalRunIsCanonical(a, run, b, Comma);
  }

  /** Full stops become the first of them. */
  lemma StopsBecomeFirst(a: Text, run: Text, b: Text)
    requires StandsAlone(a, run, b, {0x3002, 0xFF0E})
    ensures Squeezed(a + run + b) == Squeezed(a) + [run[0]] + Squeezed(b)
  {
    hide Squeezed;
    MaximalRunIsCanonical(a, run, b, Stop);
  }

  /** Exclamation and question marks become one wide mark of their kind, or one of each. */
  lemma MarksBecomeWide(a: Text, run: Text, b: Text)
    requires StandsAlone(a, run, b, {0x21, 0xFF01, 0x3F, 0xFF1F})
    ensures var bang, question := 0x21 in run || 0xFF01 in run, 0x3F in run || 0xFF1F in run;
            Squeezed(a + run + b) == Squeezed(a)
              + (if |run| == 1 then run else if bang && question then [0xFF1F, 0xFF01] else if bang then [0xFF01] else [0xFF1F])
              + Squeezed(b)
  {
    hide Squeezed;
    MaximalRunIsCanonical(a, run, b, Mark);
    assert HasBang(run) <==> 0x21 in run || 0xFF01 in run by { BangsIn(run); }
    assert HasQuestion(run) <==> 0x3F in run || 0xFF1F in run by { QuestionsIn(run); }
  }

  lemma BangsIn(run: Text)
    ensures HasBang(run) <==> 0x21 in run || 0xFF01 in run
  {
    if HasBang(run) { var i :| 0 <= i < |run| && IsBang(run[i]); }
    if 0x21 in run { var i :| 0 <= i < |run| && run[i] == 0x21; assert IsBang(run[i]); }
    if 0xFF01 in run { var i :| 0 <= i < |run| && run[i] == 0xFF01; assert IsBang(run[i]); }
  }

  lemma QuestionsIn(run: Text)
    ensures HasQuestion(run) <==> 0x3F in run || 0xFF1F in run
  {
    if HasQuestion(run) { var i :| 0 <= i < |run| && IsQuestion(run[i]); }
    if 0x3F in run { var i :| 0 <= i < |run| && run[i] == 0x3F; assert IsQuestion(run[i]); }
    if 0xFF1F in run { var i :| 0 <= i < |run| && run[i] == 0xFF1F; assert IsQuestion(run[i]); }
  }

  /** Any other character is copied. */
  lemma {:induction false} OthersAreCopied(a: Text, c: int, b: Text)
    requires c !in {0x2C, 0xFF0C, 0x3002, 0xFF0E, 0x21, 0xFF01, 0x3F, 0xFF1F}
    ensures Squeezed(a + [c] + b) == Squeezed(a) + [c] + Squeezed(b)
    decreases |a|
  {
    hide RunEnd, Canonical, Squeezed;
    if a == [] {
      SqueezeNothing();
      SqueezeOther([c] + b);
      assert [] + [c] + b == [c] + b && ([c] + b)[1..] == b;
    } else if ClassOf(a[0]) == NoClass {
      OthersAreCopied(a[1..], c, b);
      SqueezeOther(a);
      SqueezeOther(a + [c] + b);
      assert (a + [c] + b)[1..] == a[1..] + [c] + b;
    } else {
      FirstRun(a);
      var k := ClassOf(a[0]);
      var n := RunEnd(a, 1, k);
      var run, rest := a[..n], a[n..];
      OthersAreCopied(rest, c, b);
      SqueezeRun(run, rest, k);
      assert NotNext(rest + [c] + b, k);
      SqueezeRun(run, rest + [c] + b, k);
      assert a + [c] + b == run + (rest + [c] + b);
    }
  }

  /** The characters that close: quotation marks and brackets. */
  predicate AreClosers(s: Text) {
    AllIn(s, {0x22, 0x27, 0x29, 0x5D, 0x7D, 0xFF09, 0x3011, 0x300B, 0x3009, 0x300D, 0x300F, 0x3015, 0xFF3D, 0x2019, 0x201D})
  }

  /** 'c' is the last character but for closers and, behind them, spaces and tabs. */
  predicate EndsWith(s: Text, u: Text, c: int, closers: Text, blanks: Text) {
    && s == u + [c] + closers + blanks && AreClosers(closers) && AllIn(blanks, {0x20, 0x09})
    && !AreClosers([c]) && (closers == [] ==> c !in {0x20, 0x09})
  }

  /** Which of the three things happens to a text, by its last character. */
  lemma TerminatedExactly(s: Text, u: Text, c: int, closers: Text, blanks: Text)
    requires EndsWith(s, u, c, closers, blanks)
    ensures Terminated(s) == s
            <==> c in {0x21, 0x3F, 0x2C, 0x2025, 0x2026} || 0x3000 <= c <= 0x303F || 0xFF00 <= c <= 0xFFEF
    ensures Terminated(s) == u + [0x3002] + closers + blanks && c != 0x3002 <==> c == 0x2E
    ensures Terminated(s) == s + [0x3002]
            <==> !(c in {0x21, 0x3F, 0x2C, 0x2025, 0x2026, 0x2E} || 0x3000 <= c <= 0x303F || 0xFF00 <= c <= 0xFFEF)
  {
    var n, k := |u| + 1 + |closers|, |u| + 1;
    assert AreClosers([c]) <==> IsCloser(c) by { assert [c][0] == c; }
    forall j | n <= j < |s| ensures IsEdge(s[j]) { assert s[j] == blanks[j - n]; }
    assert s[n - 1] == (if closers == [] then c else closers[|closers| - 1]);
    BeforeBlanksIs(s, n);
    forall j | k <= j < n ensures IsCloser(s[j]) { assert s[j] == closers[j - k]; }
    assert s[k - 1] == c;
    BeforeClosersIs(s, n, k);
    assert s[k - 1 := 0x3002] == u + [0x3002] + closers + blanks;
    assert |s + [0x3002]| == |s| + 1;
    hide BeforeBlanks, BeforeClosers, IsCloser, IsEdge;
  }

  /** A text of nothing but closers and blanks gains a full stop, the empty text does not. */
  lemma NothingTerminated(closers: Text, blanks: Text)
    requires AreClosers(closers) && AllIn(blanks, {0x20, 0x09})
    ensures var s := closers + blanks; Terminated(s) == if s == [] then [] else s + [0x3002]
  {
    var s, n := closers + blanks, |closers|;
    forall j | n <= j < |s| ensures IsEdge(s[j]) { assert s[j] == blanks[j - n]; }
    if n > 0 { assert s[n - 1] == closers[n - 1]; }
    BeforeBlanksIs(s, n);
    forall j | 0 <= j < n ensures IsCloser(s[j]) { assert s[j] == closers[j]; }
    BeforeClosersIs(s, n, 0);
  }

  /** Every text is of one of these kinds. */
  lemma EveryTextEnds(s: Text) returns (u: Text, c: int, closers: Text, blanks: Text)
    ensures AreClosers(closers) && AllIn(blanks, {0x20, 0x09})
    ensures s == closers + blanks || EndsWith(s, u, c, closers, blanks)
  {
    var n := BeforeBlanks(s);
    var k := BeforeClosers(s, n);
    closers, blanks := s[k..n], s[n..];
    forall i | 0 <= i < |closers| ensures IsCloser(closers[i]) { assert closers[i] == s[k + i]; }
    u, c := [], 0;
    if k > 0 {
      u, c := s[..k - 1], s[k - 1];
      assert s == u + [c] + closers + blanks;
      assert [c][0] == c;
    } else {
      assert s == closers + blanks;
    }
  }
}
