/** A protected span that holds the name of an earlier placeholder: with at most ten placeholders the
text never comes back, with eleven it can.
*/
module PlaceholdersSwallowed {
  import opened Spaces
  import opened Placeholders
  import opened PlaceholdersRoundTrip
  import opened PlaceholderMarks
  import opened PlaceholderRegions
  import opened PlaceholdersLost
  import opened PlaceholdersExact

  // ------------------------------------------------------------ names in spans

  predicate HoldsName(span: seq<Mark>) {
    exists k :: 0 <= k < |span| && IsName(span[k])
  }

  /** The letters of the prefix in a span are those of a placeholder. */
  lemma ProtIsName(t: Text, sp: seq<seq<Mark>>, n: nat, span: seq<Mark>, q: nat)
    requires NoProt(t) && IsPiece(t, sp, n, span) && ProtAt(Plain(span), q)
    ensures q < |span| && IsName(span[q])
  {
    ProtAtChars(Plain(span), q);
    PieceFits(t, sp, n, span);
    hide Tag, Plain, Fits;
    PlainAt(span, 0, |span|);
    assert span[0..|span|] == span;
    var a, b, c, d := span[q], span[q + 1], span[q + 2], span[q + 3];
    assert Link(span[q], span[q + 1]) && Link(span[q + 1], span[q + 1 + 1]) && Link(span[q + 2], span[q + 2 + 1]);
    if a.Lit? {
      LitRun(t, a, b, c, d);
    } else {
      OnlyPInTag(a.tag, a.off);
    }
  }

  lemma LitRun(t: Text, a: Mark, b: Mark, c: Mark, d: Mark)
    requires NoProt(t) && Link(a, b) && Link(b, c) && Link(c, d) && a.Lit?
    requires b.Lit? ==> b.pos <= |t| && b.c == (t + [STOP])[b.pos]
    requires c.Lit? ==> c.pos <= |t| && c.c == (t + [STOP])[c.pos]
    requires d.Lit? ==> d.pos <= |t| && d.c == (t + [STOP])[d.pos]
    requires a.pos <= |t| && a.c == (t + [STOP])[a.pos]
    ensures !(CharOf(a) == 0x50 && CharOf(b) == 0x52 && CharOf(c) == 0x4F && CharOf(d) == 0x54)
  {
    ProtAtChars(t, a.pos);
  }

  lemma {:induction false} LargestNamed(sp: seq<seq<Mark>>, n: nat) returns (k: nat)
    requires n <= |sp| && exists l :: 0 <= l < n && HoldsName(sp[l])
    ensures k < n && HoldsName(sp[k]) && forall l :: k < l < n ==> !HoldsName(sp[l])
    decreases n
  {
    if HoldsName(sp[n - 1]) { k := n - 1; } else { k := LargestNamed(sp, n - 1); }
  }

  /** Behind a name its placeholder goes on, as far as the span reaches. */
  lemma {:induction false} OwnUntil(span: seq<Mark>, j: nat, l: nat)
    requires Chain(span) && j <= l < |span| && IsName(span[j]) && l - j < 8
    ensures span[l] == Sign(span[j].tag, 3 + l - j, span[j].base, span[j].end)
    decreases l
  {
    if j < l {
      OwnUntil(span, j, l - 1);
      TagChars(span[j].tag);
      assert Link(span[l - 1], span[l - 1 + 1]);
    }
  }

  // ------------------------------------------------------------ numbers of one digit

  lemma OneDigit(n: nat)
    requires n < 10
    ensures Decimal(n) == [0x30 + n] && |Tag(n)| == 11 && |Core(n)| == 5 && Tag(n)[3..] == Core(n) + TAG_END
    ensures Core(n) == [0x50, 0x52, 0x4F, 0x54, 0x30 + n]
    ensures Tag(n) == [UNDERSCORE, UNDERSCORE, UNDERSCORE, 0x50, 0x52, 0x4F, 0x54, 0x30 + n, UNDERSCORE, UNDERSCORE, UNDERSCORE]
  {
  }

  /** The name of 'n', its underscores, and the rest of an earlier name that 'n' cut through. */
  function CutName(n: nat, w: Text): (s: Text)
    ensures |s| == 7 + |Decimal(n)| + |w|
  {
    Core(n) + TAG_END + w
  }

  ghost predicate IsRest(w: Text) { w != [] && UNDERSCORE !in w && 0x50 !in w }

  lemma CutNameOverlap(H: Text, n: nat, w: Text, T: Text, i: nat, p: nat)
    requires n < 10 && i < 10 && IsRest(w)
    requires p < |H| + |CutName(n, w)| && |H| < p + |Tag(i)| && StartsWith((H + CutName(n, w) + T)[p..], Tag(i))
    ensures p + 3 == |H| && i == n
  {
    OneDigit(i);
    OneDigit(n);
    hide Tag, Core, CutName, IsRest;
    var V := CutName(n, w);
    var X, B := H + V + T, |H|;
    CutNameChars(n, w);
    forall k | 0 <= k < 11 ensures p + k < |X| && X[p + k] == Tag(i)[k] {
      StartsWithFits(X[p..], Tag(i));
      StartsWithAt(X[p..], Tag(i), k);
      assert X[p..][k] == X[p + k];
    }
    assert X[p + 0] == Tag(i)[0] && X[p + 1] == Tag(i)[1] && X[p + 2] == Tag(i)[2] && X[p + 3] == Tag(i)[3];
    if p > B { NoTagBehind(H, n, w, T, p); }
    assert p <= B;
    assert X[B] == V[0] == 0x50;
    assert X[p + (B - p)] == Tag(i)[B - p];
    assert B - p == 3;
    assert X[B + 4] == V[4];
    assert X[p + 7] == Tag(i)[7];
  }

  lemma NoTagBehind(H: Text, n: nat, w: Text, T: Text, p: nat)
    requires n < 10 && IsRest(w) && |H| < p < |H| + |CutName(n, w)| && p + 4 <= |H + CutName(n, w) + T|
    ensures var X := H + CutName(n, w) + T; !(X[p] == X[p + 1] == X[p + 2] == UNDERSCORE && X[p + 3] == 0x50)
  {
    hide CutName, IsRest;
    var q := p - |H|;
    NoTagInside(n, w, T, q);
    assert H + CutName(n, w) + T == H + (CutName(n, w) + T);
  }

  lemma CutNameChars(n: nat, w: Text)
    requires n < 10
    ensures CutName(n, w) == [0x50, 0x52, 0x4F, 0x54, 0x30 + n, UNDERSCORE, UNDERSCORE, UNDERSCORE] + w
  {
    OneDigit(n);
  }

  lemma NoTagInside(n: nat, w: Text, T: Text, q: nat)
    requires n < 10 && IsRest(w) && 0 < q < |CutName(n, w)| && q + 4 <= |CutName(n, w) + T|
    ensures var Y := CutName(n, w) + T; !(Y[q] == Y[q + 1] == Y[q + 2] == UNDERSCORE && Y[q + 3] == 0x50)
  {
    CutNameChars(n, w);
    hide CutName;
    var Y := CutName(n, w) + T;
    assert forall k :: 8 <= k < 8 + |w| ==> Y[k] == w[k - 8];
    assert Y[8] == w[0];
  }

  /** Replacing tags leaves a cut name where it is, or opens it. */
  lemma {:induction false} ReplaceAtCutName(H: Text, n: nat, w: Text, T: Text, i: nat, span: Text)
    returns (H2: Text, T2: Text, hit: bool)
    requires n < 10 && i < 10 && IsRest(w)
    ensures hit ==> i == n
    ensures ReplaceAll(H + CutName(n, w) + T, Tag(i), span) == H2 + (if hit then span + w else CutName(n, w)) + T2
    decreases |H|
  {
    hide Tag, Core, CutName, StartsWith, ReplaceAll, IsRest, Decimal;
    var V := CutName(n, w);
    var X := H + V + T;
    if H == [] {
      CutNameAtFront(n, w, T, i, span);
      H2, T2, hit := [], ReplaceAll(T, Tag(i), span), false;
      assert X == V + T && [] + V + T2 == V + T2;
    } else {
      ReplaceUnfold(X, Tag(i), span);
      if StartsWith(X, Tag(i)) {
        StartsWithFits(X, Tag(i));
        assert X[0..] == X;
        if |Tag(i)| <= |H| {
          assert X[|Tag(i)|..] == H[|Tag(i)|..] + V + T;
          H2, T2, hit := ReplaceAtCutName(H[|Tag(i)|..], n, w, T, i, span);
          H2 := span + H2;
        } else {
          CutNameOverlap(H, n, w, T, i, 0);
          OpenedCutName(H, n, w, T, span);
          H2, T2, hit := [], ReplaceAll(T, Tag(i), span), true;
        }
      } else {
        assert X[1..] == H[1..] + V + T && X[0] == H[0];
        H2, T2, hit := ReplaceAtCutName(H[1..], n, w, T, i, span);
        H2 := [X[0]] + H2;
      }
    }
  }

  lemma TagLengths(i: nat, n: nat, w: Text)
    requires i < 10 && n < 10
    ensures |Tag(i)| == |Tag(n)| == 11 && |CutName(n, w)| == 8 + |w|
  {
    OneDigit(i);
    OneDigit(n);
  }

  lemma NoneInCutName(H: Text, n: nat, w: Text, T: Text, i: nat, p: nat)
    requires n < 10 && i < 10 && IsRest(w) && (H == [] || |H| < p)
    ensures NoneBetween(H + CutName(n, w) + T, Tag(i), p, |H| + |CutName(n, w)|)
  {
    hide Core, CutName, IsRest, StartsWith, Tag;
    var X := H + CutName(n, w) + T;
    forall q | p <= q < |H| + |CutName(n, w)| && q <= |X| ensures !StartsWith(X[q..], Tag(i)) {
      if StartsWith(X[q..], Tag(i)) { CutNameOverlap(H, n, w, T, i, q); }
    }
  }

  lemma CutNameAtFront(n: nat, w: Text, T: Text, i: nat, span: Text)
    requires n < 10 && i < 10 && IsRest(w)
    ensures ReplaceAll(CutName(n, w) + T, Tag(i), span) == CutName(n, w) + ReplaceAll(T, Tag(i), span)
  {
    hide Tag, Core, CutName, StartsWith, ReplaceAll, IsRest, NoneBetween;
    NoneInCutName([], n, w, T, i, 0);
    assert [] + CutName(n, w) + T == CutName(n, w) + T;
    ReplaceKeeps(CutName(n, w), T, Tag(i), span);
  }

  lemma OpenedCutName(H: Text, n: nat, w: Text, T: Text, span: Text)
    requires n < 10 && IsRest(w) && |H| == 3 && StartsWith(H + CutName(n, w) + T, Tag(n))
    ensures ReplaceAll(H + CutName(n, w) + T, Tag(n), span) == [] + (span + w) + ReplaceAll(T, Tag(n), span)
  {
    TagLengths(n, n, w);
    CutNameSlices(H, n, w, T);
    hide Tag, Core, CutName, StartsWith, ReplaceAll, IsRest, NoneBetween;
    NoneInCutName(H, n, w, T, n, 11);
    ReplaceFront(H + CutName(n, w) + T, w, T, Tag(n), span);
    assert span + w == [] + (span + w);
  }

  lemma CutNameSlices(H: Text, n: nat, w: Text, T: Text)
    requires n < 10 && |H| == 3
    ensures |H + CutName(n, w) + T| >= 11 && (H + CutName(n, w) + T)[11..] == w + T
  {
    CutNameChars(n, w);
    hide CutName;
  }

  // ------------------------------------------------------------ at most ten placeholders

  lemma HoldsHolds(s: Text, w: Text, v: Text)
    requires Holds(s, w) && Holds(w, v)
    ensures Holds(s, v)
  {
    hide StartsWith;
    var q: nat :| q <= |s| && StartsWith(s[q..], w);
    var p: nat :| p <= |w| && StartsWith(w[p..], v);
    StartsWithFits(s[q..], w);
    StartsWithFits(w[p..], v);
    forall k | 0 <= k < |v| ensures s[q + p..][k] == v[k] {
      StartsWithAt(w[p..], v, k);
      StartsWithAt(s[q..], w, p + k);
      assert w[p..][k] == w[p + k];
      assert s[q..][p + k] == s[q + p..][k];
    }
    SameStart(s[q + p..], v);
  }

  lemma HoldsAmong(a: Text, w: Text, b: Text)
    ensures Holds(a + w + b, w)
  {
    FrontHolds(w, b);
    HoldsBehind(a, w + b, w);
    assert a + w + b == a + (w + b);
  }

  lemma SameDigitCount(i: nat, k: nat)
    requires i < 10 && k < 10
    ensures |Decimal(i)| == |Decimal(k)|
  {
  }

  /** A name whose turn has passed stays. */
  lemma {:induction false} PassedNameStays(X: Text, prot: seq<Text>, i: nat, y: nat)
    requires y < i <= |prot| <= 10 && Holds(X, Core(y))
    ensures !NoProt(Restored(X, prot, i))
    decreases |prot| - i
  {
    hide Tag, ReplaceAll, Core, Decimal, Holds, NoProt;
    if i == |prot| {
      CoreHasProt(y);
      HoldsProt(X, Core(y), 0);
    } else {
      SameDigitCount(i, y);
      CoreStays(X, i, y, prot[i]);
      PassedNameStays(ReplaceAll(X, Tag(i), prot[i]), prot, i + 1, y);
    }
  }

  /** The name of 'n' stays till its turn, and 'prot[n]' holds an earlier name. */
  lemma {:induction false} WholeNameReturns(X: Text, prot: seq<Text>, i: nat, n: nat, x: nat)
    requires i <= n < |prot| <= 10 && x < n && Holds(X, Core(n)) && Holds(prot[n], Core(x))
    ensures !NoProt(Restored(X, prot, i))
    decreases n - i
  {
    hide Tag, ReplaceAll, Core, Decimal, Holds, NoProt;
    var X2 := ReplaceAll(X, Tag(i), prot[i]);
    if i < n {
      SameDigitCount(i, n);
      CoreStays(X, i, n, prot[i]);
      WholeNameReturns(X2, prot, i + 1, n, x);
    } else {
      ReplaceShows(X, Tag(n), prot[n]);
      if X2 == X {
        PassedNameStays(X2, prot, n + 1, n);
      } else {
        HoldsHolds(X2, prot[n], Core(x));
        PassedNameStays(X2, prot, n + 1, x);
      }
    }
  }

  /** The same when the earlier name was cut by the span's end. */
  lemma {:induction false} CutNameReturns(H: Text, T: Text, w: Text, prot: seq<Text>, i: nat, n: nat, x: nat)
    requires i <= n < |prot| <= 10 && x < n && IsRest(w) && Holds(prot[n] + w, Core(x))
    ensures !NoProt(Restored(H + CutName(n, w) + T, prot, i))
    decreases n - i
  {
    hide Tag, ReplaceAll, Core, Decimal, Holds, NoProt, CutName, IsRest;
    var X := H + CutName(n, w) + T;
    var X2 := ReplaceAll(X, Tag(i), prot[i]);
    var H2, T2, hit := ReplaceAtCutName(H, n, w, T, i, prot[i]);
    if i < n {
      CutNameReturns(H2, T2, w, prot, i + 1, n, x);
    } else if hit {
      HoldsAmong(H2, prot[n] + w, T2);
      HoldsHolds(X2, prot[n] + w, Core(x));
      PassedNameStays(X2, prot, n + 1, x);
    } else {
      HoldsAmong(H2, CutName(n, w), T2);
      CutNameHolds(n, w);
      HoldsHolds(X2, CutName(n, w), Core(n));
      PassedNameStays(X2, prot, n + 1, n);
    }
  }

  lemma CutNameHolds(n: nat, w: Text)
    ensures Holds(CutName(n, w), Core(n))
  {
    hide Core, Holds;
    FrontHolds(Core(n), TAG_END + w);
    assert CutName(n, w) == Core(n) + (TAG_END + w);
  }

  // ------------------------------------------------------------ where the name of the swallower stands

  lemma CoreInText(ms: seq<Mark>, k: nat)
    requires Chain(ms) && InTags(ms) && Closes(ms) && k < |ms| && IsName(ms[k])
    ensures Holds(Plain(ms), Core(ms[k].tag))
  {
    hide Tag, Link, Plain, Holds;
    NameAndNumber(ms, k);
    var d := k + 4 + |Decimal(ms[k].tag)|;
    PlainParts(ms, k, d, |ms|);
    assert ms[..|ms|] == ms;
    HoldsAmong(Plain(ms[..k]), Core(ms[k].tag), Plain(ms[d..|ms|]));
  }

  lemma CoreInSpan(span: seq<Mark>, j: nat)
    requires Chain(span) && j + 5 <= |span| && IsName(span[j]) && span[j].tag < 10
    ensures Holds(Plain(span), Core(span[j].tag))
  {
    hide Link, Holds;
    var x := span[j].tag;
    OneDigit(x);
    forall l | j <= l < j + 5 ensures span[l] == Sign(x, 3 + l - j, span[j].base, span[j].end) { OwnUntil(span, j, l); }
    hide Tag, Core;
    PlainParts(span, j, j + 5, |span|);
    assert span[..|span|] == span;
    assert Plain(span[j..j + 5]) == Core(x);
    HoldsAmong(Plain(span[..j]), Core(x), Plain(span[j + 5..|span|]));
  }

  /** The span of 'n' ends inside the name that begins at 'j': the rest of the name stands behind the
      placeholder. */
  lemma CutNameInText(t: Text, sp: seq<seq<Mark>>, ms: seq<Mark>, n: nat, j: nat) returns (H: Text, w: Text, T: Text)
    requires IsText(t, sp, |sp|, ms) && ArePieces(t, sp) && n < |sp| <= 10 && HasName(ms, n)
    requires j < |sp[n]| < j + 5 && IsName(sp[n][j])
    ensures sp[n][j].tag < n && IsRest(w) && Plain(ms) == H + CutName(n, w) + T
    ensures Holds(Plain(sp[n]) + w, Core(sp[n][j].tag))
  {
    TextIsEnding(t, sp, |sp|, ms);
    var span := sp[n];
    assert IsPiece(t, sp, n, span);
    PieceFits(t, sp, n, span);
    var k, e := Standing(t, sp, ms, n);
    BehindSpan(ms, k, e, n, sp);
    var x := span[j].tag;
    OneDigit(x);
    OneDigit(n);
    LastOfCut(span, j);
    hide Link, Fits, NamesDiffer, AgesAgree, Plain, Core, CutName, Holds, IsRest;
    var m := j + 5 - |span|;
    assert ms[e] == Sign(x, 8 - m, span[j].base, span[j].end) by { LinkAfterCut(span[|span| - 1], ms[e]); }
    OwnRun(ms, e);
    w := Plain(ms[e..e + m]);
    H, T := Plain(ms[..k]), Plain(ms[e + m..]);
    RestOfName(ms, e, x, m);
    OwnName(ms, k, e, n);
    PlainParts(ms, k, e, |ms|);
    assert ms[..|ms|] == ms && ms[e..|ms|] == ms[e..];
    PlainConcat(ms[e..e + m], ms[e + m..]);
    assert ms[e..] == ms[e..e + m] + ms[e + m..];
    JoinCutName(Plain(ms), H, n, w, T);
    NameAcross(span, j, ms, e, m);
  }

  lemma JoinCutName(X: Text, H: Text, n: nat, w: Text, T: Text)
    requires X == H + (Core(n) + TAG_END) + (w + T)
    ensures X == H + CutName(n, w) + T
  {
    hide Core;
  }

  lemma LastOfCut(span: seq<Mark>, j: nat)
    requires Chain(span) && j < |span| < j + 5 && IsName(span[j])
    ensures span[|span| - 1] == Sign(span[j].tag, 2 + |span| - j, span[j].base, span[j].end)
  {
    OwnUntil(span, j, |span| - 1);
  }

  lemma LinkAfterCut(a: Mark, b: Mark)
    requires Link(a, b) && a.Sign? && 3 <= a.off < 7
    ensures b == Sign(a.tag, a.off + 1, a.base, a.end)
  {
    TagChars(a.tag);
  }

  lemma RestOfName(ms: seq<Mark>, e: nat, x: nat, m: nat)
    requires x < 10 && 0 < m <= 4 && e + m <= |ms|
    requires forall l :: e <= l < e + m ==> ms[l].Sign? && ms[l].tag == x && ms[l].off == 8 - m + l - e
    ensures IsRest(Plain(ms[e..e + m])) && Plain(ms[e..e + m]) == Core(x)[5 - m..]
  {
    OneDigit(x);
    hide Tag, Core;
    var w := Plain(ms[e..e + m]);
    forall l | 0 <= l < m ensures w[l] == Tag(x)[8 - m + l] { assert ms[e..e + m][l] == ms[e + l]; }
    forall l | 0 <= l < m ensures w[l] != UNDERSCORE && w[l] != 0x50 && w[l] == Core(x)[5 - m + l] { }
  }

  lemma OwnName(ms: seq<Mark>, k: nat, e: nat, n: nat)
    requires n < 10 && k < e <= |ms| && e == k + 8
    requires forall l :: k <= l < e ==> ms[l].Sign? && ms[l].tag == n && ms[l].off == 3 + l - k
    ensures Plain(ms[k..e]) == Core(n) + TAG_END
  {
    OneDigit(n);
    hide Tag, Core;
    var s, c := Plain(ms[k..e]), Core(n) + TAG_END;
    forall l | 0 <= l < 8 ensures s[l] == c[l] {
      assert ms[k..e][l] == ms[k + l];
      assert s[l] == Tag(n)[3 + l] == Tag(n)[3..][l];
    }
  }

  lemma NameAcross(span: seq<Mark>, j: nat, ms: seq<Mark>, e: nat, m: nat)
    requires Chain(span) && j < |span| && IsName(span[j]) && span[j].tag < 10 && 0 < m <= 4 && m == j + 5 - |span| && e + m <= |ms|
    requires Plain(ms[e..e + m]) == Core(span[j].tag)[5 - m..]
    ensures Holds(Plain(span) + Plain(ms[e..e + m]), Core(span[j].tag))
  {
    var x := span[j].tag;
    CoreLength(x);
    FrontOfName(span, j);
    hide Tag, Core, Link, Holds, Plain, Decimal;
    var w := Plain(ms[e..e + m]);
    assert span == span[..j] + span[j..|span|];
    PlainConcat(span[..j], span[j..|span|]);
    HoldsAmong(Plain(span[..j]), Core(x), []);
    JoinHalves(Plain(span[..j]), Plain(span[j..|span|]), w, Core(x), 5 - m);
  }

  lemma JoinHalves(a: Text, front: Text, w: Text, c: Text, n: nat)
    requires n <= |c| && front == c[..n] && w == c[n..]
    ensures a + front + w == a + c + []
  {
    assert front + w == c;
  }

  lemma CoreLength(n: nat)
    requires n < 10
    ensures |Core(n)| == 5
  {
  }

  lemma FrontOfName(span: seq<Mark>, j: nat)
    requires Chain(span) && j < |span| < j + 5 && IsName(span[j]) && span[j].tag < 10
    ensures |Core(span[j].tag)| == 5 && Plain(span[j..|span|]) == Core(span[j].tag)[..|span| - j]
  {
    var x := span[j].tag;
    OneDigit(x);
    hide Tag, Core, Link;
    var front := Plain(span[j..|span|]);
    forall l | 0 <= l < |span| - j ensures front[l] == Core(x)[l] {
      OwnUntil(span, j, j + l);
      assert span[j..|span|][l] == span[j + l];
      assert front[l] == Tag(x)[3 + l];
    }
  }

  /** With at most ten placeholders, no text comes back of which a protected span holds the letters of
      the prefix. */
  lemma SwallowedNameIsLost(t: Text, matchers: seq<Matcher>, k: nat)
    requires AreMatchers(matchers) && NoProt(t)
    requires var prot := Protected(t, matchers, []).1; k < |prot| <= 10 && !NoProt(prot[k])
    ensures var r := Protected(t, matchers, []); Restored(r.0, r.1, 0) != t
  {
    hide Tag, Link, CharOf, Protected, Restored, Plain, NamesDiffer, AgesAgree, AllFit, Chain, NoProt, Core, CutName, Holds, IsRest;
    MarksAtStart(t);
    var ms, sp := ProtectedMarks(t, t, matchers, [], MarksOf(t), []);
    var r := Protected(t, matchers, []);
    assert Plain(sp[k]) == r.1[k] && IsPiece(t, sp, k, sp[k]);
    NameInProt(t, sp, k, r.1[k]);
    var n := LargestNamed(sp, |sp|);
    NameReturns(t, sp, r.1, ms, n);
    RestoreBeforeStop(r.0, r.1, 0);
    ProtBeforeStop(Restored(r.0, r.1, 0));
  }

  lemma NameInProt(t: Text, sp: seq<seq<Mark>>, k: nat, span: Text)
    requires NoProt(t) && k < |sp| && IsPiece(t, sp, k, sp[k]) && Plain(sp[k]) == span && !NoProt(span)
    ensures HoldsName(sp[k])
  {
    var q: nat :| ProtAt(span, q);
    hide NoProt, Plain;
    ProtIsName(t, sp, k, sp[k], q);
  }

  lemma NameReturns(t: Text, sp: seq<seq<Mark>>, prot: seq<Text>, ms: seq<Mark>, n: nat)
    requires IsText(t, sp, |sp|, ms) && ArePieces(t, sp) && AreTexts(sp, prot) && n < |sp| <= 10
    requires forall k :: 0 <= k < |sp| ==> HasName(ms, k) || IsSwallowed(sp, k)
    requires HoldsName(sp[n]) && forall l :: n < l < |sp| ==> !HoldsName(sp[l])
    ensures !NoProt(Restored(Plain(ms), prot, 0))
  {
    TextIsEnding(t, sp, |sp|, ms);
    hide Tag, Link, Restored, Plain, NamesDiffer, AgesAgree, AllFit, NoProt, Core, CutName, Holds, IsRest, Fits;
    var j :| 0 <= j < |sp[n]| && IsName(sp[n][j]);
    assert IsPiece(t, sp, n, sp[n]);
    PieceFits(t, sp, n, sp[n]);
    assert HasName(ms, n) || IsSwallowed(sp, n);
    forall l | n < l < |sp| ensures !HasName(sp[l], n) { assert !HoldsName(sp[l]); }
    if j + 5 <= |sp[n]| {
      var k :| 0 <= k < |ms| && IsName(ms[k]) && ms[k].tag == n;
      CoreInText(ms, k);
      CoreInSpan(sp[n], j);
      WholeNameReturns(Plain(ms), prot, 0, n, sp[n][j].tag);
    } else {
      var H, w, T := CutNameInText(t, sp, ms, n, j);
      CutNameReturns(H, T, w, prot, 0, n, sp[n][j].tag);
    }
  }

  // ------------------------------------------------------------ eleven placeholders

  /** 'n' times ",!", and ",#0___". */
  function Filler(n: nat): (s: Text)
    ensures |s| == 2 * n + 6
  {
    if n == 0 then [0x2C, 0x23, 0x30, UNDERSCORE, UNDERSCORE, UNDERSCORE] else [0x2C, 0x21] + Filler(n - 1)
  }

  /** The filler with tags from number 'a' on. */
  function Tagged(a: nat, n: nat): Text
    decreases n
  {
    if n == 0 then [0x2C] + Tag(a) else [0x2C] + Tag(a) + Tagged(a + 1, n - 1)
  }

  /** Matches for what is between the commas. */
  function FillerSpans(p: nat, n: nat): seq<Span>
    decreases n
  {
    if n == 0 then [Span(p + 1, 5)] else [Span(p + 1, 1)] + FillerSpans(p + 2, n - 1)
  }

  function FillerTexts(n: nat): (prot: seq<Text>)
    ensures |prot| == n + 1
  {
    if n == 0 then [[0x23, 0x30, UNDERSCORE, UNDERSCORE, UNDERSCORE]] else [[0x21]] + FillerTexts(n - 1)
  }

  function FillerPlaced(p: nat, n: nat, a: nat): seq<Placed>
    decreases n
  {
    if n == 0 then [Placed(p + 1, p + 6, a)] else [Placed(p + 1, p + 2, a)] + FillerPlaced(p + 2, n - 1, a + 1)
  }

  lemma {:induction false} FillerIsMatched(s: Text, p: nat, n: nat)
    requires p <= |s| && s[p..] == Filler(n)
    ensures AreMatches(s, FillerSpans(p, n)) && FillerSpans(p, n) != [] && FillerSpans(p, n)[0].pos == p + 1
    decreases n
  {
    if n > 0 {
      assert s[p + 2..] == s[p..][2..];
      FillerIsMatched(s, p + 2, n - 1);
      InFront(s, Span(p + 1, 1), FillerSpans(p + 2, n - 1));
    }
  }

  lemma InFront(s: Text, m: Span, spans: seq<Span>)
    requires AreMatches(s, spans) && spans != [] && m.pos + m.len <= spans[0].pos
    ensures AreMatches(s, [m] + spans)
  {
    assert spans[0].pos + spans[0].len <= |s|;
    forall i, j | 0 <= i < j < |[m] + spans|
      ensures ([m] + spans)[i].pos + ([m] + spans)[i].len <= ([m] + spans)[j].pos
    {
      if i == 0 && j > 1 { assert spans[0].pos + spans[0].len <= spans[j - 1].pos; }
    }
  }

  lemma FirstReplaced(s: Text, m: Span, rest: seq<Span>, last: nat, prot: seq<Text>)
    requires AreMatches(s, [m] + rest) && last <= m.pos <= |s| && !Skipped(s, m)
    ensures m.pos + m.len <= |s| && AreMatches(s, rest) && (rest != [] ==> m.pos + m.len <= rest[0].pos)
    ensures var r1 := Replaced(s, rest, m.pos + m.len, prot + [s[m.pos..m.pos + m.len]]);
            var r := Replaced(s, [m] + rest, last, prot);
            r.0 == s[last..m.pos] + Tag(|prot|) + r1.0 && r.1 == r1.1
  {
    hide Tag, Skipped;
    var spans := [m] + rest;
    assert spans[1..] == rest;
    ReplacedStep(s, spans, last, prot, []);
  }

  lemma {:induction false} FillerIsReplaced(s: Text, p: nat, n: nat, last: nat, prot: seq<Text>)
    requires last <= p <= |s| && s[p..] == Filler(n)
    ensures AreMatches(s, FillerSpans(p, n)) && FillerSpans(p, n) != [] && FillerSpans(p, n)[0].pos == p + 1
    ensures var r := Replaced(s, FillerSpans(p, n), last, prot);
            r.0 == s[last..p] + Tagged(|prot|, n) && r.1 == prot + FillerTexts(n)
    decreases n
  {
    hide Tag, Replaced, AreMatches, Filler;
    FillerAt(s, p, n);
    FillerIsMatched(s, p, n);
    assert s[last..p + 1] == s[last..p] + [0x2C];
    if n == 0 {
      assert [Span(p + 1, 5)] + [] == FillerSpans(p, 0);
      FirstReplaced(s, Span(p + 1, 5), [], last, prot);
      ReplacedEnd(s, [], p + 6, prot + [s[p + 1..p + 6]]);
    } else {
      var rest, prot2 := FillerSpans(p + 2, n - 1), prot + [s[p + 1..p + 2]];
      FirstReplaced(s, Span(p + 1, 1), rest, last, prot);
      FillerIsReplaced(s, p + 2, n - 1, p + 2, prot2);
      assert prot2 + FillerTexts(n - 1) == prot + FillerTexts(n);
      assert s[p + 2..p + 2] == [];
      Glue(s[last..p], [0x2C], Tag(|prot|), Tagged(|prot2|, n - 1));
    }
  }

  lemma FillerChars(n: nat)
    ensures Filler(n)[0] == 0x2C && (n > 0 ==> Filler(n)[1..2] == [0x21] && Filler(n)[2..] == Filler(n - 1))
    ensures n == 0 ==> Filler(n)[1..6] == FillerTexts(0)[0]
  {
  }

  lemma FillerAt(s: Text, p: nat, n: nat)
    requires p <= |s| && s[p..] == Filler(n)
    ensures s[p] == 0x2C && |s| == p + 2 * n + 6
    ensures if n == 0 then s[p + 1..p + 6] == FillerTexts(0)[0] && s[p + 6..] == []
            else s[p + 1..p + 2] == [0x21] && s[p + 2..] == Filler(n - 1)
  {
    FillerChars(n);
    assert s[p..][0] == s[p];
    if n == 0 { assert s[p..][1..6] == s[p + 1..p + 6]; } else { assert s[p..][1..2] == s[p + 1..p + 2] && s[p..][2..] == s[p + 2..]; }
  }

  /** The tagged filler renders the filler. */
  lemma {:induction false} FillerRenders(t: Text, p: nat, n: nat, a: nat, u: nat)
    requires u <= p <= |t| && t[p..] == Filler(n)
    ensures var placed := FillerPlaced(p, n, a);
            InOrder(t, placed, u) && Render(t, placed, u) == t[u..p] + Tagged(a, n) && forall k :: 0 <= k < |placed| ==> placed[k].idx >= a
    decreases n
  {
    hide Tag, Render, InOrder, Filler;
    FillerAt(t, p, n);
    assert t[u..p + 1] == t[u..p] + [0x2C];
    if n == 0 {
      RenderNil(t, p + 6);
      RenderCons(t, Placed(p + 1, p + 6, a), [], u);
      assert [Placed(p + 1, p + 6, a)] + [] == FillerPlaced(p, 0, a);
    } else {
      FillerRenders(t, p + 2, n - 1, a + 1, p + 2);
      RenderCons(t, Placed(p + 1, p + 2, a), FillerPlaced(p + 2, n - 1, a + 1), u);
      assert t[p + 2..p + 2] == [];
    }
  }

  lemma {:induction false} FillerIsRecorded(t: Text, p: nat, n: nat, prot: seq<Text>)
    requires p <= |t| && t[p..] == Filler(n)
    ensures Recorded(t, FillerPlaced(p, n, |prot|), prot + FillerTexts(n))
    decreases n
  {
    hide Filler;
    FillerAt(t, p, n);
    if n > 0 {
      var prot2 := prot + [[0x21]];
      assert prot2 + FillerTexts(n - 1) == prot + FillerTexts(n);
      FillerIsRecorded(t, p + 2, n - 1, prot2);
      RecordedSplit(t, [Placed(p + 1, p + 2, |prot|)], FillerPlaced(p + 2, n - 1, |prot2|), prot + FillerTexts(n));
    }
  }

  /** The text "@#0___,!,!,!,!,!,!,!,#0___". */
  const MANY: Text := [0x40, 0x23, 0x30, UNDERSCORE, UNDERSCORE, UNDERSCORE] + Filler(7)

  const MANY1: Text := [0x40, 0x23] + Tag(0) + Filler(7)

  const MANY2: Text := [0x40] + Tag(1) + Tag(0)[3..] + Filler(7)

  /** Three patterns, as far as they match these texts: "0___", then "#___", then "@___PROT1" and
      what is between the commas. */
  function ManyMatchers(): seq<Matcher> {
    [s => if s == MANY then [Span(2, 4)] else [],
     s => if s == MANY1 then [Span(1, 4)] else [],
     s => if s == MANY2 then [Span(0, 9)] + FillerSpans(20, 7) else []]
  }

  const ZEROS: Text := [0x30, UNDERSCORE, UNDERSCORE, UNDERSCORE]
  const HASHES: Text := [0x23, UNDERSCORE, UNDERSCORE, UNDERSCORE]
  const NAMED: Text := [0x40, UNDERSCORE, UNDERSCORE, UNDERSCORE, 0x50, 0x52, 0x4F, 0x54, 0x31]

  /** The spans taken out of it. */
  function ManySpans(): seq<Text> { [ZEROS, HASHES, NAMED] + FillerTexts(7) }

  /** A pass that replaces one span. */
  lemma OneSpan(s: Text, a: Text, span: Text, b: Text, prot: seq<Text>)
    requires s == a + span + b && (a == [] || !IsWordChar(a[|a| - 1]))
    ensures AreMatches(s, [Span(|a|, |span|)])
    ensures var r := Replaced(s, [Span(|a|, |span|)], 0, prot); r.0 == a + Tag(|prot|) + b && r.1 == prot + [span]
  {
    hide Tag, Replaced, IsWordChar;
    assert a != [] ==> s[|a| - 1] == a[|a| - 1];
    ExamplePass(s, |a|, |span|, prot);
    assert s[0..|a|] == a && s[|a|..|a| + |span|] == span && s[|a| + |span|..] == b;
  }

  lemma ManyPass1()
    ensures AreMatches(MANY, [Span(2, 4)]) && Replaced(MANY, [Span(2, 4)], 0, []).0 == MANY1
    ensures Replaced(MANY, [Span(2, 4)], 0, []).1 == [ZEROS]
  {
    hide Tag, Filler, Replaced, AreMatches;
    assert MANY == [0x40, 0x23] + ZEROS + Filler(7);
    OneSpan(MANY, [0x40, 0x23], ZEROS, Filler(7), []);
  }

  lemma ManySplit()
    ensures MANY1 == [0x40] + HASHES + (Tag(0)[3..] + Filler(7)) && MANY2 == [0x40] + Tag(1) + (Tag(0)[3..] + Filler(7))
    ensures |HASHES| == 4
  {
    TagFront(0);
    hide Tag, Filler;
    SplitHash(Tag(0)[3..], Filler(7));
    Reassociated([0x40], Tag(1), Tag(0)[3..], Filler(7));
  }

  lemma TagFront(n: nat)
    ensures |Tag(n)| > 3 && Tag(n) == TAG_END + Tag(n)[3..]
  {
    TagChars(n);
    hide Tag;
  }

  lemma SplitHash(tail: Text, rest: Text)
    ensures [0x40, 0x23] + (TAG_END + tail) + rest == [0x40] + HASHES + (tail + rest)
  {
  }

  lemma Reassociated(a: Text, b: Text, c: Text, d: Text)
    ensures a + b + c + d == a + b + (c + d)
  {
  }

  lemma ManyPass2()
    ensures AreMatches(MANY1, [Span(1, 4)]) && Replaced(MANY1, [Span(1, 4)], 0, [ZEROS]).0 == MANY2
    ensures Replaced(MANY1, [Span(1, 4)], 0, [ZEROS]).1 == [ZEROS, HASHES]
  {
    ManySplit();
    hide Tag, Filler, Replaced, AreMatches, MANY1, MANY2, HASHES, ZEROS;
    OneSpan(MANY1, [0x40], HASHES, Tag(0)[3..] + Filler(7), [ZEROS]);
  }

  lemma ManySlices()
    ensures |MANY2| == 40 && |MANY2[0..0]| == 0 && MANY2[20..] == Filler(7) && MANY2[0..9] == NAMED && MANY2[9..20] == Tag(0)
  {
    ManyHead();
    ManySplit();
    hide Filler, Tag, MANY2, MANY1;
    FourParts(MANY2, [0x40] + Tag(1), Tag(0)[3..], Filler(7));
  }

  lemma ManyHead()
    ensures var head := [0x40] + Tag(1) + Tag(0)[3..]; |head| == 20 && head[0..9] == NAMED && head[9..20] == Tag(0)
  {
    OneDigit(0);
    OneDigit(1);
  }

  lemma FourParts(s: Text, a: Text, b: Text, c: Text)
    requires s == a + (b + c) && |a + b| == 20
    ensures s[20..] == c && s[0..9] == (a + b)[0..9] && s[9..20] == (a + b)[9..20] && |s| == 20 + |c|
  {
    assert s == (a + b) + c;
  }

  lemma ManyPass3()
    ensures AreMatches(MANY2, [Span(0, 9)] + FillerSpans(20, 7))
    ensures var r := Replaced(MANY2, [Span(0, 9)] + FillerSpans(20, 7), 0, [ZEROS, HASHES]);
            r.0 == Tag(2) + Tag(0) + Tagged(3, 7) && r.1 == ManySpans()
  {
    ManySlices();
    hide Tag, Filler, Replaced, AreMatches, FillerSpans, Tagged, FillerTexts, MANY2;
    FillerIsReplaced(MANY2, 20, 7, 9, [ZEROS, HASHES, NAMED]);
    InFront(MANY2, Span(0, 9), FillerSpans(20, 7));
    FirstReplaced(MANY2, Span(0, 9), FillerSpans(20, 7), 0, [ZEROS, HASHES]);
    assert [ZEROS, HASHES] + [NAMED] == [ZEROS, HASHES, NAMED];
    assert MANY2[0..0] + Tag(2) + (Tag(0) + Tagged(3, 7)) == Tag(2) + Tag(0) + Tagged(3, 7);
  }

  lemma ManyAreMatchers()
    ensures AreMatchers(ManyMatchers())
  {
    ManyPass1();
    ManyPass2();
    ManyPass3();
    hide Tag, Filler, Replaced, AreMatches, FillerSpans, Tagged, FillerTexts;
    forall s: Text ensures AreMatches(s, []) { NothingMatched(s); }
  }

  lemma NothingMatched(s: Text)
    ensures AreMatches(s, [])
  {
  }

  lemma ManyProtected()
    ensures AreMatchers(ManyMatchers())
    ensures var r := Protected(MANY, ManyMatchers(), []); r.0 == Tag(2) + Tag(0) + Tagged(3, 7) && r.1 == ManySpans()
  {
    ManyAreMatchers();
    ManyPass1();
    ManyPass2();
    ManyPass3();
    hide Tag, Filler, Replaced, AreMatches, FillerSpans, Tagged, FillerTexts, MANY, MANY1, MANY2;
    var ms := ManyMatchers();
    assert ms[1..][1..] == ms[2..] && ms[2..][1..] == [] && ms[1..][0] == ms[1] && ms[2..][0] == ms[2];
    assert Protected(MANY, ms, []) == Protected(MANY1, ms[1..], [ZEROS]);
    assert Protected(MANY1, ms[1..], [ZEROS]) == Protected(MANY2, ms[2..], [ZEROS, HASHES]);
    var r := Replaced(MANY2, [Span(0, 9)] + FillerSpans(20, 7), 0, [ZEROS, HASHES]);
    assert Protected(MANY2, ms[2..], [ZEROS, HASHES]) == Protected(r.0, [], r.1);
  }

  lemma {:induction false} FillerIsCalm(n: nat)
    ensures forall k :: 0 <= k < |Filler(n)| ==> Filler(n)[k] != 0x50
    decreases n
  {
    if n > 0 { FillerIsCalm(n - 1); }
  }

  lemma ManyIsCalm()
    ensures NoProt(MANY)
  {
    FillerIsCalm(7);
    hide Filler;
    forall q: nat ensures !ProtAt(MANY, q) { ProtAtChars(MANY, q); }
  }

  lemma {:induction false} NothingWithout(placed: seq<Placed>, i: nat)
    requires forall k :: 0 <= k < |placed| ==> placed[k].idx != i
    ensures Without(placed, i) == placed
    decreases |placed|
  {
    if placed != [] {
      NothingWithout(placed[1..], i);
      WithoutCons(placed, i);
      assert placed == [placed[0]] + placed[1..];
    }
  }

  lemma {:induction false} LastFiller(n: nat)
    ensures FillerTexts(n)[n] == [0x23, 0x30, UNDERSCORE, UNDERSCORE, UNDERSCORE]
    decreases n
  {
    if n > 0 { LastFiller(n - 1); }
  }

  /** The text with what its tags stand for after step 0, and the tags of the filler. */
  function ManyTags(): seq<Placed> { FillerPlaced(6, 7, 3) }

  lemma ManyParts()
    ensures |MANY| == 26 && MANY[6..] == Filler(7) && MANY[0..2] == [0x40, 0x23] && MANY[2..6] == ZEROS && MANY[0..1] == [0x40]
    ensures MANY[1..6] == [0x23, 0x30, UNDERSCORE, UNDERSCORE, UNDERSCORE] && MANY[0..0] == MANY[2..2] == MANY[6..6] == []
  {
    hide Filler;
  }

  lemma ManyRenders(u: nat)
    requires u <= 6
    ensures InOrder(MANY, ManyTags(), u) && Render(MANY, ManyTags(), u) == MANY[u..6] + Tagged(3, 7)
    ensures forall k :: 0 <= k < |ManyTags()| ==> ManyTags()[k].idx >= 3
  {
    ManyParts();
    hide MANY, Filler, Tagged, FillerPlaced, Render;
    FillerRenders(MANY, 6, 7, 3, u);
  }

  lemma ManyStep0()
    ensures InOrder(MANY, [Placed(0, 2, 2)] + ManyTags(), 0)
    ensures ReplaceAll(Tag(2) + Tag(0) + Tagged(3, 7), Tag(0), ZEROS) == Render(MANY, [Placed(0, 2, 2)] + ManyTags(), 0)
  {
    ManyIsCalm();
    ManyParts();
    ManyRenders(6);
    ManyRenders(2);
    hide MANY, NAMED, ZEROS, HASHES, Filler, Tagged, FillerPlaced, Render, Tag, InOrder, ReplaceAll, NoProt, ManyTags;
    TwoTags(MANY, ManyTags(), Tagged(3, 7));
  }

  lemma TwoTags(t: Text, fp: seq<Placed>, rest: Text)
    requires NoProt(t) && 6 <= |t| && InOrder(t, fp, 6) && InOrder(t, fp, 2) && Render(t, fp, 6) == t[6..6] + rest
    requires forall k :: 0 <= k < |fp| ==> fp[k].idx >= 3
    ensures InOrder(t, [Placed(0, 2, 2)] + fp, 0)
    ensures ReplaceAll(Tag(2) + Tag(0) + rest, Tag(0), t[2..6]) == Render(t, [Placed(0, 2, 2)] + fp, 0)
  {
    hide Render, Tag, InOrder, ReplaceAll, NoProt;
    var x0, x2 := Placed(2, 6, 0), Placed(0, 2, 2);
    RenderCons(t, x0, fp, 2);
    FrontByTag(t, [x0] + fp, 2);
    FrontByTag(t, fp, 2);
    NothingFirst(t[2..2], Tag(0), t[6..6] + rest);
    TwoFirst(Tag(2), Tag(0), t[6..6], rest);
    WithoutZero(x2, x0, fp);
    RestoreRenders(t, [x2] + ([x0] + fp), 0, 0, t[2..6]);
  }

  lemma TwoFirst(a: Text, b: Text, none: Text, rest: Text)
    requires none == []
    ensures a + (b + (none + rest)) == a + b + rest
  {
  }

  lemma WithoutZero(x2: Placed, x0: Placed, fp: seq<Placed>)
    requires x0.idx == 0 && x2.idx == 2 && forall k :: 0 <= k < |fp| ==> fp[k].idx >= 3
    ensures Without([x2] + ([x0] + fp), 0) == [x2] + fp
  {
    var placed := [x2] + ([x0] + fp);
    assert placed[1..] == [x0] + fp && ([x0] + fp)[1..] == fp;
    WithoutCons(placed, 0);
    WithoutCons([x0] + fp, 0);
    NothingWithout(fp, 0);
  }

  lemma ManyStep1()
    requires InOrder(MANY, [Placed(0, 2, 2)] + ManyTags(), 0)
    ensures var X := Render(MANY, [Placed(0, 2, 2)] + ManyTags(), 0); ReplaceAll(X, Tag(1), HASHES) == X
  {
    ManyIsCalm();
    ManyRenders(6);
    hide MANY, Filler, Tagged, FillerPlaced, Render, Tag, InOrder, ReplaceAll, NoProt, ManyTags;
    NothingWithout([Placed(0, 2, 2)] + ManyTags(), 1);
    RestoreRenders(MANY, [Placed(0, 2, 2)] + ManyTags(), 0, 1, HASHES);
  }

  lemma ManyStep2()
    requires InOrder(MANY, [Placed(0, 2, 2)] + ManyTags(), 0)
    ensures InOrder(MANY, [Placed(1, 6, 10)] + ManyTags(), 0)
    ensures ReplaceAll(Render(MANY, [Placed(0, 2, 2)] + ManyTags(), 0), Tag(2), NAMED)
            == Render(MANY, [Placed(1, 6, 10)] + ManyTags(), 0)
  {
    ManyParts();
    ManyRenders(6);
    ManyRenders(2);
    TagTen();
    ManyNamed();
    hide MANY, NAMED, ZEROS, HASHES, Filler, Tagged, FillerPlaced, Render, Tag, InOrder, ReplaceAll, ManyTags;
    FrontByTag(MANY, ManyTags(), 2);
    SwapFront(MANY, ManyTags(), Tagged(3, 7), NAMED);
  }

  lemma FrontByTag(t: Text, fp: seq<Placed>, n: nat)
    requires 2 <= |t| && InOrder(t, fp, 2)
    ensures InOrder(t, [Placed(0, 2, n)] + fp, 0) && Render(t, [Placed(0, 2, n)] + fp, 0) == Tag(n) + Render(t, fp, 2)
  {
    RenderCons(t, Placed(0, 2, n), fp, 0);
    hide Render, Tag, InOrder;
    NothingFirst(t[0..0], Tag(n), Render(t, fp, 2));
  }

  lemma NothingFirst(none: Text, a: Text, b: Text)
    requires none == []
    ensures none + a + b == a + b
  {
  }

  lemma SwapFront(t: Text, fp: seq<Placed>, rest: Text, named: Text)
    requires 6 <= |t| && InOrder(t, fp, 2) && InOrder(t, fp, 6) && named + t[2..6] == t[0..1] + Tag(10)
    requires Render(t, fp, 2) == t[2..6] + rest && Render(t, fp, 6) == t[6..6] + rest
    ensures InOrder(t, [Placed(1, 6, 10)] + fp, 0) && named + Render(t, fp, 2) == Render(t, [Placed(1, 6, 10)] + fp, 0)
  {
    RenderCons(t, Placed(1, 6, 10), fp, 0);
    hide Render, Tag, InOrder;
    SwapTexts(named, t[2..6], t[0..1], Tag(10), t[6..6], rest);
  }

  lemma SwapTexts(named: Text, a: Text, b: Text, tag: Text, none: Text, rest: Text)
    requires named + a == b + tag && none == []
    ensures named + (a + rest) == b + tag + (none + rest)
  {
    assert named + (a + rest) == (named + a) + rest;
  }

  lemma ManyNamed()
    requires InOrder(MANY, ManyTags(), 2)
    ensures var rest := Render(MANY, ManyTags(), 2); ReplaceAll(Tag(2) + rest, Tag(2), NAMED) == NAMED + rest
  {
    ManyIsCalm();
    ManyRenders(2);
    hide MANY, NAMED, ZEROS, HASHES, Filler, Tagged, FillerPlaced, Render, Tag, InOrder, ReplaceAll, NoProt, ManyTags, StartsWith;
    var rest := Render(MANY, ManyTags(), 2);
    TagIsUnique(2, 2, rest);
    TagReplaced(Tag(2), rest, NAMED);
    NothingWithout(ManyTags(), 2);
    RestoreRenders(MANY, ManyTags(), 2, 2, NAMED);
  }

  lemma TagTen()
    ensures NAMED + ZEROS == [0x40] + Tag(10)
  {
    OneDigit(1);
    assert Decimal(10) == Decimal(1) + [0x30];
  }

  /** Tag 0 takes the end of what is left of tag 1; with the span put in its place, the number 1
      becomes the number 10. */
  lemma ManyRestored()
    ensures Restored(Tag(2) + Tag(0) + Tagged(3, 7), ManySpans(), 0) == MANY
  {
    ManyStep0();
    ManyStep1();
    ManyStep2();
    ManySpansAre();
    ManyRest();
    hide MANY, NAMED, ZEROS, HASHES, ManySpans, ManyTags, Filler, Tagged, FillerPlaced, Render, Tag, InOrder, ReplaceAll, FillerTexts;
    var prot := ManySpans();
    var X0 := Tag(2) + Tag(0) + Tagged(3, 7);
    var X1 := ReplaceAll(X0, Tag(0), prot[0]);
    var X3 := Render(MANY, [Placed(1, 6, 10)] + ManyTags(), 0);
    assert Restored(X0, prot, 0) == Restored(X1, prot, 1);
    assert Restored(X1, prot, 1) == Restored(X1, prot, 2);
    assert Restored(X1, prot, 2) == Restored(X3, prot, 3);
  }

  lemma ManySpansAre()
    ensures var prot := ManySpans();
            |prot| == 11 && prot[0] == ZEROS && prot[1] == HASHES && prot[2] == NAMED && prot[10] == MANY[1..6]
  {
    ManyParts();
    LastFiller(7);
    hide MANY, NAMED, ZEROS, HASHES, FillerTexts, Filler;
    assert ManySpans()[10] == FillerTexts(7)[7];
  }

  lemma ManyRest()
    requires InOrder(MANY, [Placed(1, 6, 10)] + ManyTags(), 0)
    ensures Restored(Render(MANY, [Placed(1, 6, 10)] + ManyTags(), 0), ManySpans(), 3) == MANY
  {
    ManyIsCalm();
    ManyRenders(6);
    ManySpansAre();
    ManyTagsRecorded();
    hide MANY, NAMED, ZEROS, HASHES, ManySpans, ManyTags, Filler, Tagged, FillerPlaced, Render, Tag, InOrder, NoProt, FillerTexts, Restored, Recorded;
    RestoreRest(MANY, Placed(1, 6, 10), ManyTags(), ManySpans());
  }

  lemma RestoreRest(t: Text, x: Placed, fp: seq<Placed>, prot: seq<Text>)
    requires NoProt(t) && InOrder(t, [x] + fp, 0) && Recorded(t, [x], prot) && Recorded(t, fp, prot) && |prot| >= 3
    requires x.idx >= 3 && forall k :: 0 <= k < |fp| ==> fp[k].idx >= 3
    ensures Restored(Render(t, [x] + fp, 0), prot, 3) == t
  {
    hide Render, InOrder, NoProt, Restored, Recorded;
    RecordedSplit(t, [x], fp, prot);
    RestoreAll(t, [x] + fp, prot, 3);
  }

  lemma ManyTagsRecorded()
    ensures Recorded(MANY, ManyTags(), ManySpans()) && Recorded(MANY, [Placed(1, 6, 10)], ManySpans())
  {
    ManyParts();
    ManySpansAre();
    FillerIsRecorded(MANY, 6, 7, [ZEROS, HASHES, NAMED]);
    hide MANY, NAMED, ZEROS, HASHES, Filler, FillerTexts;
  }

  /** With eleven placeholders a text can come back although a span holds the letters of the prefix. */
  lemma ElevenComeBack()
    ensures AreMatchers(ManyMatchers()) && NoProt(MANY)
    ensures var r := Protected(MANY, ManyMatchers(), []);
            |r.1| == 11 && !NoProt(r.1[2]) && Restored(r.0, r.1, 0) == MANY
  {
    ManyIsCalm();
    ManyProtected();
    ManyRestored();
    hide MANY, Filler, Tagged, Tag, ReplaceAll, FillerTexts, Protected, Restored;
    assert ManySpans()[2] == NAMED;
    ProtAtChars(NAMED, 4);
    assert ProtAt(NAMED, 4);
  }
}
