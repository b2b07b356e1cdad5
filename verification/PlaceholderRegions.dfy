/** Names of placeholders that no replacement can take out of a text any more. */
module PlaceholderRegions {
  import opened Spaces
  import opened Placeholders
  import opened PlaceholdersRoundTrip

  // ------------------------------------------------------------ a name that stays

  /** The name of a placeholder in a text, what remains of placeholders behind it, and original text
      behind that, up to a character that belongs to no word. */
  datatype Region = Region(y: nat, behind: Text, lit: Text)

  function Body(r: Region): (s: Text)
    ensures |s| == 4 + |Decimal(r.y)| + |r.behind| + |r.lit|
  {
    PROT + Decimal(r.y) + r.behind + r.lit
  }

  ghost predicate IsRegion(r: Region) {
    && 0x50 !in r.behind && (r.behind != [] ==> r.behind[0] == UNDERSCORE)
    && r.lit != [] && !IsWordChar(r.lit[|r.lit| - 1]) && UNDERSCORE !in r.lit && NoProt(r.lit)
  }

  /** The name still has its three underscores. */
  predicate IsOpen(r: Region) { StartsWith(r.behind, TAG_END) }

  lemma BodyChars(r: Region)
    ensures var s, d, l := Body(r), |Decimal(r.y)|, 4 + |Decimal(r.y)| + |r.behind|;
            && s[0] == 0x50 && s[1] == 0x52 && s[2] == 0x4F && s[3] == 0x54
            && (forall k :: 4 <= k < 4 + d ==> s[k] == Decimal(r.y)[k - 4] && IsAsciiDigit(s[k]))
            && (forall k :: 4 + d <= k < l ==> s[k] == r.behind[k - (4 + d)])
            && forall k :: l <= k < |s| ==> s[k] == r.lit[k - l]
  {
    hide Decimal;
  }

  /** In H + Body(r) + T stands the tag of 'i' at 'p'. */
  ghost predicate Overlaps(H: Text, r: Region, T: Text, i: nat, p: nat) {
    && p < |H| + |Body(r)| && |H| < p + |Tag(i)| <= |H| + |Body(r)| + |T|
    && forall k :: 0 <= k < |Tag(i)| ==> (H + Body(r) + T)[p + k] == Tag(i)[k]
  }

  lemma OverlapsFrom(H: Text, r: Region, T: Text, i: nat, p: nat)
    requires p < |H| + |Body(r)| && |H| < p + |Tag(i)| && StartsWith((H + Body(r) + T)[p..], Tag(i))
    ensures Overlaps(H, r, T, i, p)
  {
    hide Body, Tag;
    var X := H + Body(r) + T;
    forall k | 0 <= k < |Tag(i)| ensures X[p + k] == Tag(i)[k] {
      StartsWithAt(X[p..], Tag(i), k);
      assert X[p..][k] == X[p + k];
    }
  }

  /** An overlapping tag begins with the three characters before the name. */
  lemma OverlapIsAligned(H: Text, r: Region, T: Text, i: nat, p: nat)
    requires IsRegion(r) && Overlaps(H, r, T, i, p)
    ensures p + 3 == |H| && p + |Tag(i)| <= |H| + |Body(r)|
  {
    hide Body, Tag, NoProt;
    var X, B := H + Body(r) + T, |H|;
    BodyChars(r);
    TagChars(i);
    NotBeyond(H, r, T, i, p);
    if p < B {
      assert X[B] == Body(r)[0] == 0x50;
      assert X[p + (B - p)] == Tag(i)[B - p];
      OnlyPInTag(i, B - p);
    }
    InsideBody(H, r, T, i, p);
  }

  /** What ends a region is in no tag. */
  lemma NotBeyond(H: Text, r: Region, T: Text, i: nat, p: nat)
    requires IsRegion(r) && Overlaps(H, r, T, i, p)
    ensures p + |Tag(i)| <= |H| + |Body(r)|
  {
    TagWord(i);
    BodyChars(r);
    hide Body, Tag, NoProt, IsWordChar;
    var X, e := H + Body(r) + T, |H| + |Body(r)| - 1;
    forall k | p <= k < p + |Tag(i)| ensures IsWordChar(X[k]) { assert X[p + (k - p)] == Tag(i)[k - p]; }
    assert X[e] == Body(r)[|Body(r)| - 1] == r.lit[|r.lit| - 1];
  }

  lemma TagWord(i: nat)
    ensures forall k :: 0 <= k < |Tag(i)| ==> IsWordChar(Tag(i)[k])
  {
    TagChars(i);
    hide Tag;
    var d := |Decimal(i)|;
    forall k | 0 <= k < |Tag(i)| ensures IsWordChar(Tag(i)[k]) {
      if 7 <= k < 7 + d { assert Tag(i)[7 + (k - 7)] == Decimal(i)[k - 7]; }
    }
  }

  /** A region holds one name, at its front. */
  lemma NameAtFront(r: Region, m: nat)
    requires IsRegion(r) && 0 < m
    ensures !ProtAt(Body(r), m)
  {
    hide Body, Decimal;
    BodyChars(r);
    ProtAtChars(Body(r), m);
    var s, d, b := Body(r), |Decimal(r.y)|, |r.behind|;
    if m >= 4 + d + b && ProtAt(s, m) { ProtInLit(r, m - (4 + d + b)); }
  }

  lemma ProtInLit(r: Region, q: nat)
    requires ProtAt(Body(r), 4 + |Decimal(r.y)| + |r.behind| + q)
    ensures ProtAt(r.lit, q)
  {
    BodyChars(r);
    hide Body, Decimal;
    var s, l := Body(r), 4 + |Decimal(r.y)| + |r.behind|;
    ProtAtChars(s, l + q);
    ProtAtChars(r.lit, q);
  }

  lemma InsideBody(H: Text, r: Region, T: Text, i: nat, p: nat)
    requires IsRegion(r) && Overlaps(H, r, T, i, p) && p + |Tag(i)| <= |H| + |Body(r)|
    ensures p < |H|
  {
    TagChars(i);
    hide Body, Tag, IsRegion;
    var X, s := H + Body(r) + T, Body(r);
    if p >= |H| {
      var a := p - |H|;
      forall k | 3 <= k < 7 ensures s[a + k] == Tag(i)[k] {
        assert X[p + k] == Tag(i)[k];
        assert X[|H| + (a + k)] == s[a + k];
      }
      ProtAtChars(s, a + 3);
      NameAtFront(r, a + 3);
    }
  }

  /** Only the tag of the name itself can overlap, and only while the name is open. */
  lemma OverlapIsOwn(H: Text, r: Region, T: Text, i: nat, p: nat)
    requires IsRegion(r) && Overlaps(H, r, T, i, p)
    ensures p + 3 == |H| && i == r.y && IsOpen(r)
  {
    OverlapIsAligned(H, r, T, i, p);
    TagChars(i);
    hide Body, Tag, IsRegion, IsOpen;
    var X, s := H + Body(r) + T, Body(r);
    forall k | 4 <= k < |Tag(i)| - 3 ensures s[k] == Tag(i)[3 + k] {
      assert X[p + (3 + k)] == Tag(i)[3 + k];
      assert X[|H| + k] == s[k];
    }
    var a := |Decimal(i)|;
    forall k | 4 <= k < 4 + a ensures s[k] == Decimal(i)[k - 4] { assert s[k] == Tag(i)[3 + k] == Tag(i)[7 + (k - 4)]; }
    assert s[4 + a] == Tag(i)[7 + a] && s[5 + a] == Tag(i)[8 + a] && s[6 + a] == Tag(i)[9 + a];
    OwnNumber(r, i);
  }

  /** A number that ends in three underscores is that of the name. */
  lemma OwnNumber(r: Region, i: nat)
    requires IsRegion(r) && 7 + |Decimal(i)| <= |Body(r)|
    requires var s, a := Body(r), |Decimal(i)|;
             (forall k :: 4 <= k < 4 + a ==> s[k] == Decimal(i)[k - 4]) && s[4 + a] == s[5 + a] == s[6 + a] == UNDERSCORE
    ensures i == r.y && IsOpen(r)
  {
    BodyChars(r);
    hide Body, Decimal, NoProt;
    var s, a, d, b := Body(r), |Decimal(i)|, |Decimal(r.y)|, |r.behind|;
    assert a < d ==> IsAsciiDigit(s[4 + a]);
    assert forall k :: 4 <= k < 4 + a ==> IsAsciiDigit(s[k]);
    assert 4 + d < |s| && (b > 0 ==> s[4 + d] == r.behind[0]);
    assert forall k :: 4 + d + b <= k < |s| ==> s[k] != UNDERSCORE;
    assert a == d && b > 2;
    forall k | 0 <= k < d ensures Decimal(i)[k] == Decimal(r.y)[k] { assert s[k + 4] == Decimal(i)[k + 4 - 4]; }
    assert Decimal(i) == Decimal(r.y);
    DecimalRoundTrip(i);
    DecimalRoundTrip(r.y);
    forall k | 0 <= k < 3 ensures r.behind[k] == UNDERSCORE { assert s[4 + d + k] == r.behind[k]; }
    assert r.behind[..3] == TAG_END;
  }

  /** Replacing tags leaves a region where it is, or opens it at its name. */
  lemma {:induction false} ReplaceAtRegion(H: Text, r: Region, T: Text, i: nat, span: Text)
    returns (H2: Text, T2: Text, hit: bool)
    requires IsRegion(r)
    ensures hit ==> i == r.y && IsOpen(r) && |r.behind| >= 3
    ensures ReplaceAll(H + Body(r) + T, Tag(i), span)
            == H2 + (if hit then span + r.behind[3..] + r.lit else Body(r)) + T2
    decreases |H|
  {
    hide Body, Tag, IsRegion, StartsWith, ReplaceAll;
    var X := H + Body(r) + T;
    if H == [] {
      RegionAtFront(r, T, i, span);
      H2, T2, hit := [], ReplaceAll(T, Tag(i), span), false;
      assert X == Body(r) + T;
    } else {
      ReplaceUnfold(X, Tag(i), span);
      if StartsWith(X, Tag(i)) {
        assert X[0..] == X;
        StartsWithFits(X, Tag(i));
        if |Tag(i)| <= |H| {
          assert X[|Tag(i)|..] == H[|Tag(i)|..] + Body(r) + T;
          H2, T2, hit := ReplaceAtRegion(H[|Tag(i)|..], r, T, i, span);
          H2 := span + H2;
        } else {
          OverlapsFrom(H, r, T, i, 0);
          OverlapIsOwn(H, r, T, i, 0);
          OpenedRegion(H, r, T, span);
          H2, T2, hit := [], ReplaceAll(T, Tag(i), span), true;
        }
      } else {
        assert X[1..] == H[1..] + Body(r) + T && X[0] == H[0];
        H2, T2, hit := ReplaceAtRegion(H[1..], r, T, i, span);
        H2 := [X[0]] + H2;
      }
    }
  }

  lemma StartsWithFits(s: Text, w: Text)
    requires StartsWith(s, w)
    ensures |w| <= |s|
  {
  }

  lemma ReplaceUnfold(s: Text, tag: Text, span: Text)
    requires tag != [] && s != []
    ensures StartsWith(s, tag) ==> ReplaceAll(s, tag, span) == span + ReplaceAll(s[|tag|..], tag, span)
    ensures !StartsWith(s, tag) ==> ReplaceAll(s, tag, span) == [s[0]] + ReplaceAll(s[1..], tag, span)
  {
  }

  /** Nothing is replaced in a front in which no tag begins. */
  lemma ReplaceKeeps(W: Text, T: Text, tag: Text, span: Text)
    requires tag != [] && NoneBetween(W + T, tag, 0, |W|)
    ensures ReplaceAll(W + T, tag, span) == W + ReplaceAll(T, tag, span)
  {
    hide StartsWith, ReplaceAll;
    ReplaceAllSkip(W + T, tag, span, |W|);
    assert (W + T)[..|W|] == W && (W + T)[|W|..] == T;
  }

  lemma ReplaceFront(X: Text, W: Text, T: Text, tag: Text, span: Text)
    requires tag != [] && StartsWith(X, tag) && |tag| <= |X| && X[|tag|..] == W + T && NoneBetween(X, tag, |tag|, |tag| + |W|)
    ensures ReplaceAll(X, tag, span) == span + W + ReplaceAll(T, tag, span)
  {
    hide StartsWith, ReplaceAll, NoneBetween;
    ReplaceUnfold(X, tag, span);
    NoneBetweenDrop(X, tag, |tag|, |tag| + |W|);
    ReplaceKeeps(W, T, tag, span);
    assert span + (W + ReplaceAll(T, tag, span)) == span + W + ReplaceAll(T, tag, span);
  }

  lemma NoneInRegion(H: Text, r: Region, T: Text, i: nat, p: nat)
    requires IsRegion(r) && (H == [] || |H| + 3 < p)
    ensures NoneBetween(H + Body(r) + T, Tag(i), p, |H| + |Body(r)|)
  {
    hide Body, Tag, IsRegion, StartsWith;
    var X := H + Body(r) + T;
    forall q | p <= q < |H| + |Body(r)| && q <= |X| ensures !StartsWith(X[q..], Tag(i)) {
      if StartsWith(X[q..], Tag(i)) {
        OverlapsFrom(H, r, T, i, q);
        OverlapIsOwn(H, r, T, i, q);
      }
    }
  }

  lemma RegionAtFront(r: Region, T: Text, i: nat, span: Text)
    requires IsRegion(r)
    ensures ReplaceAll(Body(r) + T, Tag(i), span) == Body(r) + ReplaceAll(T, Tag(i), span)
  {
    hide Body, Tag, IsRegion, StartsWith, ReplaceAll, NoneBetween;
    NoneInRegion([], r, T, i, 0);
    assert [] + Body(r) + T == Body(r) + T;
    ReplaceKeeps(Body(r), T, Tag(i), span);
  }

  lemma OpenedRegion(H: Text, r: Region, T: Text, span: Text)
    requires IsRegion(r) && IsOpen(r) && |H| == 3 && StartsWith(H + Body(r) + T, Tag(r.y))
    ensures |r.behind| >= 3
    ensures ReplaceAll(H + Body(r) + T, Tag(r.y), span)
            == [] + (span + r.behind[3..] + r.lit) + ReplaceAll(T, Tag(r.y), span)
  {
    OpenedSlices(H, r, T);
    hide Body, Tag, IsRegion, StartsWith, ReplaceAll, NoneBetween;
    var X, rest := H + Body(r) + T, r.behind[3..] + r.lit;
    NoneInRegion(H, r, T, r.y, |Tag(r.y)|);
    ReplaceFront(X, rest, T, Tag(r.y), span);
    assert span + rest == [] + (span + r.behind[3..] + r.lit);
  }

  lemma OpenedSlices(H: Text, r: Region, T: Text)
    requires IsOpen(r) && |H| == 3
    ensures var X, n := H + Body(r) + T, |Tag(r.y)|;
            |r.behind| >= 3 && n <= |X| && X[n..] == (r.behind[3..] + r.lit) + T
            && n + |r.behind[3..] + r.lit| == |H| + |Body(r)| && n > |H| + 3
  {
    hide Decimal;
  }

  // ------------------------------------------------------------ texts that cannot come back

  ghost predicate IsAt(X: Text, H: Text, r: Region, T: Text) { IsRegion(r) && X == H + Body(r) + T }

  /** The text holds a name that no tag from number 'j' on can take away. */
  ghost predicate Stuck(X: Text, j: nat) {
    exists H, r, T :: IsAt(X, H, r, T) && (r.y < j || !IsOpen(r))
  }

  /** The text holds the name of a later tag, and is stuck when that tag has been replaced. */
  ghost predicate Doomed(X: Text, j: nat, prot: seq<Text>) {
    exists H, r, T :: IsAt(X, H, r, T) && j <= r.y < |prot| && IsOpen(r) && |r.behind| >= 3
                      && Stuck(prot[r.y] + r.behind[3..] + r.lit, r.y + 1)
  }

  lemma StuckInside(a: Text, X: Text, b: Text, j: nat, j2: nat)
    requires Stuck(X, j) && j <= j2
    ensures Stuck(a + X + b, j2)
  {
    hide IsRegion, Body, IsOpen;
    var H, r, T :| IsAt(X, H, r, T) && (r.y < j || !IsOpen(r));
    assert a + X + b == (a + H) + Body(r) + (T + b);
    assert IsAt(a + X + b, a + H, r, T + b);
  }

  lemma StuckHasProt(X: Text, j: nat)
    requires Stuck(X, j)
    ensures !NoProt(X)
  {
    hide IsRegion, Body, IsOpen;
    var H, r, T :| IsAt(X, H, r, T) && (r.y < j || !IsOpen(r));
    BodyChars(r);
    ProtAtChars(X, |H|);
    assert ProtAt(X, |H|);
  }

  lemma StuckStep(X: Text, i: nat, span: Text)
    requires Stuck(X, i)
    ensures Stuck(ReplaceAll(X, Tag(i), span), i + 1)
  {
    hide IsRegion, Body, IsOpen, Tag, ReplaceAll;
    var H, r, T :| IsAt(X, H, r, T) && (r.y < i || !IsOpen(r));
    var H2, T2, hit := ReplaceAtRegion(H, r, T, i, span);
    assert IsAt(ReplaceAll(X, Tag(i), span), H2, r, T2);
  }

  lemma DoomedStep(X: Text, i: nat, prot: seq<Text>)
    requires Doomed(X, i, prot) && i < |prot|
    ensures var X2 := ReplaceAll(X, Tag(i), prot[i]); Stuck(X2, i + 1) || Doomed(X2, i + 1, prot)
  {
    hide IsRegion, Body, IsOpen, Tag, ReplaceAll, Stuck;
    var X2 := ReplaceAll(X, Tag(i), prot[i]);
    var H, r, T :| IsAt(X, H, r, T) && i <= r.y < |prot| && IsOpen(r) && |r.behind| >= 3
                   && Stuck(prot[r.y] + r.behind[3..] + r.lit, r.y + 1);
    var H2, T2, hit := ReplaceAtRegion(H, r, T, i, prot[i]);
    if hit {
      StuckInside(H2, prot[i] + r.behind[3..] + r.lit, T2, i + 1, i + 1);
    } else {
      assert IsAt(X2, H2, r, T2);
      if r.y == i { StuckAt(X2, H2, r, T2, i + 1); }
    }
  }

  lemma StuckAt(X: Text, H: Text, r: Region, T: Text, j: nat)
    requires IsAt(X, H, r, T) && (r.y < j || !IsOpen(r))
    ensures Stuck(X, j)
  {
  }

  lemma {:induction false} StuckRun(X: Text, prot: seq<Text>, i: nat)
    requires i <= |prot| && Stuck(X, i)
    ensures !NoProt(Restored(X, prot, i))
    decreases |prot| - i
  {
    hide Tag, ReplaceAll, Stuck, NoProt;
    if i == |prot| {
      StuckHasProt(X, i);
    } else {
      StuckStep(X, i, prot[i]);
      StuckRun(ReplaceAll(X, Tag(i), prot[i]), prot, i + 1);
    }
  }

  lemma {:induction false} DoomedRun(X: Text, prot: seq<Text>, i: nat)
    requires i <= |prot| && Doomed(X, i, prot)
    ensures !NoProt(Restored(X, prot, i))
    decreases |prot| - i
  {
    hide Tag, ReplaceAll, Stuck, NoProt, IsRegion, IsOpen, IsAt;
    var X2 := ReplaceAll(X, Tag(i), prot[i]);
    DoomedStep(X, i, prot);
    if Stuck(X2, i + 1) { StuckRun(X2, prot, i + 1); } else { DoomedRun(X2, prot, i + 1); }
  }
}
