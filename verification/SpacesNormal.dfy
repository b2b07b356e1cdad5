/** The spacing rules reach a fixed point in one go, and touch nothing but blanks. */
module SpacesNormal {
  import opened Spaces
  import opened SpacesGaps

  /** No pass but those for ASCII punctuation and for the ends has anything to do. */
  ghost predicate Fixed(s: Text) {
    Collapse(s) == s && Join(false, s) == s && Join(true, s) == s && Part(s) == s && Trim(s) == s
  }

  // ------------------------------------------------------------ passes 1 to 6

  ghost function CollapsedOf(t: Spacing): (u: Spacing)
    requires t.Valid()
    ensures Collapsed(t, u)
  {
    Spacing(t.chars, seq(|t.gaps|, i requires 0 <= i < |t.gaps| => Min1(t.gaps[i])))
  }

  ghost function JoinedOf(digits: bool, t: Spacing): (u: Spacing)
    requires t.Valid()
    ensures Joined(digits, t, u)
  {
    Spacing(t.chars, seq(|t.gaps|, i requires 0 <= i < |t.gaps| =>
      if 0 < i < |t.chars| && Touching(digits, t.chars[i - 1], t.chars[i]) then 0 else t.gaps[i]))
  }

  ghost function PartedOf(t: Spacing): (u: Spacing)
    requires t.Valid()
    ensures PartedTo(t, u)
  {
    Spacing(t.chars, seq(|t.gaps|, i requires 0 <= i < |t.gaps| => if PartedAt(t, Ends(t, 0), i) then 1 else t.gaps[i]))
  }

  ghost function TrimmedOf(t: Spacing): (u: Spacing)
    requires t.Valid()
    ensures TrimmedTo(t, u)
  {
    Spacing(t.chars, seq(|t.gaps|, i requires 0 <= i < |t.gaps| => if TrimmedAt(t.chars, i) then 0 else t.gaps[i]))
  }

  /** Which of the pairs the passes deal with a pair of neighbours can be. */
  lemma PairsExclude(l: int, right: Text)
    requires right != []
    ensures Parted(l, right) ==> !Tight(false, l, right[0]) && !Tight(true, l, right[0])
    ensures Parted(l, right) ==> !IsAfter(l) && !IsBefore(l) && !IsAfter(right[0])
    ensures l == UNDERSCORE ==> !Tight(false, l, right[0]) && !Tight(true, l, right[0])
    ensures l == UNDERSCORE && IsCk(right[0]) ==> !IsAfter(l) && !IsBefore(l) && !IsAfter(right[0])
  {
    if HasPrefix(right) { PrefixStart(right); }
  }

  /** A placeholder ends with an underscore. */
  lemma {:induction false} EndsAreUnderscores(t: Spacing, i: nat, j: nat)
    requires t.Valid() && i <= |t.chars| && j in Ends(t, i)
    ensures 0 < j <= |t.chars| && t.chars[j - 1] == UNDERSCORE
    decreases |t.chars| - i
  {
    hide FromChar, FromGap, TokenLength, Solid, IsTokenChar;
    var e := TokenLength(FromChar(t, i));
    if e > 0 {
      TokenIsSolid(t, i);
      TokenEdges(FromChar(t, i));
      assert FromChar(t, i)[e - 1] == t.chars[i + e - 1];
      if j != i + e { EndsAreUnderscores(t, i + e, j); }
    } else {
      EndsAreUnderscores(t, i + 1, j);
    }
  }

  /** The gap 'i' after all passes, from the gap before. */
  ghost function FinalGap(t: Spacing, i: nat): nat
    requires t.Valid() && i < |t.gaps|
  {
    if TrimmedAt(t.chars, i) then 0 else if PartedAt(t, Ends(t, 0), i) then 1 else t.gaps[i]
  }

  /** 'v' is 't' after pass 4 and pass 6, where 't' has passed passes 1 to 3. */
  ghost predicate IsFinal(t: Spacing, v: Spacing) {
    && t.Valid() && v.Valid() && t.chars == v.chars
    && (forall i {:trigger t.gaps[i]} :: 0 <= i < |t.gaps| ==> t.gaps[i] <= 1)
    && (forall i {:trigger t.gaps[i]} :: 0 < i < |t.chars| ==>
          (Tight(false, t.chars[i - 1], t.chars[i]) || Tight(true, t.chars[i - 1], t.chars[i]) ==> t.gaps[i] == 0))
    && (forall i {:trigger v.gaps[i]} :: 0 <= i < |t.gaps| ==> v.gaps[i] == FinalGap(t, i))
  }

  lemma FinalSameInner(t: Spacing, v: Spacing)
    requires IsFinal(t, v)
    ensures SameInner(t, v)
  {
    forall i | 0 < i < |t.chars| && IsTokenChar(t.chars[i - 1]) && IsTokenChar(t.chars[i])
      ensures t.gaps[i] == v.gaps[i]
    {
      NotPartedInside(t, Ends(t, 0), i);
      TokenCharsAreOther(t.chars[i - 1]);
      TokenCharsAreOther(t.chars[i]);
      hide Ends, IsAfter, IsBefore, PartedAt;
      assert v.gaps[i] == FinalGap(t, i);
    }
  }

  lemma PartedSame(t: Spacing, v: Spacing, i: nat)
    requires IsFinal(t, v) && i < |t.gaps|
    ensures PartedAt(v, Ends(v, 0), i) <==> PartedAt(t, Ends(t, 0), i)
  {
    hide Ends, FromChar, IsAfter, IsBefore, IsCk, IsLatin, HasPrefix, Tight;
    FinalSameInner(t, v);
    EndsSame(t, v, 0);
    if 0 < i < |t.chars| {
      TokenSame(t, v, i);
      FromCharStart(t, i);
      FromCharStart(v, i);
      assert v.gaps[i] == FinalGap(t, i) && t.gaps[i] <= 1;
      assert v.gaps[i] <= 1;
    }
  }

  lemma PartedPairs(t: Spacing, i: nat)
    requires t.Valid() && PartedAt(t, Ends(t, 0), i)
    ensures !TrimmedAt(t.chars, i) && !Tight(false, t.chars[i - 1], t.chars[i]) && !Tight(true, t.chars[i - 1], t.chars[i])
  {
    hide Ends, FromChar, IsAfter, IsBefore, IsCk, IsLatin, HasPrefix, Tight;
    FromCharStart(t, i);
    PairsExclude(t.chars[i - 1], FromChar(t, i));
    if i in Ends(t, 0) { EndsAreUnderscores(t, 0, i); }
  }

  lemma FinalIsFixed(t: Spacing, v: Spacing)
    requires IsFinal(t, v)
    ensures Collapsed(v, v) && Joined(false, v, v) && Joined(true, v, v) && PartedTo(v, v) && TrimmedTo(v, v)
  {
    hide Ends, IsAfter, IsBefore, Tight, Touching, PartedAt, TrimmedAt;
    forall i | 0 <= i < |t.gaps|
      ensures v.gaps[i] <= 1
      ensures 0 < i < |t.chars| && (Touching(false, t.chars[i - 1], t.chars[i]) || Touching(true, t.chars[i - 1], t.chars[i])) ==> v.gaps[i] == 0
      ensures PartedAt(v, Ends(v, 0), i) ==> v.gaps[i] == 1
      ensures TrimmedAt(v.chars, i) ==> v.gaps[i] == 0
    {
      if 0 < i < |t.chars| { ByCodePoint(t.chars[i - 1], t.chars[i]); }
      assert v.gaps[i] == FinalGap(t, i) && t.gaps[i] <= 1;
      PartedSame(t, v, i);
      if PartedAt(t, Ends(t, 0), i) { PartedPairs(t, i); }
    }
  }

  /** The text after passes 1 to 6. */
  ghost function Inner(s: Text): Text {
    Trim(Collapse(Part(Join(true, Join(false, Collapse(s))))))
  }

  /** 't3' is 't' after passes 1 to 3. */
  ghost predicate IsTightened(t: Spacing, t3: Spacing) {
    && t.Valid() && t3.Valid() && t.chars == t3.chars
    && forall i {:trigger t3.gaps[i]} :: 0 <= i < |t.gaps| ==>
         t3.gaps[i] == if 0 < i < |t.chars| && (Touching(false, t.chars[i - 1], t.chars[i]) || Touching(true, t.chars[i - 1], t.chars[i]))
                       then 0 else Min1(t.gaps[i])
  }

  /** What the passes make of the gaps of a text. */
  lemma InnerIsFinal(s: Text) returns (t3: Spacing, v: Spacing)
    ensures IsTightened(Parse(s), t3) && IsFinal(t3, v) && Flat(v) == Inner(s)
  {
    var t0 := Parse(s);
    FlatOfParse(s);
    var t1 := CollapsedOf(t0);
    var t2 := JoinedOf(false, t1);
    t3 := JoinedOf(true, t2);
    var t4 := PartedOf(t3);
    var t5 := CollapsedOf(t4);
    v := TrimmedOf(t5);
    hide Parse, Flat, Collapse, Join, Part, Trim;
    CollapseFlat(t0, t1);
    JoinFlat(false, t1, t2);
    JoinFlat(true, t2, t3);
    PartFlat(t3, t4);
    CollapseFlat(t4, t5);
    TrimFlat(t5, v);
    PassesAreFinal(t1, t2, t3, t4, t5, v, t0);
  }

  lemma InnerIsFixed(s: Text)
    ensures Fixed(Inner(s))
  {
    var t, v := InnerIsFinal(s);
    hide Flat, Collapse, Join, Part, Trim;
    FinalIsFixed(t, v);
    hide Collapsed, Joined, PartedTo, TrimmedTo, IsFinal, IsTightened;
    CollapseFlat(v, v);
    JoinFlat(false, v, v);
    JoinFlat(true, v, v);
    PartFlat(v, v);
    TrimFlat(v, v);
  }

  lemma CollapseFlat(t: Spacing, u: Spacing)
    requires Collapsed(t, u)
    ensures Collapse(Flat(t)) == Flat(u)
  {
    CollapseSpacing(t, u, 0);
  }

  lemma PassesAreFinal(t1: Spacing, t2: Spacing, t3: Spacing, t4: Spacing, t5: Spacing, t6: Spacing, t0: Spacing)
    requires Collapsed(t0, t1) && Joined(false, t1, t2) && Joined(true, t2, t3)
    requires PartedTo(t3, t4) && Collapsed(t4, t5) && TrimmedTo(t5, t6)
    ensures IsTightened(t0, t3) && IsFinal(t3, t6)
  {
    hide Ends, IsAfter, IsBefore, Tight, Touching, PartedAt, TrimmedAt;
    forall i | 0 <= i < |t3.gaps|
      ensures t3.gaps[i] <= 1 && t6.gaps[i] == FinalGap(t3, i)
      ensures 0 < i < |t3.chars| && (Tight(false, t3.chars[i - 1], t3.chars[i]) || Tight(true, t3.chars[i - 1], t3.chars[i])) ==> t3.gaps[i] == 0
    {
      if 0 < i < |t3.chars| { ByCodePoint(t3.chars[i - 1], t3.chars[i]); }
      assert t1.gaps[i] == Min1(t0.gaps[i]);
      assert t2.gaps[i] <= t1.gaps[i];
      assert t3.gaps[i] <= t2.gaps[i];
      assert t4.gaps[i] == if PartedAt(t3, Ends(t3, 0), i) then 1 else t3.gaps[i];
      assert t5.gaps[i] == Min1(t4.gaps[i]);
      assert t6.gaps[i] == if TrimmedAt(t5.chars, i) then 0 else t5.gaps[i];
    }
  }

  // ------------------------------------------------------------ fixed texts, character by character

  lemma {:induction false} LengthsShrink(digits: bool, s: Text)
    ensures |Collapse(s)| <= |s| && |Join(digits, s)| <= |s| && |Trim(s)| <= |s|
    decreases |s|
  {
    hide IsAfter, IsBefore, Tight, NextIsAfter;
    if s != [] {
      LengthsShrink(digits, s[1..]);
      LengthsShrink(digits, s[AfterSpaces(s, 1)..]);
    }
  }

  lemma CollapseFixFront(s: Text)
    requires s != [] && Collapse(s) == s
    ensures Collapse(s[1..]) == s[1..] && !(|s| > 1 && s[0] == s[1] == SPACE)
    ensures AfterSpaces(s, 1) == OneSpaceOn(s) && (OneSpaceOn(s) < |s| ==> s[OneSpaceOn(s)] != SPACE)
  {
    if |s| > 1 {
      LengthsShrink(true, s[1..]);
      CollapseFront(s);
      assert s == [s[0]] + s[1..];
      if |s| > 2 && s[1] == SPACE {
        LengthsShrink(true, s[2..]);
        assert s[1..][1..] == s[2..];
        CollapseFront(s[1..]);
      }
      AfterOneSpace(s);
    }
  }

  lemma AfterOneSpace(s: Text)
    requires |s| > 1 && (s[1] == SPACE && |s| > 2 ==> s[2] != SPACE)
    ensures AfterSpaces(s, 1) == OneSpaceOn(s)
  {
  }

  lemma CollapseFixBuild(s: Text)
    requires s != [] && Collapse(s[1..]) == s[1..] && !(|s| > 1 && s[0] == s[1] == SPACE)
    ensures Collapse(s) == s
  {
    CollapseFront(s);
  }

  lemma JoinFixFront(digits: bool, s: Text)
    requires s != [] && Collapse(s) == s && Join(digits, s) == s
    ensures Join(digits, s[1..]) == s[1..]
    ensures OneSpaceOn(s) == 2 && 2 < |s| ==> !Tight(digits, s[0], s[2])
  {
    hide Join, Tight, Collapse;
    CollapseFixFront(s);
    JoinFront(digits, s);
    LengthsShrink(digits, s[OneSpaceOn(s)..]);
    assert s == [s[0]] + s[1..];
  }

  lemma JoinFixBuild(digits: bool, s: Text)
    requires s != [] && Collapse(s) == s && Join(digits, s[1..]) == s[1..]
    requires OneSpaceOn(s) == 2 && 2 < |s| ==> !Tight(digits, s[0], s[2])
    ensures Join(digits, s) == s
  {
    hide Join, Tight, Collapse;
    CollapseFixFront(s);
    JoinFront(digits, s);
    assert s == [s[0]] + s[1..];
  }

  lemma PartSpace(s: Text)
    requires s != [] && s[0] == SPACE
    ensures Part(s) == [SPACE] + Part(s[1..])
  {
    hide Part;
    SpaceIsNoToken(s);
    PartCharFront(s);
  }

  lemma PartFixFront(s: Text)
    requires s != [] && Collapse(s) == s && Part(s) == s && TokenLength(s) == 0
    ensures Part(s[1..]) == s[1..]
    ensures Parted(s[0], s[OneSpaceOn(s)..]) ==> OneSpaceOn(s) == 2
  {
    hide Part, Parted, TokenLength, Collapse;
    CollapseFixFront(s);
    PartCharFront(s);
    assert s == [s[0]] + s[1..];
    if Parted(s[0], s[OneSpaceOn(s)..]) {
      assert s[1] == SPACE;
      PartSpace(s[1..]);
      assert s[1..][1..] == s[2..];
      assert s == [s[0], SPACE] + s[2..];
      assert s[1..] == [SPACE] + s[2..];
    }
  }

  lemma PartFixBuild(s: Text)
    requires s != [] && Collapse(s) == s && Part(s[1..]) == s[1..] && TokenLength(s) == 0
    requires Parted(s[0], s[OneSpaceOn(s)..]) ==> OneSpaceOn(s) == 2
    ensures Part(s) == s
  {
    hide Part, Parted, TokenLength, Collapse;
    CollapseFixFront(s);
    PartCharFront(s);
    assert s == [s[0]] + s[1..];
    if Parted(s[0], s[OneSpaceOn(s)..]) {
      PartSpace(s[1..]);
      assert s[1..][1..] == s[2..];
      assert s == [s[0], SPACE] + s[2..];
    }
  }

  lemma {:induction false} CollapseFixDrop(s: Text, k: nat)
    requires Collapse(s) == s && k <= |s|
    ensures Collapse(s[k..]) == s[k..]
    decreases k
  {
    if k == 0 {
      assert s[0..] == s;
    } else {
      CollapseFixFront(s);
      CollapseFixDrop(s[1..], k - 1);
      assert s[1..][k - 1..] == s[k..];
    }
  }

  /** CJK or kana after a placeholder is one space away. */
  ghost predicate TokenApart(s: Text, e: nat)
    requires 0 < e <= |s|
  {
    var n := OneSpaceOn(s[e - 1..]);
    n == 1 && e < |s| ==> !IsCk(s[e])
  }

  lemma TokenNext(s: Text, e: nat)
    requires 0 < e <= |s| && Collapse(s) == s
    ensures AfterSpaces(s, e) == e - 1 + OneSpaceOn(s[e - 1..])
    ensures e < |s| && s[e] == SPACE ==> AfterSpaces(s, e) == e + 1
  {
    CollapseFixDrop(s, e - 1);
    CollapseFixFront(s[e - 1..]);
    SkipIn(s, e - 1, e);
  }

  lemma PartFixToken(s: Text)
    requires Collapse(s) == s && Part(s) == s && TokenLength(s) > 0
    ensures var e := TokenLength(s); Part(s[e..]) == s[e..] && TokenApart(s, e)
  {
    hide Part, TokenLength, Collapse, IsCk, AfterSpaces;
    var e := TokenLength(s);
    TokenNext(s, e);
    PartTokenFront(s);
    assert s == s[..e] + s[e..];
    var a := AfterSpaces(s, e);
    if a < |s| && IsCk(s[a]) {
      assert s[e] == SPACE;
      PartSpace(s[e..]);
      DropDrop(s, e, 1);
      assert s[e..] == [SPACE] + s[e + 1..];
    }
  }

  lemma PartBuildToken(s: Text)
    requires Collapse(s) == s && TokenLength(s) > 0
    requires var e := TokenLength(s); Part(s[e..]) == s[e..] && TokenApart(s, e)
    ensures Part(s) == s
  {
    hide Part, TokenLength, Collapse, IsCk, AfterSpaces;
    var e := TokenLength(s);
    TokenNext(s, e);
    PartTokenFront(s);
    assert s == s[..e] + s[e..];
    var a := AfterSpaces(s, e);
    if a < |s| && IsCk(s[a]) {
      PartSpace(s[e..]);
      DropDrop(s, e, 1);
      assert s[e..] == [SPACE] + s[e + 1..];
    }
  }

  lemma TrimFixFront(s: Text)
    requires s != [] && Collapse(s) == s && Trim(s) == s
    ensures Trim(s[1..]) == s[1..]
    ensures IsAfter(s[0]) || IsBefore(s[0]) ==> OneSpaceOn(s) == 1
    ensures s[0] == SPACE ==> !NextIsAfter(s)
  {
    hide Trim, Collapse, IsAfter, IsBefore, NextIsAfter, AfterSpaces;
    CollapseFixFront(s);
    TrimFront(s);
    SpaceIsNotTrimmed();
    LengthsShrink(true, s[OneSpaceOn(s)..]);
    LengthsShrink(true, s[1..]);
    assert s == [s[0]] + s[1..];
  }

  lemma TrimFixBuild(s: Text)
    requires s != [] && Collapse(s) == s && Trim(s[1..]) == s[1..]
    requires IsAfter(s[0]) || IsBefore(s[0]) ==> OneSpaceOn(s) == 1
    requires s[0] == SPACE ==> !NextIsAfter(s)
    ensures Trim(s) == s
  {
    hide Trim, Collapse, IsAfter, IsBefore, NextIsAfter, AfterSpaces;
    CollapseFixFront(s);
    TrimFront(s);
    assert s == [s[0]] + s[1..];
  }

  // ------------------------------------------------------------ dropping blanks

  /** 's2' is 's' without some blanks, each of which comes before punctuation or at the end. */
  ghost predicate Drops(s: Text, s2: Text)
    decreases |s|
  {
    if s == [] then s2 == []
    else (s2 != [] && s2[0] == s[0] && Drops(s[1..], s2[1..]))
         || (IsBlank(s[0]) && Drops(s[1..], s2) && NoneOrPunct(s2, 0))
  }

  ghost predicate NoneOrPunct(s: Text, i: nat) {
    i < |s| ==> IsAsciiPunct(s[i])
  }

  /** What comes next, past one space, is nothing, or punctuation, or the same as before. */
  lemma LookSame(s: Text, s2: Text)
    requires s != [] && s2 != [] && s[0] == s2[0] && Drops(s[1..], s2[1..]) && Collapse(s) == s
    ensures OneSpaceOn(s2) == 2 ==> OneSpaceOn(s) == 2
    ensures var n, n2 := OneSpaceOn(s), OneSpaceOn(s2);
            NoneOrPunct(s2, n2) || (n < |s| && n2 < |s2| && n == n2 && s[n] == s2[n] && Drops(s[n..], s2[n..]))
    ensures OneSpaceOn(s2) == 2 && 2 < |s2| ==> s2[2] != SPACE
  {
    hide Collapse;
    CollapseFixFront(s);
    var r, r2 := s[1..], s2[1..];
    if r2 != [] && r != [] && r2[0] == r[0] == SPACE {
      assert r[1..] == s[2..] && r2[1..] == s2[2..];
    }
  }

  lemma NeverPunct(c: int)
    requires IsAsciiPunct(c)
    ensures !IsCk(c) && !IsLatin(c) && !IsDigit(c) && !IsAfter(c) && !IsBefore(c) && c != SPACE && c != UNDERSCORE
    ensures !IsTokenChar(c) && !IsBlank(c)
  {
  }

  lemma NeverBlank(c: int)
    requires IsBlank(c)
    ensures !IsCk(c) && !IsLatin(c) && !IsDigit(c) && !IsAfter(c) && !IsBefore(c) && c != UNDERSCORE && !IsTokenChar(c)
  {
  }

  lemma {:induction false} DropsCollapse(s: Text, s2: Text)
    requires Drops(s, s2) && Collapse(s) == s
    ensures Collapse(s2) == s2
    decreases |s|
  {
    hide Collapse;
    if s == [] {
      CollapseEmpty();
    } else {
      CollapseFixFront(s);
      if s2 != [] && s2[0] == s[0] && Drops(s[1..], s2[1..]) {
        DropsCollapse(s[1..], s2[1..]);
        LookSame(s, s2);
        CollapseFixBuild(s2);
      } else {
        DropsCollapse(s[1..], s2);
      }
    }
  }

  lemma CollapseEmpty()
    ensures Collapse([]) == []
  {
  }

  lemma {:induction false} DropsJoin(digits: bool, s: Text, s2: Text)
    requires Drops(s, s2) && Collapse(s) == s && Join(digits, s) == s
    ensures Join(digits, s2) == s2
    decreases |s|
  {
    hide Collapse, Join, IsCk, IsDigit;
    if s == [] {
      JoinEmpty(digits);
    } else {
      DropsCollapse(s, s2);
      CollapseFixFront(s);
      JoinFixFront(digits, s);
      if s2 != [] && s2[0] == s[0] && Drops(s[1..], s2[1..]) {
        DropsJoin(digits, s[1..], s2[1..]);
        LookSame(s, s2);
        if OneSpaceOn(s2) == 2 && 2 < |s2| && NoneOrPunct(s2, 2) { NeverPunct(s2[2]); }
        JoinFixBuild(digits, s2);
      } else {
        DropsJoin(digits, s[1..], s2);
      }
    }
  }

  lemma {:induction false} DropsTrim(s: Text, s2: Text)
    requires Drops(s, s2) && Collapse(s) == s && Trim(s) == s
    ensures Trim(s2) == s2
    decreases |s|
  {
    hide Collapse, Trim, IsAfter, IsBefore, NextIsAfter;
    if s == [] {
      TrimEmpty();
    } else {
      DropsCollapse(s, s2);
      CollapseFixFront(s);
      TrimFixFront(s);
      if s2 != [] && s2[0] == s[0] && Drops(s[1..], s2[1..]) {
        DropsTrim(s[1..], s2[1..]);
        LookSame(s, s2);
        if s[0] == SPACE { NextOfSpace(s); NextOfSpace(s2); }
        if s[0] == SPACE && 1 < |s2| && NoneOrPunct(s2, 1) { NeverPunct(s2[1]); }
        TrimFixBuild(s2);
      } else {
        DropsTrim(s[1..], s2);
      }
    }
  }

  lemma NextOfSpace(s: Text)
    requires s != [] && s[0] == SPACE && Collapse(s) == s
    ensures OneSpaceOn(s) == 1 && (NextIsAfter(s) <==> |s| > 1 && IsAfter(s[1]))
  {
    hide Collapse, IsAfter;
    CollapseFixFront(s);
  }

  // ------------------------------------------------------------ placeholders and dropped blanks

  /** Placeholder characters are never dropped, nor do they come together by dropping. */
  lemma {:induction false} DropsTokens(s: Text, s2: Text, k: nat)
    requires Drops(s, s2)
    requires (k <= |s| && forall j :: 0 <= j < k ==> IsTokenChar(s[j])) || (k <= |s2| && forall j :: 0 <= j < k ==> IsTokenChar(s2[j]))
    ensures k <= |s| && k <= |s2| && s[..k] == s2[..k] && Drops(s[k..], s2[k..])
    decreases k
  {
    if k == 0 {
      assert s[0..] == s && s2[0..] == s2;
    } else {
      hide IsTokenChar, IsBlank, IsAsciiPunct;
      if s != [] && IsBlank(s[0]) { NeverBlank(s[0]); }
      if s2 != [] && IsAsciiPunct(s2[0]) { NeverPunct(s2[0]); }
      assert Drops(s[1..], s2[1..]) && s[0] == s2[0];
      DropsTokens(s[1..], s2[1..], k - 1);
      assert s[..k] == [s[0]] + s[1..][..k - 1] && s2[..k] == [s2[0]] + s2[1..][..k - 1];
      assert s[1..][k - 1..] == s[k..] && s2[1..][k - 1..] == s2[k..];
    }
  }

  lemma DropsTokenLength(s: Text, s2: Text)
    requires Drops(s, s2)
    ensures TokenLength(s2) == TokenLength(s) && (HasPrefix(s2) <==> HasPrefix(s))
  {
    hide TokenLength, HasPrefix, Drops, IsTokenChar;
    if TokenLength(s) > 0 {
      TokenChars(s);
      DropsTokens(s, s2, TokenLength(s));
      TokenLocal(s, s2);
    }
    if TokenLength(s2) > 0 {
      TokenChars(s2);
      DropsTokens(s, s2, TokenLength(s2));
      TokenLocal(s2, s);
    }
    if HasPrefix(s) {
      PrefixChars(s);
      DropsTokens(s, s2, 7);
      PrefixLocal(s, s2);
    }
    if HasPrefix(s2) {
      PrefixChars(s2);
      DropsTokens(s, s2, 7);
      PrefixLocal(s2, s);
    }
  }

  lemma PrefixLocal(s: Text, s2: Text)
    requires HasPrefix(s) && |s2| >= 7 && s[..7] == s2[..7]
    ensures HasPrefix(s2)
  {
  }

  lemma PartedSameNext(c: int, right: Text, right2: Text)
    requires right != [] && right2 != [] && right[0] == right2[0] && Drops(right, right2)
    ensures Parted(c, right) <==> Parted(c, right2)
  {
    DropsTokenLength(right, right2);
    hide HasPrefix, Drops;
  }

  lemma NotPartedFromPunct(c: int, s: Text, i: nat)
    requires i <= |s| && NoneOrPunct(s, i)
    ensures !Parted(c, s[i..]) && (i < |s| ==> !IsCk(s[i]))
  {
    if i < |s| {
      NeverPunct(s[i]);
      if HasPrefix(s[i..]) { PrefixStart(s[i..]); }
    }
  }

  lemma {:induction false} DropsPart(s: Text, s2: Text)
    requires Drops(s, s2) && Collapse(s) == s && Part(s) == s
    ensures Part(s2) == s2
    decreases |s|
  {
    hide Collapse, Part, TokenLength, HasPrefix, Parted, IsCk;
    if s == [] {
      PartEmpty();
    } else {
      DropsTokenLength(s, s2);
      DropsCollapse(s, s2);
      CollapseFixFront(s);
      var e := TokenLength(s);
      if e > 0 {
        TokenChars(s);
        DropsTokens(s, s2, e);
        PartFixToken(s);
        CollapseFixDrop(s, e);
        DropsPart(s[e..], s2[e..]);
        DropsTokenApart(s, s2, e);
        PartBuildToken(s2);
      } else {
        PartFixFront(s);
        if s2 != [] && s2[0] == s[0] && Drops(s[1..], s2[1..]) {
          DropsPart(s[1..], s2[1..]);
          DropsParted(s, s2);
          PartFixBuild(s2);
        } else {
          DropsPart(s[1..], s2);
        }
      }
    }
  }

  lemma DropsParted(s: Text, s2: Text)
    requires s != [] && s2 != [] && s2[0] == s[0] && Drops(s[1..], s2[1..]) && Collapse(s) == s
    requires Parted(s[0], s[OneSpaceOn(s)..]) ==> OneSpaceOn(s) == 2
    ensures Parted(s2[0], s2[OneSpaceOn(s2)..]) ==> OneSpaceOn(s2) == 2
  {
    hide Collapse, Drops, Parted;
    LookSame(s, s2);
    var n, n2 := OneSpaceOn(s), OneSpaceOn(s2);
    if NoneOrPunct(s2, n2) {
      NotPartedFromPunct(s2[0], s2, n2);
    } else {
      PartedSameNext(s[0], s[n..], s2[n..]);
    }
  }

  lemma DropsTokenApart(s: Text, s2: Text, e: nat)
    requires 0 < e <= |s| && e <= |s2| && s[..e] == s2[..e] && Drops(s[e..], s2[e..]) && Collapse(s) == s && TokenApart(s, e)
    ensures TokenApart(s2, e)
  {
    hide Collapse, Drops, IsCk;
    var r, r2 := s[e - 1..], s2[e - 1..];
    CollapseFixDrop(s, e - 1);
    assert r[0] == s[..e][e - 1] == s2[..e][e - 1] == r2[0];
    DropDrop(s, e - 1, 1);
    DropDrop(s2, e - 1, 1);
    LookSame(r, r2);
    if e < |s2| && NoneOrPunct(r2, 1) { NotPartedFromPunct(0, r2, 1); }
  }

  lemma DropsFixed(s: Text, s2: Text)
    requires Fixed(s) && Drops(s, s2)
    ensures Fixed(s2)
  {
    DropsCollapse(s, s2);
    DropsJoin(false, s, s2);
    DropsJoin(true, s, s2);
    DropsPart(s, s2);
    DropsTrim(s, s2);
    hide Collapse, Join, Part, Trim, Drops;
  }

  // ------------------------------------------------------------ the last passes

  lemma {:induction false} BlankToPunctTrimmed(s: Text)
    requires BlankToPunct(s)
    ensures TrimAscii(s) != [] && IsAsciiPunct(TrimAscii(s)[0])
    decreases |s|
  {
    if IsAsciiPunct(s[0]) { NeverPunct(s[0]); } else { BlankToPunctTrimmed(s[1..]); }
  }

  lemma {:induction false} TrimAsciiDrops(s: Text)
    ensures Drops(s, TrimAscii(s))
    decreases |s|
  {
    if s != [] {
      TrimAsciiDrops(s[1..]);
      if IsBlank(s[0]) && BlankToPunct(s) {
        NotPunctIfBlank(s[0]);
        BlankToPunctTrimmed(s[1..]);
      } else {
        assert TrimAscii(s)[1..] == TrimAscii(s[1..]);
      }
    }
  }

  lemma NotPunctIfBlank(c: int)
    requires IsBlank(c)
    ensures !IsAsciiPunct(c)
  {
  }

  /** Blanks at the end may go. */
  lemma {:induction false} BackDrops(s: Text, k: nat)
    requires k <= |s| && forall j :: k <= j < |s| ==> IsBlank(s[j])
    ensures Drops(s, s[..k])
    decreases |s|
  {
    if s != [] {
      if k > 0 {
        BackDrops(s[1..], k - 1);
        assert s[..k][1..] == s[1..][..k - 1];
      } else {
        BackDrops(s[1..], 0);
        assert s[1..][..0] == [] == s[..0];
      }
    }
  }

  lemma {:induction false} StripBackIsPrefix(s: Text) returns (k: nat)
    ensures k <= |s| && StripBack(s) == s[..k] && forall j :: k <= j < |s| ==> IsEdge(s[j])
    ensures k > 0 ==> !IsEdge(s[k - 1])
    decreases |s|
  {
    if s != [] && IsEdge(s[|s| - 1]) {
      k := StripBackIsPrefix(s[..|s| - 1]);
      assert s[..|s| - 1][..k] == s[..k];
    } else {
      k := |s|;
      assert s[..k] == s;
    }
  }

  lemma StripBackDrops(s: Text)
    ensures Drops(s, StripBack(s))
  {
    var k := StripBackIsPrefix(s);
    BackDrops(s, k);
  }

  lemma FixedTail(s: Text)
    requires s != [] && Fixed(s) && IsEdge(s[0])
    ensures Fixed(s[1..])
  {
    NeverBlank(s[0]);
    if HasPrefix(s) { PrefixStart(s); }
    hide Collapse, Join, Part, Trim, HasPrefix;
    CollapseFixFront(s);
    JoinFixFront(false, s);
    JoinFixFront(true, s);
    PartFixFront(s);
    TrimFixFront(s);
  }

  lemma {:induction false} StripFrontFixed(s: Text)
    requires Fixed(s) && TrimAscii(s) == s
    ensures Fixed(StripFront(s)) && TrimAscii(StripFront(s)) == StripFront(s)
    decreases |s|
  {
    if s != [] && IsEdge(s[0]) {
      FixedTail(s);
      TrimAsciiTail(s);
      hide Fixed;
      StripFrontFixed(s[1..]);
    }
  }

  lemma {:induction false} TrimAsciiShrinks(s: Text)
    ensures |TrimAscii(s)| <= |s|
    decreases |s|
  {
    if s != [] { TrimAsciiShrinks(s[1..]); }
  }

  lemma TrimAsciiTail(s: Text)
    requires s != [] && TrimAscii(s) == s
    ensures TrimAscii(s[1..]) == s[1..] && !(IsBlank(s[0]) && BlankToPunct(s))
  {
    TrimAsciiShrinks(s[1..]);
    assert s == [s[0]] + s[1..];
  }

  lemma {:induction false} BlankToPunctBack(s: Text, k: nat)
    requires k <= |s| && BlankToPunct(s[..k])
    ensures BlankToPunct(s)
    decreases |s|
  {
    assert s[..k][0] == s[0];
    if !IsAsciiPunct(s[0]) {
      assert s[..k][1..] == s[1..][..k - 1];
      BlankToPunctBack(s[1..], k - 1);
    }
  }

  lemma {:induction false} TrimAsciiPrefix(s: Text, k: nat)
    requires TrimAscii(s) == s && k <= |s|
    ensures TrimAscii(s[..k]) == s[..k]
    decreases k
  {
    if k > 0 {
      TrimAsciiTail(s);
      TrimAsciiPrefix(s[1..], k - 1);
      assert s[..k][1..] == s[1..][..k - 1] && s[..k][0] == s[0];
      if BlankToPunct(s[..k]) { BlankToPunctBack(s, k); }
      assert s[..k] == [s[0]] + s[..k][1..];
    }
  }

  lemma {:induction false} BlankToPunctOfTrimmed(s: Text)
    requires BlankToPunct(TrimAscii(s))
    ensures BlankToPunct(s)
    decreases |s|
  {
    if !BlankToPunct(s) {
      assert s != [] && !IsAsciiPunct(s[0]);
      assert TrimAscii(s) == [s[0]] + TrimAscii(s[1..]);
      assert TrimAscii(s)[1..] == TrimAscii(s[1..]);
      BlankToPunctOfTrimmed(s[1..]);
    }
  }

  lemma {:induction false} TrimAsciiTwice(s: Text)
    ensures TrimAscii(TrimAscii(s)) == TrimAscii(s)
    decreases |s|
  {
    if s != [] {
      TrimAsciiTwice(s[1..]);
      if !(IsBlank(s[0]) && BlankToPunct(s)) {
        var r := TrimAscii(s);
        assert r[1..] == TrimAscii(s[1..]) && r[0] == s[0];
        if BlankToPunct(r) { BlankToPunctOfTrimmed(s); }
      }
    }
  }

  lemma {:induction false} StripFrontIsSuffix(s: Text)
    ensures StripFront(s) == [] || !IsEdge(StripFront(s)[0])
    decreases |s|
  {
    if s != [] && IsEdge(s[0]) { StripFrontIsSuffix(s[1..]); }
  }

  lemma StripTwice(s: Text)
    ensures Strip(Strip(s)) == Strip(s)
    ensures Strip(s) != [] ==> !IsEdge(Strip(s)[0]) && !IsEdge(Strip(s)[|Strip(s)| - 1])
  {
    StripFrontIsSuffix(s);
    var k := StripBackIsPrefix(StripFront(s));
  }

  /** Everything the passes ask of a text. */
  ghost predicate Settled(s: Text) {
    Fixed(s) && TrimAscii(s) == s && Strip(s) == s
  }

  lemma NormalizedIsSettled(s: Text)
    ensures Settled(Normalized(s))
  {
    var t := Inner(s);
    InnerIsFixed(s);
    TrimAsciiDrops(t);
    hide Drops, Collapse, Join, Part, Trim, TrimAscii, StripFront, StripBack;
    DropsFixed(t, TrimAscii(t));
    var u := TrimAscii(t);
    TrimAsciiTwice(t);
    assert Collapse(u) == u;
    StripFrontFixed(u);
    var v := StripFront(u);
    StripBackDrops(v);
    DropsFixed(v, StripBack(v));
    var k := StripBackIsPrefix(v);
    TrimAsciiPrefix(v, k);
    StripTwice(u);
  }

  /** One application is enough. */
  lemma NormalizeSpacesIsIdempotent(s: Text)
    ensures Normalized(Normalized(s)) == Normalized(s)
  {
    NormalizedIsSettled(s);
    hide Collapse, Join, Part, Trim, TrimAscii, Strip;
  }

  // ------------------------------------------------------------ what is kept

  /** Space, tab, line feed, vertical tab, form feed or carriage return. */
  predicate IsWhite(c: int) { c == 0x20 || 0x09 <= c <= 0x0D }

  /** The characters that are no white space. */
  function Visible(s: Text): Text {
    if s == [] then [] else (if IsWhite(s[0]) then [] else [s[0]]) + Visible(s[1..])
  }

  lemma {:induction false} VisibleConcat(s: Text, t: Text)
    ensures Visible(s + t) == Visible(s) + Visible(t)
    decreases |s|
  {
    if s == [] {
      assert s + t == t;
    } else {
      assert (s + t)[1..] == s[1..] + t;
      VisibleConcat(s[1..], t);
    }
  }

  lemma {:induction false} VisibleSkip(s: Text, i: nat)
    requires i <= |s|
    ensures Visible(s[AfterSpaces(s, i)..]) == Visible(s[i..])
    decreases |s| - i
  {
    if i < |s| && s[i] == SPACE {
      VisibleSkip(s, i + 1);
      assert s[i..][1..] == s[i + 1..];
    }
  }

  lemma {:induction false} CollapseKeeps(s: Text)
    ensures Visible(Collapse(s)) == Visible(s)
    decreases |s|
  {
    if |s| >= 2 {
      CollapseKeeps(s[1..]);
      VisibleConcat([s[0]], Collapse(s[1..]));
      VisibleConcat([s[0]], s[1..]);
      assert s == [s[0]] + s[1..];
      hide Collapse;
    }
  }

  lemma VisibleCons(c: int, t: Text)
    ensures Visible([c] + t) == Visible([c]) + Visible(t)
  {
    VisibleConcat([c], t);
  }

  lemma {:induction false} JoinKeeps(digits: bool, s: Text)
    ensures Visible(Join(digits, s)) == Visible(s)
    decreases |s|
  {
    if s == [] {
      JoinEmpty(digits);
    } else {
      hide Join, Tight, Visible, AfterSpaces;
      JoinFront(digits, s);
      var n := AfterSpaces(s, 1);
      var rest := if n < |s| && Tight(digits, s[0], s[n]) then s[n..] else s[1..];
      JoinKeeps(digits, rest);
      VisibleSkip(s, 1);
      VisibleCons(s[0], Join(digits, rest));
      VisibleCons(s[0], s[1..]);
      assert s == [s[0]] + s[1..];
    }
  }

  lemma VisibleSpace()
    ensures Visible([SPACE]) == []
  {
    assert [SPACE][1..] == [];
  }

  /** A text split at 'i', one space put in, some spaces taken out. */
  lemma VisibleGlue(s: Text, i: nat, k: nat, rest: Text)
    requires i <= |s| && (k == i || k == AfterSpaces(s, i)) && Visible(rest) == Visible(s[k..])
    ensures Visible(s[..i] + rest) == Visible(s)
    ensures Visible(s[..i] + [SPACE] + rest) == Visible(s)
  {
    hide Visible, AfterSpaces;
    VisibleSkip(s, i);
    VisibleJoin(s[..i], s[i..], rest);
    assert s == s[..i] + s[i..];
  }

  lemma VisibleJoin(a: Text, b: Text, rest: Text)
    requires Visible(rest) == Visible(b)
    ensures Visible(a + rest) == Visible(a + b)
    ensures Visible(a + [SPACE] + rest) == Visible(a + b)
  {
    hide Visible;
    VisibleSpace();
    VisibleConcat(a, rest);
    VisibleConcat(a, b);
    VisibleConcat(a + [SPACE], rest);
    VisibleConcat(a, [SPACE]);
  }

  lemma {:induction false} PartKeeps(s: Text)
    ensures Visible(Part(s)) == Visible(s)
    decreases |s|
  {
    hide Part, Parted, Visible, AfterSpaces, TokenLength, IsCk;
    if s == [] {
      PartEmpty();
    } else if TokenLength(s) > 0 {
      var e := TokenLength(s);
      PartTokenFront(s);
      var k := if AfterSpaces(s, e) < |s| && IsCk(s[AfterSpaces(s, e)]) then AfterSpaces(s, e) else e;
      PartKeeps(s[k..]);
      VisibleGlue(s, e, k, Part(s[k..]));
    } else {
      PartCharFront(s);
      var k := if Parted(s[0], s[OneSpaceOn(s)..]) then AfterSpaces(s, 1) else 1;
      PartKeeps(s[k..]);
      VisibleGlue(s, 1, k, Part(s[k..]));
      assert s[..1] == [s[0]] && s[..1] + [SPACE] == [s[0], SPACE];
    }
  }

  lemma {:induction false} TrimKeeps(s: Text)
    ensures Visible(Trim(s)) == Visible(s)
    decreases |s|
  {
    hide Trim, Visible, AfterSpaces, IsAfter, IsBefore, NextIsAfter;
    if s == [] {
      TrimEmpty();
    } else {
      TrimFront(s);
      var k := if IsAfter(s[0]) || IsBefore(s[0]) then AfterSpaces(s, 1) else 1;
      TrimKeeps(s[k..]);
      VisibleGlue(s, 1, k, Trim(s[k..]));
      assert s[..1] == [s[0]];
      if !IsAfter(s[0]) && !IsBefore(s[0]) && s[0] == SPACE && NextIsAfter(s) { VisibleAfterSpace(s); }
    }
  }

  lemma VisibleAfterSpace(s: Text)
    requires s != [] && s[0] == SPACE
    ensures Visible(s[1..]) == Visible(s)
  {
  }

  /** Dropping blanks keeps what is visible. */
  lemma {:induction false} DropsKeeps(s: Text, s2: Text)
    requires Drops(s, s2)
    ensures Visible(s2) == Visible(s)
    decreases |s|
  {
    if s != [] {
      if s2 != [] && s2[0] == s[0] && Drops(s[1..], s2[1..]) { DropsKeeps(s[1..], s2[1..]); } else { DropsKeeps(s[1..], s2); }
    }
  }

  lemma {:induction false} StripFrontKeeps(s: Text)
    ensures Visible(StripFront(s)) == Visible(s)
    decreases |s|
  {
    hide Visible;
    if s != [] && IsEdge(s[0]) {
      VisibleAfterEdge(s);
      StripFrontKeeps(s[1..]);
    }
  }

  lemma VisibleAfterEdge(s: Text)
    requires s != [] && IsEdge(s[0])
    ensures Visible(s[1..]) == Visible(s)
  {
  }

  /** The characters that are no blanks stay, in their order, and none is added. */
  lemma NormalizeSpacesKeepsVisible(s: Text)
    ensures Visible(Normalized(s)) == Visible(s)
  {
    hide Collapse, Join, Part, Trim, TrimAscii, StripFront, StripBack, Visible, Drops;
    var s1 := Collapse(s);
    CollapseKeeps(s);
    JoinKeeps(false, s1);
    JoinKeeps(true, Join(false, s1));
    var s3 := Join(true, Join(false, s1));
    PartKeeps(s3);
    CollapseKeeps(Part(s3));
    TrimKeeps(Collapse(Part(s3)));
    var s6 := Trim(Collapse(Part(s3)));
    TrimAsciiDrops(s6);
    DropsKeeps(s6, TrimAscii(s6));
    var s7 := Collapse(TrimAscii(s6));
    CollapseKeeps(TrimAscii(s6));
    StripFrontKeeps(s7);
    StripBackDrops(StripFront(s7));
    DropsKeeps(StripFront(s7), StripBack(StripFront(s7)));
  }

  // ------------------------------------------------------------ what the result looks like

  /** The characters at 'i' and 'i + 1' may stand next to each other. */
  predicate NeighboursOk(s: Text, i: nat)
    requires i + 1 < |s|
  {
    && !(s[i] == s[i + 1] == SPACE)
    && !(IsCk(s[i]) && (IsLatin(s[i + 1]) || HasPrefix(s[i + 1..])))
    && !(IsLatin(s[i]) && IsCk(s[i + 1]))
    && !(s[i] == SPACE && IsAfter(s[i + 1]))
    && !((IsAfter(s[i]) || IsBefore(s[i])) && s[i + 1] == SPACE)
    && !(IsBlank(s[i]) && IsAsciiPunct(s[i + 1]))
  }

  /** One space may stand between the characters at 'i' and 'i + 2'. */
  predicate AcrossOk(s: Text, i: nat)
    requires i + 2 < |s|
  {
    s[i + 1] == SPACE ==> !Tight(false, s[i], s[i + 2]) && !Tight(true, s[i], s[i + 2])
  }

  lemma {:induction false} SettledTail(s: Text, i: nat)
    requires i <= |s| && Collapse(s) == s && Join(false, s) == s && Join(true, s) == s && Trim(s) == s && TrimAscii(s) == s
    ensures var r := s[i..]; Collapse(r) == r && Join(false, r) == r && Join(true, r) == r && Trim(r) == r && TrimAscii(r) == r
    decreases i
  {
    hide Collapse, Join, Trim, TrimAscii;
    if i == 0 {
      assert s[0..] == s;
    } else {
      CollapseFixFront(s);
      JoinFixFront(false, s);
      JoinFixFront(true, s);
      TrimFixFront(s);
      TrimAsciiTail(s);
      SettledTail(s[1..], i - 1);
      assert s[1..][i - 1..] == s[i..];
    }
  }

  lemma {:induction false} PartedNeighbours(s: Text, i: nat)
    requires Collapse(s) == s && Part(s) == s && i + 1 < |s|
    ensures !(IsCk(s[i]) && (IsLatin(s[i + 1]) || HasPrefix(s[i + 1..]))) && !(IsLatin(s[i]) && IsCk(s[i + 1]))
    decreases |s|
  {
    hide Collapse, Part, TokenLength, HasPrefix, IsCk, IsLatin;
    var e := TokenLength(s);
    if e > 0 {
      if i < e {
        TokenChars(s);
        TokenCharsNext(s, i);
      } else {
        PartFixToken(s);
        CollapseFixDrop(s, e);
        PartedNeighbours(s[e..], i - e);
        DropDrop(s, e, i + 1 - e);
      }
    } else {
      PartFixFront(s);
      CollapseFixFront(s);
      if i == 0 {
        EdgesAreOther();
        NothingBeforeSpace(s);
      } else {
        PartedNeighbours(s[1..], i - 1);
        DropDrop(s, 1, i);
      }
    }
  }

  lemma NothingBeforeSpace(s: Text)
    requires |s| > 1 && (Parted(s[0], s[OneSpaceOn(s)..]) ==> OneSpaceOn(s) == 2)
    ensures !(IsCk(s[0]) && (IsLatin(s[1]) || HasPrefix(s[1..]))) && !(IsLatin(s[0]) && IsCk(s[1]))
  {
    EdgesAreOther();
    if HasPrefix(s[1..]) { PrefixStart(s[1..]); }
    hide IsCk, IsLatin, HasPrefix;
  }

  lemma TokenCharsNext(s: Text, i: nat)
    requires i < TokenLength(s) && i + 1 < |s|
    ensures !IsCk(s[i]) && !(IsLatin(s[i]) && IsCk(s[i + 1]))
  {
    TokenChars(s);
    TokenEdges(s);
    EdgesAreOther();
    TokenCharsAreOther(s[i]);
    if i + 1 < TokenLength(s) { TokenCharsAreOther(s[i + 1]); }
  }

  /** Reading from the front, placeholder by placeholder, comes to position 'i'. */
  ghost predicate ReadsTo(s: Text, i: nat)
    decreases |s|
  {
    if i == 0 then true
    else if s == [] then false
    else
      var e := TokenLength(s);
      if e > 0 then i >= e && ReadsTo(s[e..], i - e) else ReadsTo(s[1..], i - 1)
  }

  /** CJK or kana does not follow a placeholder directly. */
  lemma {:induction false} TokensStandApart(s: Text, i: nat)
    requires Collapse(s) == s && Part(s) == s && i < |s| && ReadsTo(s, i)
    ensures var e := i + TokenLength(s[i..]); i < e < |s| ==> !IsCk(s[e])
    decreases |s|
  {
    hide Collapse, Part, TokenLength, IsCk;
    var e := TokenLength(s);
    if i == 0 {
      assert s[0..] == s;
      if 0 < e < |s| {
        PartFixToken(s);
        assert s[e - 1..][1] == s[e];
        if IsCk(s[e]) { EdgesAreOther(); }
      }
    } else if e > 0 {
      PartFixToken(s);
      CollapseFixDrop(s, e);
      TokensStandApart(s[e..], i - e);
      DropDrop(s, e, i - e);
    } else {
      PartFixFront(s);
      CollapseFixFront(s);
      TokensStandApart(s[1..], i - 1);
      DropDrop(s, 1, i - 1);
    }
  }

  /** The result has no doubled space; none within CJK and kana or between them and digits; one
      between them and letters or placeholders; none around full-width punctuation; no blanks
      before ASCII punctuation; and no space or tab at its ends. */
  lemma NormalizedLooksRight(s: Text)
    ensures var r := Normalized(s);
            && (forall i: nat :: i + 1 < |r| ==> NeighboursOk(r, i))
            && (forall i: nat :: i + 2 < |r| ==> AcrossOk(r, i))
            && (forall i: nat {:trigger ReadsTo(r, i)} :: i < |r| && ReadsTo(r, i) && 0 < TokenLength(r[i..]) < |r| - i ==>
                  !IsCk(r[i + TokenLength(r[i..])]))
            && (r != [] ==> !IsEdge(r[0]) && !IsEdge(r[|r| - 1]))
  {
    hide TokenLength, Normalized, IsCk, ReadsTo, NeighboursOk, AcrossOk, Collapse, Part, Join, Trim, TrimAscii;
    var r := Normalized(s);
    NormalizedIsSettled(s);
    StripTwice(r);
    forall i: nat | i + 1 < |r| ensures NeighboursOk(r, i) { SettledNeighbours(r, i); }
    forall i: nat | i + 2 < |r| ensures AcrossOk(r, i) { SettledAcross(r, i); }
    forall i: nat | i < |r| && ReadsTo(r, i) && 0 < TokenLength(r[i..]) < |r| - i ensures !IsCk(r[i + TokenLength(r[i..])]) {
      TokensStandApart(r, i);
    }
  }

  lemma SettledNeighbours(s: Text, i: nat)
    requires Settled(s) && i + 1 < |s|
    ensures NeighboursOk(s, i)
  {
    hide Collapse, Join, Part, Trim, TrimAscii, Strip, IsCk, IsLatin, HasPrefix, IsAfter, IsBefore, IsBlank, IsAsciiPunct;
    PartedNeighbours(s, i);
    SettledTail(s, i);
    var r := s[i..];
    assert r[0] == s[i] && r[1] == s[i + 1];
    CollapseFixFront(r);
    TrimFixFront(r);
    if r[0] == SPACE { NextOfSpace(r); }
    TrimAsciiTail(r);
    if IsBlank(r[0]) && IsAsciiPunct(r[1]) { BlankThenPunct(r); }
  }

  lemma BlankThenPunct(s: Text)
    requires |s| > 1 && IsBlank(s[0]) && IsAsciiPunct(s[1])
    ensures BlankToPunct(s)
  {
    assert s[1..][0] == s[1];
  }

  lemma SettledAcross(s: Text, i: nat)
    requires Settled(s) && i + 2 < |s|
    ensures AcrossOk(s, i)
  {
    hide Collapse, Join, Part, Trim, TrimAscii, Strip, Tight;
    SettledTail(s, i);
    var r := s[i..];
    assert r[0] == s[i] && r[1] == s[i + 1] && r[2] == s[i + 2];
    JoinFixFront(false, r);
    JoinFixFront(true, r);
  }
}
