/** The spacing passes seen as rules for the gaps between the characters that are no spaces. */
module SpacesGaps {
  import opened Spaces

  /** The characters of a text that are no spaces, and how many spaces come before, between and
      after them. */
  datatype Spacing = Spacing(chars: Text, gaps: seq<nat>) {
    ghost predicate Valid() {
      |gaps| == |chars| + 1 && forall i :: 0 <= i < |chars| ==> chars[i] != SPACE
    }
  }

  function Blanks(n: nat): (s: Text)
    ensures |s| == n
  {
    if n == 0 then [] else [SPACE] + Blanks(n - 1)
  }

  /** The text from gap 'i' on. */
  ghost function FromGap(t: Spacing, i: nat): Text
    requires t.Valid() && i <= |t.chars|
    decreases |t.chars| - i, 1
  {
    Blanks(t.gaps[i]) + FromChar(t, i)
  }

  /** The text from character 'i' on. */
  ghost function FromChar(t: Spacing, i: nat): Text
    requires t.Valid() && i <= |t.chars|
    decreases |t.chars| - i, 0
  {
    if i == |t.chars| then [] else [t.chars[i]] + FromGap(t, i + 1)
  }

  ghost function Flat(t: Spacing): Text
    requires t.Valid()
  {
    FromGap(t, 0)
  }

  /** Every text has a spacing. */
  ghost function Parse(s: Text): (t: Spacing)
    ensures t.Valid()
  {
    if s == [] then Spacing([], [0])
    else
      var t := Parse(s[1..]);
      if s[0] == SPACE then Spacing(t.chars, t.gaps[0 := t.gaps[0] + 1])
      else Spacing([s[0]] + t.chars, [0] + t.gaps)
  }

  lemma {:induction false} ShiftedSpacing(t: Spacing, u: Spacing, c: int, i: nat)
    requires t.Valid() && u.Valid() && i <= |t.chars|
    requires u.chars == [c] + t.chars && |u.gaps| == |t.gaps| + 1 && forall k :: 0 <= k < |t.gaps| ==> u.gaps[k + 1] == t.gaps[k]
    ensures FromGap(u, i + 1) == FromGap(t, i) && FromChar(u, i + 1) == FromChar(t, i)
    decreases |t.chars| - i
  {
    if i < |t.chars| { ShiftedSpacing(t, u, c, i + 1); }
  }

  lemma {:induction false} SameTail(t: Spacing, u: Spacing, i: nat)
    requires t.Valid() && u.Valid() && i <= |t.chars| && t.chars == u.chars
    requires forall k :: i < k < |t.gaps| ==> t.gaps[k] == u.gaps[k]
    ensures FromChar(t, i) == FromChar(u, i)
    decreases |t.chars| - i
  {
    if i < |t.chars| { SameTail(t, u, i + 1); }
  }

  lemma {:induction false} FlatOfParse(s: Text)
    ensures Flat(Parse(s)) == s
    decreases |s|
  {
    if s == [] {
      assert Flat(Parse(s)) == [];
    } else {
      hide Parse, Flat;
      FlatOfParse(s[1..]);
      if s[0] == SPACE { ParseSpace(s); } else { ParseChar(s); }
      assert s == [s[0]] + s[1..];
    }
  }

  lemma ParseSpace(s: Text)
    requires s != [] && s[0] == SPACE
    ensures Flat(Parse(s)) == [SPACE] + Flat(Parse(s[1..]))
  {
    var t, u := Parse(s[1..]), Parse(s);
    hide FromChar;
    SameTail(t, u, 0);
    assert u.gaps[0] == t.gaps[0] + 1;
    assert Blanks(t.gaps[0] + 1) == [SPACE] + Blanks(t.gaps[0]);
    ConsConcat(SPACE, Blanks(t.gaps[0]), FromChar(t, 0));
  }

  lemma ParseChar(s: Text)
    requires s != [] && s[0] != SPACE
    ensures Flat(Parse(s)) == [s[0]] + Flat(Parse(s[1..]))
  {
    var t, u := Parse(s[1..]), Parse(s);
    ShiftedSpacing(t, u, s[0], 0);
    assert u.gaps[0] == 0 && u.chars[0] == s[0];
    assert Blanks(0) + FromChar(u, 0) == FromChar(u, 0);
  }

  // ------------------------------------------------------------ spaces in front of the rest

  lemma FromCharStart(t: Spacing, i: nat)
    requires t.Valid() && i <= |t.chars|
    ensures FromChar(t, i) != [] <==> i < |t.chars|
    ensures i < |t.chars| ==> FromChar(t, i)[0] == t.chars[i] != SPACE
  {
  }

  lemma Unfold(t: Spacing, i: nat)
    requires t.Valid() && i <= |t.chars|
    ensures FromGap(t, i) == Blanks(t.gaps[i]) + FromChar(t, i)
    ensures i < |t.chars| ==> FromChar(t, i) == [t.chars[i]] + FromGap(t, i + 1)
    ensures t.gaps[i] == 0 ==> FromGap(t, i) == FromChar(t, i)
  {
    assert Blanks(0) + FromChar(t, i) == FromChar(t, i);
  }

  /** Skipping the spaces of a gap leads to the next character. */
  lemma {:induction false} SkipBlanks(n: nat, rest: Text)
    requires rest != [] ==> rest[0] != SPACE
    ensures AfterSpaces(Blanks(n) + rest, 0) == n && (Blanks(n) + rest)[n..] == rest
    decreases n
  {
    var s := Blanks(n) + rest;
    if n > 0 {
      assert s == [SPACE] + (Blanks(n - 1) + rest);
      SkipBlanks(n - 1, rest);
      assert s[1..] == Blanks(n - 1) + rest;
      SkipIn(s, 1, 1);
      assert s[n..] == s[1..][n - 1..];
    }
  }

  lemma SkipGap(t: Spacing, i: nat)
    requires t.Valid() && i < |t.chars|
    ensures var s := FromChar(t, i);
            AfterSpaces(s, 1) == 1 + t.gaps[i + 1] && s[1 + t.gaps[i + 1]..] == FromChar(t, i + 1)
            && s[1..] == FromGap(t, i + 1) && |s| == 1 + t.gaps[i + 1] + |FromChar(t, i + 1)|
  {
    var s := FromChar(t, i);
    FromCharStart(t, i + 1);
    SkipBlanks(t.gaps[i + 1], FromChar(t, i + 1));
    assert s[1..] == FromGap(t, i + 1);
    SkipIn(s, 1, 1);
    assert s[1..][t.gaps[i + 1]..] == s[1 + t.gaps[i + 1]..];
  }

  // ------------------------------------------------------------ passes 1 and 5

  function Min1(n: nat): nat { if n > 1 then 1 else n }

  /** 'u' has the gaps of 't', none of them longer than one. */
  ghost predicate Collapsed(t: Spacing, u: Spacing) {
    t.Valid() && u.Valid() && t.chars == u.chars && forall i :: 0 <= i < |t.gaps| ==> u.gaps[i] == Min1(t.gaps[i])
  }

  lemma {:induction false} CollapseBlanks(n: nat, rest: Text)
    requires rest != [] ==> rest[0] != SPACE
    ensures Collapse(Blanks(n) + rest) == Blanks(Min1(n)) + Collapse(rest)
    decreases n
  {
    var s := Blanks(n) + rest;
    if n == 0 {
      assert s == rest && Blanks(0) + Collapse(rest) == Collapse(rest);
    } else {
      assert s[1..] == Blanks(n - 1) + rest;
      CollapseBlanks(n - 1, rest);
      assert Blanks(1) == [SPACE];
      if n == 1 {
        assert s[1..] == rest;
        assert s == [SPACE] + rest;
        CollapseFront(s);
      } else {
        assert s[0] == SPACE && s[1] == Blanks(n - 1)[0] == SPACE;
      }
    }
  }

  lemma CollapseFront(s: Text)
    requires s != [] && (|s| == 1 || s[0] != SPACE || s[1] != SPACE)
    ensures Collapse(s) == [s[0]] + Collapse(s[1..])
  {
  }

  lemma {:induction false} CollapseSpacing(t: Spacing, u: Spacing, i: nat)
    requires Collapsed(t, u) && i <= |t.chars|
    ensures Collapse(FromGap(t, i)) == FromGap(u, i) && Collapse(FromChar(t, i)) == FromChar(u, i)
    decreases |t.chars| - i
  {
    if i < |t.chars| {
      CollapseSpacing(t, u, i + 1);
      CollapseFront(FromChar(t, i));
      assert FromChar(t, i)[1..] == FromGap(t, i + 1);
    }
    FromCharStart(t, i);
    CollapseBlanks(t.gaps[i], FromChar(t, i));
  }

  // ------------------------------------------------------------ passes 2 and 3

  /** A CJK ideograph or kana. */
  predicate IsHan(c: int) { 0x3400 <= c <= 0x4DBF || 0x4E00 <= c <= 0x9FFF || 0x3040 <= c <= 0x30FF }

  /** An ASCII letter. */
  predicate IsLetter(c: int) { 0x41 <= c <= 0x5A || 0x61 <= c <= 0x7A }

  /** An ASCII or full-width digit. */
  predicate IsFigure(c: int) { 0x30 <= c <= 0x39 || 0xFF10 <= c <= 0xFF19 }

  /** Two ideographs or kana, or, in the third pass, one of them and a digit. */
  predicate Touching(digits: bool, l: int, r: int) {
    if digits then (IsHan(l) && IsFigure(r)) || (IsFigure(l) && IsHan(r)) else IsHan(l) && IsHan(r)
  }

  lemma ByCodePoint(l: int, r: int)
    ensures Touching(false, l, r) <==> Tight(false, l, r)
    ensures Touching(true, l, r) <==> Tight(true, l, r)
    ensures (IsHan(l) <==> IsCk(l)) && (IsHan(r) <==> IsCk(r)) && (IsLetter(l) <==> IsLatin(l)) && (IsLetter(r) <==> IsLatin(r))
  {
  }

  /** 'u' has no spaces within touching pairs, and the gaps of 't' elsewhere. */
  ghost predicate Joined(digits: bool, t: Spacing, u: Spacing) {
    && t.Valid() && u.Valid() && t.chars == u.chars
    && forall i {:trigger u.gaps[i]} :: 0 <= i < |t.gaps| ==>
         u.gaps[i] == if 0 < i < |t.chars| && Touching(digits, t.chars[i - 1], t.chars[i]) then 0 else t.gaps[i]
  }

  lemma {:induction false} JoinBlanks(digits: bool, n: nat, rest: Text)
    ensures Join(digits, Blanks(n) + rest) == Blanks(n) + Join(digits, rest)
    decreases n
  {
    hide Join, AfterSpaces;
    var s := Blanks(n) + rest;
    if n == 0 {
      assert s == rest;
    } else {
      assert s[0] == SPACE && s[1..] == Blanks(n - 1) + rest;
      JoinFront(digits, s);
      JoinBlanks(digits, n - 1, rest);
    }
  }

  lemma {:induction false} JoinSpacing(digits: bool, t: Spacing, u: Spacing, i: nat)
    requires Joined(digits, t, u) && i <= |t.chars|
    ensures Join(digits, FromChar(t, i)) == FromChar(u, i)
    decreases |t.chars| - i
  {
    hide Join, AfterSpaces, FromChar, FromGap, Blanks, Tight, Touching;
    FromCharStart(t, i);
    FromCharStart(u, i);
    if i == |t.chars| {
      JoinEmpty(digits);
    } else {
      JoinSpacing(digits, t, u, i + 1);
      Unfold(u, i + 1);
      Unfold(u, i);
      JoinOfChar(digits, t, i);
      if i + 1 < |t.chars| { ByCodePoint(t.chars[i], t.chars[i + 1]); }
      assert u.gaps[i + 1] == if i + 1 < |t.chars| && Touching(digits, t.chars[i], t.chars[i + 1]) then 0 else t.gaps[i + 1];
    }
  }

  lemma JoinOfChar(digits: bool, t: Spacing, i: nat)
    requires t.Valid() && i < |t.chars|
    ensures var rest := FromChar(t, i + 1);
            Join(digits, FromChar(t, i)) ==
            if i + 1 < |t.chars| && Tight(digits, t.chars[i], t.chars[i + 1]) then [t.chars[i]] + Join(digits, rest)
            else [t.chars[i]] + (Blanks(t.gaps[i + 1]) + Join(digits, rest))
  {
    hide Join, AfterSpaces, FromChar, FromGap, Blanks, Tight;
    FromCharStart(t, i);
    FromCharStart(t, i + 1);
    Unfold(t, i + 1);
    SkipGap(t, i);
    JoinFront(digits, FromChar(t, i));
    JoinBlanks(digits, t.gaps[i + 1], FromChar(t, i + 1));
  }

  lemma JoinEmpty(digits: bool)
    ensures Join(digits, []) == []
  {
  }

  lemma JoinFlat(digits: bool, t: Spacing, u: Spacing)
    requires Joined(digits, t, u)
    ensures Join(digits, Flat(t)) == Flat(u)
  {
    hide Join, FromChar, FromGap, Blanks, Tight, Touching;
    JoinSpacing(digits, t, u, 0);
    JoinBlanks(digits, t.gaps[0], FromChar(t, 0));
    Unfold(t, 0);
    Unfold(u, 0);
    assert u.gaps[0] == t.gaps[0];
  }

  // ------------------------------------------------------------ placeholders

  /** Characters 'i' up to 'i + k' follow each other without a space. */
  ghost predicate Solid(t: Spacing, i: nat, k: nat)
    requires t.Valid()
  {
    i + k <= |t.chars| && forall j {:trigger t.gaps[j]} :: i < j < i + k ==> t.gaps[j] == 0
  }

  lemma {:induction false} SolidRun(t: Spacing, i: nat, k: nat)
    requires t.Valid() && k > 0 && Solid(t, i, k)
    ensures FromChar(t, i) == t.chars[i..i + k] + FromGap(t, i + k)
    decreases k
  {
    hide FromChar, FromGap, Blanks;
    Unfold(t, i);
    SliceCons(t.chars, i, k);
    if k > 1 {
      assert t.gaps[i + 1] == 0;
      SolidRun(t, i + 1, k - 1);
      Unfold(t, i + 1);
      ConsConcat(t.chars[i], t.chars[i + 1..i + k], FromGap(t, i + k));
    }
  }

  lemma ConsConcat(c: int, a: Text, b: Text)
    ensures [c] + (a + b) == ([c] + a) + b
  {
  }

  lemma SliceCons(s: Text, i: nat, k: nat)
    requires k > 0 && i + k <= |s|
    ensures s[i..i + k] == [s[i]] + s[i + 1..i + k]
  {
  }

  lemma BlanksFront(n: nat, rest: Text)
    ensures n > 0 ==> (Blanks(n) + rest)[0] == SPACE
  {
  }

  lemma NoSpace(s: Text, k: nat)
    requires k <= |s| && forall j :: 0 <= j < k ==> IsTokenChar(s[j])
    ensures SPACE !in s[..k]
  {
    forall j | 0 <= j < k ensures s[..k][j] != SPACE { assert IsTokenChar(s[j]); }
  }

  /** A run without spaces in the text is one of the characters. */
  lemma {:induction false} RunIsSolid(t: Spacing, i: nat, k: nat)
    requires t.Valid() && i < |t.chars| && 0 < k <= |FromChar(t, i)| && SPACE !in FromChar(t, i)[..k]
    ensures Solid(t, i, k)
    decreases k
  {
    hide FromChar, FromGap;
    if k > 1 {
      var s := FromChar(t, i);
      var j := i + k - 1;
      InLongerPrefix(s, k);
      RunIsSolid(t, i, k - 1);
      SolidRun(t, i, k - 1);
      assert s[k - 1] == FromGap(t, j)[0];
      GapOfCharacter(t, j);
    }
  }

  lemma InLongerPrefix(s: Text, k: nat)
    requires 0 < k <= |s| && SPACE !in s[..k]
    ensures SPACE !in s[..k - 1] && s[k - 1] != SPACE
  {
    assert s[k - 1] in s[..k];
    assert forall x :: x in s[..k - 1] ==> x in s[..k];
  }

  lemma GapOfCharacter(t: Spacing, j: nat)
    requires t.Valid() && j <= |t.chars| && FromGap(t, j) != [] && FromGap(t, j)[0] != SPACE
    ensures j < |t.chars| && t.gaps[j] == 0
  {
    BlanksFront(t.gaps[j], FromChar(t, j));
    Unfold(t, j);
    FromCharStart(t, j);
  }

  predicate IsTokenChar(c: int) { c == UNDERSCORE || IsAsciiDigit(c) || c in {0x50, 0x52, 0x4F, 0x54} }

  lemma PrefixChars(s: Text)
    requires HasPrefix(s)
    ensures |s| >= 7 && forall k :: 0 <= k < 7 ==> IsTokenChar(s[k])
  {
    forall k | 0 <= k < 7 ensures IsTokenChar(s[k]) { assert s[k] == s[..7][k] == PROTECT_PREFIX[k]; }
  }

  lemma {:induction false} DigitsChars(s: Text, i: nat)
    requires i <= |s|
    ensures forall k :: i <= k < AfterDigits(s, i) ==> IsAsciiDigit(s[k])
    ensures AfterDigits(s, i) < |s| ==> !IsAsciiDigit(s[AfterDigits(s, i)])
    decreases |s| - i
  {
    if i < |s| && IsAsciiDigit(s[i]) { DigitsChars(s, i + 1); }
  }

  lemma TokenChars(s: Text)
    ensures forall k :: 0 <= k < TokenLength(s) ==> IsTokenChar(s[k])
  {
    if TokenLength(s) > 0 {
      var e := AfterDigits(s, 7);
      PrefixChars(s);
      DigitsChars(s, 7);
      forall k | 0 <= k < e + 3 ensures IsTokenChar(s[k]) {
        if k >= e { assert s[k] == s[e..e + 3][k - e] == TAG_END[k - e]; }
      }
    }
  }

  lemma {:induction false} DigitsLocal(s: Text, s': Text, i: nat, e: nat)
    requires i <= e < |s| && e < |s'| && s[..e + 1] == s'[..e + 1] && AfterDigits(s, i) == e
    ensures AfterDigits(s', i) == e
    decreases e - i
  {
    assert s[i] == s[..e + 1][i] == s'[i];
    if i < e { DigitsLocal(s, s', i + 1, e); }
  }

  /** Whether there is a placeholder depends on its own characters only. */
  lemma TokenLocal(s: Text, s': Text)
    requires var e := TokenLength(s); 0 < e <= |s'| && s[..e] == s'[..e]
    ensures TokenLength(s') == TokenLength(s)
  {
    var e := TokenLength(s);
    assert s[..7] == s[..e][..7] && s'[..7] == s'[..e][..7];
    assert s[..e - 2] == s[..e][..e - 2] && s'[..e - 2] == s'[..e][..e - 2];
    DigitsLocal(s, s', 7, e - 3);
    assert s[e - 3..e] == s[..e][e - 3..] && s'[e - 3..e] == s'[..e][e - 3..];
  }

  /** The spacings agree about which characters of placeholders follow each other. */
  ghost predicate SameInner(t: Spacing, u: Spacing) {
    && t.Valid() && u.Valid() && t.chars == u.chars
    && forall i {:trigger u.gaps[i]} {:trigger t.gaps[i]} :: 0 < i < |t.chars| && IsTokenChar(t.chars[i - 1]) && IsTokenChar(t.chars[i]) ==>
         (t.gaps[i] == 0 <==> u.gaps[i] == 0)
  }

  lemma SolidSame(t: Spacing, u: Spacing, i: nat, k: nat)
    requires SameInner(t, u) && Solid(t, i, k) && forall j :: i <= j < i + k ==> IsTokenChar(t.chars[j])
    ensures Solid(u, i, k)
  {
    forall j | i < j < i + k ensures u.gaps[j] == 0 { assert t.gaps[j] == 0; }
  }

  /** A run of placeholder characters reads the same in both spacings. */
  lemma RunSame(t: Spacing, u: Spacing, i: nat, k: nat)
    requires SameInner(t, u) && i < |t.chars| && 0 < k <= |FromChar(t, i)|
    requires forall j :: 0 <= j < k ==> IsTokenChar(FromChar(t, i)[j])
    ensures k <= |FromChar(u, i)| && FromChar(u, i)[..k] == FromChar(t, i)[..k]
  {
    var s := FromChar(t, i);
    NoSpace(s, k);
    RunIsSolid(t, i, k);
    SolidRun(t, i, k);
    assert s[..k] == t.chars[i..i + k];
    forall j | i <= j < i + k ensures IsTokenChar(t.chars[j]) { assert s[j - i] == t.chars[j]; }
    SolidSame(t, u, i, k);
    SolidRun(u, i, k);
  }

  lemma SameInnerSym(t: Spacing, u: Spacing)
    requires SameInner(t, u)
    ensures SameInner(u, t)
  {
  }

  lemma PrefixSame(t: Spacing, u: Spacing, i: nat)
    requires SameInner(t, u) && i < |t.chars| && HasPrefix(FromChar(t, i))
    ensures HasPrefix(FromChar(u, i))
  {
    PrefixChars(FromChar(t, i));
    RunSame(t, u, i, 7);
  }

  lemma TokenSameOneWay(t: Spacing, u: Spacing, i: nat)
    requires SameInner(t, u) && i < |t.chars| && TokenLength(FromChar(t, i)) > 0
    ensures TokenLength(FromChar(u, i)) == TokenLength(FromChar(t, i))
  {
    TokenChars(FromChar(t, i));
    RunSame(t, u, i, TokenLength(FromChar(t, i)));
    TokenLocal(FromChar(t, i), FromChar(u, i));
  }

  lemma TokenSame(t: Spacing, u: Spacing, i: nat)
    requires SameInner(t, u) && i < |t.chars|
    ensures TokenLength(FromChar(u, i)) == TokenLength(FromChar(t, i))
    ensures HasPrefix(FromChar(u, i)) <==> HasPrefix(FromChar(t, i))
  {
    SameInnerSym(t, u);
    hide TokenLength, HasPrefix, FromChar, SameInner;
    if TokenLength(FromChar(t, i)) > 0 { TokenSameOneWay(t, u, i); }
    if TokenLength(FromChar(u, i)) > 0 { TokenSameOneWay(u, t, i); }
    if HasPrefix(FromChar(t, i)) { PrefixSame(t, u, i); }
    if HasPrefix(FromChar(u, i)) { PrefixSame(u, t, i); }
  }

  // ------------------------------------------------------------ pass 4

  /** A placeholder is read as a whole: its characters are not compared with each other. */
  lemma TokenIsSolid(t: Spacing, i: nat)
    requires t.Valid() && i < |t.chars| && TokenLength(FromChar(t, i)) > 0
    ensures var e := TokenLength(FromChar(t, i));
            && Solid(t, i, e) && FromChar(t, i) == t.chars[i..i + e] + FromGap(t, i + e)
            && forall j :: i <= j < i + e ==> IsTokenChar(t.chars[j])
  {
    var s := FromChar(t, i);
    var e := TokenLength(s);
    TokenChars(s);
    NoSpace(s, e);
    RunIsSolid(t, i, e);
    SolidRun(t, i, e);
    forall j | i <= j < i + e ensures IsTokenChar(t.chars[j]) { assert s[j - i] == t.chars[j]; }
  }

  /** Where placeholders end when the text is read from character 'i'. */
  ghost function Ends(t: Spacing, i: nat): (r: set<nat>)
    requires t.Valid() && i <= |t.chars|
    ensures forall j :: j in r ==> j > i + 1
    decreases |t.chars| - i
  {
    if i == |t.chars| then {}
    else
      var e := TokenLength(FromChar(t, i));
      if e > 0 then TokenIsSolid(t, i); {i + e} + Ends(t, i + e) else Ends(t, i + 1)
  }

  lemma {:induction false} EndsSame(t: Spacing, u: Spacing, i: nat)
    requires SameInner(t, u) && i <= |t.chars|
    ensures Ends(t, i) == Ends(u, i)
    decreases |t.chars| - i
  {
    hide FromChar, TokenLength;
    if i < |t.chars| {
      TokenSame(t, u, i);
      var e := TokenLength(FromChar(t, i));
      if e > 0 {
        TokenIsSolid(t, i);
        EndsSame(t, u, i + e);
      } else {
        EndsSame(t, u, i + 1);
      }
    }
  }

  /** CJK or kana meets a letter or a placeholder across the gap 'i'. */
  ghost predicate PartedAt(t: Spacing, ends: set<nat>, i: nat)
    requires t.Valid()
  {
    && 0 < i < |t.chars|
    && ((i in ends && IsCk(t.chars[i])) || (t.gaps[i] <= 1 && Parted(t.chars[i - 1], FromChar(t, i))))
  }

  ghost predicate PartedTo(t: Spacing, u: Spacing) {
    && t.Valid() && u.Valid() && t.chars == u.chars
    && forall i {:trigger u.gaps[i]} :: 0 <= i < |t.gaps| ==>
         u.gaps[i] == if PartedAt(t, Ends(t, 0), i) then 1 else t.gaps[i]
  }

  lemma {:induction false} PartBlanks(n: nat, rest: Text)
    ensures Part(Blanks(n) + rest) == Blanks(n) + Part(rest)
    decreases n
  {
    hide Part, AfterSpaces;
    var s := Blanks(n) + rest;
    if n == 0 {
      assert s == rest;
      assert Blanks(0) + Part(rest) == Part(rest);
    } else {
      assert s[0] == SPACE && s[1..] == Blanks(n - 1) + rest;
      SpaceIsNoToken(s);
      PartCharFront(s);
      PartBlanks(n - 1, rest);
      assert [SPACE] + (Blanks(n - 1) + Part(rest)) == Blanks(n) + Part(rest);
    }
  }

  lemma SpaceIsNoToken(s: Text)
    requires s != [] && s[0] == SPACE
    ensures TokenLength(s) == 0 && !Parted(SPACE, s[OneSpaceOn(s)..])
  {
    if HasPrefix(s) { PrefixStart(s); }
  }

  /** Reading from 'i' on finds the placeholders that reading from the front finds. */
  ghost predicate Boundary(t: Spacing, ends: set<nat>, i: nat)
    requires t.Valid() && i <= |t.chars|
  {
    forall j: nat {:trigger j in ends} :: j > i ==> (j in ends <==> j in Ends(t, i))
  }

  lemma BoundaryChar(t: Spacing, ends: set<nat>, i: nat)
    requires t.Valid() && i < |t.chars| && Boundary(t, ends, i) && TokenLength(FromChar(t, i)) == 0
    ensures Boundary(t, ends, i + 1) && i + 1 !in ends
  {
    hide FromChar, TokenLength;
    assert Ends(t, i) == Ends(t, i + 1);
  }

  lemma BoundaryToken(t: Spacing, ends: set<nat>, i: nat)
    requires t.Valid() && i < |t.chars| && Boundary(t, ends, i) && TokenLength(FromChar(t, i)) > 0
    ensures var e := TokenLength(FromChar(t, i));
            i + e <= |t.chars| && Boundary(t, ends, i + e) && i + e in ends && forall j :: i < j < i + e ==> j !in ends
  {
    hide FromChar, TokenLength, Solid, IsTokenChar;
    TokenIsSolid(t, i);
    var e := TokenLength(FromChar(t, i));
    EndsOfToken(t, i);
    hide Ends;
  }

  lemma EndsOfToken(t: Spacing, i: nat)
    requires t.Valid() && i < |t.chars| && TokenLength(FromChar(t, i)) > 0
    ensures var e := TokenLength(FromChar(t, i)); e > 1 && i + e <= |t.chars| && Ends(t, i) == {i + e} + Ends(t, i + e)
  {
    hide FromChar, TokenLength, Solid, IsTokenChar;
    TokenIsSolid(t, i);
  }

  lemma TokenCharsAreOther(c: int)
    requires IsTokenChar(c)
    ensures !IsCk(c) && !IsAfter(c) && !IsBefore(c) && c != SPACE
  {
  }

  /** Nothing is inserted within a placeholder. */
  lemma NotPartedInside(t: Spacing, ends: set<nat>, i: nat)
    requires t.Valid() && 0 < i < |t.chars| && IsTokenChar(t.chars[i - 1]) && IsTokenChar(t.chars[i])
    ensures !PartedAt(t, ends, i)
  {
    TokenCharsAreOther(t.chars[i - 1]);
    TokenCharsAreOther(t.chars[i]);
    FromCharStart(t, i);
  }

  lemma {:induction false} PartSpacing(t: Spacing, u: Spacing, ends: set<nat>, i: nat)
    requires PartedTo(t, u) && ends == Ends(t, 0) && i <= |t.chars| && Boundary(t, ends, i)
    ensures Part(FromChar(t, i)) == FromChar(u, i)
    decreases |t.chars| - i
  {
    hide Part, AfterSpaces, TokenLength, FromChar, FromGap, Blanks, Ends, Boundary, PartedAt, Parted, Solid, IsTokenChar;
    FromCharStart(t, i);
    FromCharStart(u, i);
    if i == |t.chars| {
      PartEmpty();
    } else if TokenLength(FromChar(t, i)) > 0 {
      BoundaryToken(t, ends, i);
      var e := TokenLength(FromChar(t, i));
      PartSpacing(t, u, ends, i + e);
      TokenIsSolid(t, i);
      TokenKeepsSolid(t, u, ends, i, e);
      assert u.gaps[i + e] == if PartedAt(t, ends, i + e) then 1 else t.gaps[i + e];
      PartTokenSpacing(t, u, ends, i, e);
    } else {
      BoundaryChar(t, ends, i);
      PartSpacing(t, u, ends, i + 1);
      assert u.gaps[i + 1] == if PartedAt(t, ends, i + 1) then 1 else t.gaps[i + 1];
      PartCharSpacing(t, u, ends, i);
    }
  }

  lemma PartEmpty()
    ensures Part([]) == []
  {
  }

  lemma PartCharSpacing(t: Spacing, u: Spacing, ends: set<nat>, i: nat)
    requires t.Valid() && u.Valid() && t.chars == u.chars && i < |t.chars| && i + 1 !in ends
    requires u.gaps[i + 1] == if PartedAt(t, ends, i + 1) then 1 else t.gaps[i + 1]
    requires TokenLength(FromChar(t, i)) == 0 && Part(FromChar(t, i + 1)) == FromChar(u, i + 1)
    ensures Part(FromChar(t, i)) == FromChar(u, i)
  {
    hide Part, AfterSpaces, TokenLength, FromChar, FromGap, Blanks, Ends, Parted, PartedAt;
    PartedAtChar(t, ends, i + 1);
    PartOfChar(t, i);
    if PartedAt(t, ends, i + 1) {
      BlanksOne();
      SpaceBetween(t.chars[i], FromChar(u, i + 1));
    }
    GapBetween(u, i);
  }

  lemma SpaceBetween(c: int, rest: Text)
    ensures [c, SPACE] + rest == [c] + ([SPACE] + rest)
  {
  }

  lemma GapBetween(u: Spacing, i: nat)
    requires u.Valid() && i < |u.chars|
    ensures FromChar(u, i) == [u.chars[i]] + (Blanks(u.gaps[i + 1]) + FromChar(u, i + 1))
  {
    hide FromChar, FromGap, Blanks;
    Unfold(u, i);
    Unfold(u, i + 1);
  }

  /** What becomes of a character and the gap behind it. */
  lemma PartOfChar(t: Spacing, i: nat)
    requires t.Valid() && i < |t.chars| && TokenLength(FromChar(t, i)) == 0
    ensures var rest := FromChar(t, i + 1);
            Part(FromChar(t, i)) ==
            if i + 1 < |t.chars| && t.gaps[i + 1] <= 1 && Parted(t.chars[i], rest) then [t.chars[i], SPACE] + Part(rest)
            else [t.chars[i]] + (Blanks(t.gaps[i + 1]) + Part(rest))
  {
    hide Part, AfterSpaces, TokenLength, FromChar, FromGap, Blanks, Parted;
    FromCharStart(t, i);
    Unfold(t, i + 1);
    SkipGap(t, i);
    PartCharFront(FromChar(t, i));
    PartBlanks(t.gaps[i + 1], FromChar(t, i + 1));
    OneSpaceOnGap(t, i);
  }

  lemma PartedAtChar(t: Spacing, ends: set<nat>, j: nat)
    requires t.Valid() && j !in ends && 0 < j <= |t.chars|
    ensures PartedAt(t, ends, j) <==> j < |t.chars| && t.gaps[j] <= 1 && Parted(t.chars[j - 1], FromChar(t, j))
  {
  }

  lemma BlanksOne()
    ensures Blanks(1) == [SPACE]
  {
    assert Blanks(0) == [];
  }

  /** Looking past at most one space sees the next character iff the gap is no longer. */
  lemma OneSpaceOnGap(t: Spacing, i: nat)
    requires t.Valid() && i < |t.chars|
    ensures var s := FromChar(t, i);
            Parted(t.chars[i], s[OneSpaceOn(s)..]) <==>
            (i + 1 < |t.chars| && t.gaps[i + 1] <= 1 && Parted(t.chars[i], FromChar(t, i + 1)))
  {
    var s := FromChar(t, i);
    var g := t.gaps[i + 1];
    hide AfterSpaces, IsCk, IsLatin;
    SkipGap(t, i);
    FromCharStart(t, i + 1);
    Unfold(t, i + 1);
    BlanksFront(g, FromChar(t, i + 1));
    if g == 0 {
      assert s[1..] == FromChar(t, i + 1);
      if |s| > 1 { assert s[1] == s[1..][0] == t.chars[i + 1]; }
    } else {
      assert s[1] == s[1..][0] == SPACE;
      if g >= 2 {
        assert s[2] == s[1..][1] == SPACE by { BlanksSecond(g, FromChar(t, i + 1)); }
        assert s[2..][0] == SPACE;
        NothingParts(t.chars[i], s[2..]);
      } else {
        assert s[2..] == FromChar(t, i + 1);
      }
    }
  }

  lemma BlanksSecond(n: nat, rest: Text)
    requires n >= 2
    ensures (Blanks(n) + rest)[1] == SPACE
  {
    assert Blanks(n)[1] == Blanks(n - 1)[0];
  }

  lemma NothingParts(c: int, right: Text)
    requires right != [] && right[0] == SPACE
    ensures !Parted(c, right)
  {
    if HasPrefix(right) { PrefixStart(right); }
  }

  /** What the pass makes of a placeholder and the gap behind it. */
  lemma PartOfToken(t: Spacing, i: nat, e: nat)
    requires t.Valid() && i < |t.chars| && i + e <= |t.chars| && e > 0 && e == TokenLength(FromChar(t, i)) && Solid(t, i, e)
    ensures Part(FromChar(t, i)) ==
            if i + e < |t.chars| && IsCk(t.chars[i + e]) then t.chars[i..i + e] + [SPACE] + Part(FromChar(t, i + e))
            else t.chars[i..i + e] + Part(FromGap(t, i + e))
  {
    hide Part, AfterSpaces, TokenLength, FromChar, FromGap, Blanks, IsCk, Solid;
    SolidRun(t, i, e);
    PartTokenFront(FromChar(t, i));
    TokenSplit(FromChar(t, i), t.chars[i..i + e], FromGap(t, i + e));
    SkipToken(t, i, e);
  }

  lemma PartTokenSpacing(t: Spacing, u: Spacing, ends: set<nat>, i: nat, e: nat)
    requires t.Valid() && u.Valid() && t.chars == u.chars && i < |t.chars| && i + e <= |t.chars|
    requires e > 0 && e == TokenLength(FromChar(t, i)) && Solid(t, i, e) && Solid(u, i, e)
    requires i + e in ends && Part(FromChar(t, i + e)) == FromChar(u, i + e)
    requires u.gaps[i + e] == if PartedAt(t, ends, i + e) then 1 else t.gaps[i + e]
    ensures Part(FromChar(t, i)) == FromChar(u, i)
  {
    hide Part, TokenLength, FromChar, FromGap, Blanks, Parted, IsCk, Solid, PartedAt;
    PartOfToken(t, i, e);
    SolidRun(u, i, e);
    LastIsUnderscore(t, i);
    PartedAtEnd(t, ends, i + e);
    Unfold(u, i + e);
    if i + e < |t.chars| && IsCk(t.chars[i + e]) {
      BlanksOne();
      ConcatThree(t.chars[i..i + e], [SPACE], FromChar(u, i + e));
    } else {
      Unfold(t, i + e);
      PartBlanks(t.gaps[i + e], FromChar(t, i + e));
    }
  }

  lemma TokenSplit(s: Text, a: Text, b: Text)
    requires s == a + b
    ensures s[..|a|] == a && s[|a|..] == b
  {
  }

  lemma ConcatThree(a: Text, b: Text, c: Text)
    ensures a + b + c == a + (b + c)
  {
  }

  lemma PartedAtEnd(t: Spacing, ends: set<nat>, j: nat)
    requires t.Valid() && j in ends && 0 < j <= |t.chars| && (j < |t.chars| ==> !Parted(t.chars[j - 1], FromChar(t, j)))
    ensures PartedAt(t, ends, j) <==> j < |t.chars| && IsCk(t.chars[j])
  {
  }

  lemma LastIsUnderscore(t: Spacing, i: nat)
    requires t.Valid() && i < |t.chars| && TokenLength(FromChar(t, i)) > 0
    ensures var j := i + TokenLength(FromChar(t, i)); j <= |t.chars| && (j < |t.chars| ==> !Parted(t.chars[j - 1], FromChar(t, j)))
  {
    TokenIsSolid(t, i);
    var e := TokenLength(FromChar(t, i));
    TokenEdges(FromChar(t, i));
    assert FromChar(t, i)[e - 1] == t.chars[i + e - 1];
    EdgesAreOther();
  }

  lemma TokenKeepsSolid(t: Spacing, u: Spacing, ends: set<nat>, i: nat, e: nat)
    requires PartedTo(t, u) && ends == Ends(t, 0) && Solid(t, i, e) && forall j :: i <= j < i + e ==> IsTokenChar(t.chars[j])
    ensures Solid(u, i, e)
  {
    hide Ends;
    forall j | i < j < i + e ensures u.gaps[j] == 0 {
      NotPartedInside(t, ends, j);
      assert t.gaps[j] == 0;
    }
  }

  lemma SkipToken(t: Spacing, i: nat, e: nat)
    requires t.Valid() && i + e <= |t.chars| && e > 0 && Solid(t, i, e)
    ensures e <= |FromChar(t, i)|
    ensures var s := FromChar(t, i);
            var a := AfterSpaces(s, e);
            a == e + t.gaps[i + e] <= |s| && s[a..] == FromChar(t, i + e)
            && (a < |s| <==> i + e < |t.chars|) && (a < |s| ==> s[a] == t.chars[i + e])
  {
    hide FromChar, FromGap, Blanks;
    var s := FromChar(t, i);
    SolidRun(t, i, e);
    assert s[e..] == FromGap(t, i + e);
    Unfold(t, i + e);
    FromCharStart(t, i + e);
    SkipBlanks(t.gaps[i + e], FromChar(t, i + e));
    SkipIn(s, e, e);
    var a := AfterSpaces(s, e);
    assert s[a..] == s[e..][a - e..];
  }

  lemma PartFlat(t: Spacing, u: Spacing)
    requires PartedTo(t, u)
    ensures Part(Flat(t)) == Flat(u)
  {
    hide Part, FromChar, FromGap, Blanks, PartedAt, Ends;
    PartSpacing(t, u, Ends(t, 0), 0);
    PartBlanks(t.gaps[0], FromChar(t, 0));
    Unfold(t, 0);
    Unfold(u, 0);
    assert !PartedAt(t, Ends(t, 0), 0) by { NotPartedAtStart(t); }
    assert u.gaps[0] == t.gaps[0];
  }

  lemma NotPartedAtStart(t: Spacing)
    requires t.Valid()
    ensures !PartedAt(t, Ends(t, 0), 0)
  {
  }

  // ------------------------------------------------------------ pass 6

  /** No space belongs in gap 'i'. */
  predicate TrimmedAt(chars: Text, i: nat)
    requires i <= |chars|
  {
    (i > 0 && (IsAfter(chars[i - 1]) || IsBefore(chars[i - 1]))) || (i < |chars| && IsAfter(chars[i]))
  }

  ghost predicate TrimmedTo(t: Spacing, u: Spacing) {
    && t.Valid() && u.Valid() && t.chars == u.chars
    && forall i {:trigger u.gaps[i]} :: 0 <= i < |t.gaps| ==> u.gaps[i] == if TrimmedAt(t.chars, i) then 0 else t.gaps[i]
  }

  lemma {:induction false} TrimBlanks(n: nat, rest: Text)
    requires rest != [] ==> rest[0] != SPACE
    ensures Trim(Blanks(n) + rest) == Blanks(if rest != [] && IsAfter(rest[0]) then 0 else n) + Trim(rest)
    decreases n
  {
    hide Trim, IsAfter, IsBefore;
    var s := Blanks(n) + rest;
    if n == 0 {
      assert s == rest;
      assert Blanks(0) + Trim(rest) == Trim(rest);
    } else {
      assert s[0] == SPACE && s[1..] == Blanks(n - 1) + rest;
      SpaceIsNotTrimmed();
      SkipBlanks(n, rest);
      assert n < |s| ==> s[n] == s[n..][0];
      TrimFront(s);
      TrimBlanks(n - 1, rest);
      assert [SPACE] + (Blanks(n - 1) + Trim(rest)) == Blanks(n) + Trim(rest);
    }
  }

  lemma TrimFront(s: Text)
    requires s != []
    ensures IsAfter(s[0]) || IsBefore(s[0]) ==> Trim(s) == [s[0]] + Trim(s[AfterSpaces(s, 1)..])
    ensures !IsAfter(s[0]) && !IsBefore(s[0]) ==>
              Trim(s) == if s[0] == SPACE && NextIsAfter(s) then Trim(s[1..]) else [s[0]] + Trim(s[1..])
  {
    hide IsAfter, IsBefore, NextIsAfter;
  }

  lemma {:induction false} TrimSpacing(t: Spacing, u: Spacing, i: nat)
    requires TrimmedTo(t, u) && i <= |t.chars|
    ensures Trim(FromChar(t, i)) == FromChar(u, i)
    decreases |t.chars| - i
  {
    hide Trim, AfterSpaces, FromChar, FromGap, Blanks, IsAfter, IsBefore, NextIsAfter;
    FromCharStart(t, i);
    FromCharStart(u, i);
    if i == |t.chars| {
      TrimEmpty();
    } else {
      TrimSpacing(t, u, i + 1);
      Unfold(t, i + 1);
      Unfold(u, i + 1);
      Unfold(u, i);
      SkipGap(t, i);
      FromCharStart(t, i + 1);
      TrimFront(FromChar(t, i));
      assert u.gaps[i + 1] == if TrimmedAt(t.chars, i + 1) then 0 else t.gaps[i + 1];
      TrimBlanks(t.gaps[i + 1], FromChar(t, i + 1));
    }
  }

  lemma TrimEmpty()
    ensures Trim([]) == []
  {
  }

  lemma TrimFlat(t: Spacing, u: Spacing)
    requires TrimmedTo(t, u)
    ensures Trim(Flat(t)) == Flat(u)
  {
    hide Trim, FromChar, FromGap, Blanks, IsAfter, IsBefore;
    TrimSpacing(t, u, 0);
    FromCharStart(t, 0);
    TrimBlanks(t.gaps[0], FromChar(t, 0));
    Unfold(t, 0);
    Unfold(u, 0);
    assert u.gaps[0] == if TrimmedAt(t.chars, 0) then 0 else t.gaps[0];
  }
}
