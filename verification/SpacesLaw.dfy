/** What the spacing rules do to one gap, told by the code points on its two sides. */
module SpacesLaw {
  import opened Spaces
  import opened SpacesGaps
  import opened SpacesNormal

  // ------------------------------------------------------------ code points

  /** One of , . ; ! ? */
  predicate IsMark(c: int) { c in {0x2C, 0x2E, 0x3B, 0x21, 0x3F} }

  /** Wide punctuation that takes no space on either side. */
  predicate IsWideStop(c: int) {
    c in {0xFF0C, 0x3002, 0xFF01, 0xFF1F, 0xFF1B, 0xFF1A, 0x3001, 0x201C, 0x201D, 0x300F, 0x300D, 0x3011, 0xFF09, 0x300B}
  }

  /** Wide punctuation that takes no space behind it. */
  predicate IsWideOpener(c: int) { c in {0xFF08, 0x3010, 0x300C, 0x300E, 0x300A, 0x201C, 0x2018} }

  predicate AllWhite(s: Text) { forall i :: 0 <= i < |s| ==> IsWhite(s[i]) }

  predicate AllSpaces(s: Text) { forall i :: 0 <= i < |s| ==> s[i] == 0x20 }

  /** The characters other than spaces. */
  function Unspaced(s: Text): Text {
    if s == [] then [] else (if s[0] == 0x20 then [] else [s[0]]) + Unspaced(s[1..])
  }

  /** Two characters that are written without a space between them. */
  predicate Closes(l: int, r: int) {
    || (IsHan(l) && (IsHan(r) || IsFigure(r))) || (IsFigure(l) && IsHan(r))
    || IsWideStop(l) || IsWideOpener(l) || IsWideStop(r)
  }

  /** Two characters that are written with a space between them. */
  predicate Opens(l: int, r: int) { (IsHan(l) && IsLetter(r)) || (IsLetter(l) && IsHan(r)) }

  /** The text starts like a placeholder: ___PROT */
  predicate StartsTag(s: Text) { |s| >= 7 && s[..7] == [0x5F, 0x5F, 0x5F, 0x50, 0x52, 0x4F, 0x54] }

  /** The text ends in a placeholder: ___PROT, digits, ___ */
  ghost predicate EndsTag(s: Text) {
    exists k: nat :: TagFrom(s, k)
  }

  /** From position 'k' on the text is one placeholder. */
  predicate TagFrom(s: Text, k: nat) {
    && k + 10 <= |s| && s[k..k + 7] == [0x5F, 0x5F, 0x5F, 0x50, 0x52, 0x4F, 0x54]
    && s[|s| - 3..] == [0x5F, 0x5F, 0x5F] && forall i :: k + 7 <= i < |s| - 3 ==> 0x30 <= s[i] <= 0x39
  }

  // ------------------------------------------------------------ one gap in the passes

  lemma ClosesExactly(chars: Text, i: nat)
    requires 0 < i < |chars|
    ensures var l, r := chars[i - 1], chars[i];
            Closes(l, r) <==> Touching(false, l, r) || Touching(true, l, r) || TrimmedAt(chars, i)
  {
  }

  lemma OpensExactly(l: int, right: Text)
    requires right != []
    ensures Parted(l, right) <==> Opens(l, right[0]) || (IsHan(l) && StartsTag(right))
  {
    ByCodePoint(l, right[0]);
    hide IsCk, IsLatin, IsHan, IsLetter;
  }

  /** A pair that is parted is not one that is closed. */
  lemma OpensNotCloses(t: Spacing, i: nat)
    requires t.Valid() && 0 < i < |t.chars| && Parted(t.chars[i - 1], FromChar(t, i))
    ensures !Closes(t.chars[i - 1], t.chars[i])
  {
    FromCharStart(t, i);
    var right := FromChar(t, i);
    ByCodePoint(t.chars[i - 1], right[0]);
    PairsExclude(t.chars[i - 1], right);
    ClosesExactly(t.chars, i);
    hide FromChar, Parted, Tight, Touching, Closes, IsAfter, IsBefore;
  }

  lemma TightenedSameInner(t: Spacing, t3: Spacing)
    requires IsTightened(t, t3)
    ensures SameInner(t, t3)
  {
    forall i | 0 < i < |t.chars| && IsTokenChar(t.chars[i - 1]) && IsTokenChar(t.chars[i])
      ensures t.gaps[i] == 0 <==> t3.gaps[i] == 0
    {
      TokenCharsAreOther(t.chars[i - 1]);
      TokenCharsAreOther(t.chars[i]);
      ByCodePoint(t.chars[i - 1], t.chars[i]);
      hide IsTokenChar, IsCk, Touching;
      assert t3.gaps[i] == Min1(t.gaps[i]);
    }
  }

  /** The gap 'i' of a text and of what the passes make of it. */
  lemma OneGap(t: Spacing, t3: Spacing, v: Spacing, i: nat)
    requires IsTightened(t, t3) && IsFinal(t3, v) && 0 < i < |t.chars|
    ensures v.gaps[i] <= 1
    ensures Closes(t.chars[i - 1], t.chars[i]) ==> v.gaps[i] == 0
    ensures t.gaps[i] > 0 && !Closes(t.chars[i - 1], t.chars[i]) ==> v.gaps[i] == 1
    ensures Opens(t.chars[i - 1], t.chars[i]) || (IsHan(t.chars[i - 1]) && StartsTag(FromChar(t, i))) ==> v.gaps[i] == 1
    ensures t.gaps[i] == 0 && v.gaps[i] > 0 ==>
              || Opens(t.chars[i - 1], t.chars[i]) || (IsHan(t.chars[i - 1]) && StartsTag(FromChar(t, i)))
              || (IsHan(t.chars[i]) && i in Ends(t, 0))
  {
    hide FromChar, Ends, Touching, TrimmedAt, Parted, HasPrefix, StartsTag, Closes, Opens, IsHan, IsCk, Tight;
    TightenedSameInner(t, t3);
    TokenSame(t, t3, i);
    EndsSame(t, t3, 0);
    FromCharStart(t, i);
    FromCharStart(t3, i);
    ClosesExactly(t.chars, i);
    OpensExactly(t.chars[i - 1], FromChar(t, i));
    OpensExactly(t.chars[i - 1], FromChar(t3, i));
    PartedByPrefix(t.chars[i - 1], FromChar(t, i), FromChar(t3, i));
    ByCodePoint(t.chars[i - 1], t.chars[i]);
    if Parted(t.chars[i - 1], FromChar(t, i)) { OpensNotCloses(t, i); }
    assert t3.gaps[i] <= 1 && v.gaps[i] == FinalGap(t3, i);
    if PartedAt(t3, Ends(t3, 0), i) { PartedPairs(t3, i); }
  }

  lemma PartedByPrefix(l: int, right: Text, right3: Text)
    requires right != [] && right3 != [] && right[0] == right3[0] && (HasPrefix(right) <==> HasPrefix(right3))
    ensures Parted(l, right) <==> Parted(l, right3)
  {
  }

  // ------------------------------------------------------------ texts and their spacings

  /** The text from gap 'i' up to character 'j'. */
  ghost function Between(t: Spacing, i: nat, j: nat): Text
    requires t.Valid() && i <= j <= |t.chars|
    decreases j - i
  {
    Blanks(t.gaps[i]) + if i == j then [] else [t.chars[i]] + Between(t, i + 1, j)
  }

  lemma {:induction false} Cut(t: Spacing, i: nat, j: nat)
    requires t.Valid() && i <= j <= |t.chars|
    ensures FromGap(t, i) == Between(t, i, j) + FromChar(t, j)
    decreases j - i
  {
    hide FromGap, FromChar, Blanks;
    Unfold(t, i);
    if i < j {
      Cut(t, i + 1, j);
      Associate(Blanks(t.gaps[i]), [t.chars[i]], Between(t, i + 1, j), FromChar(t, j));
    } else {
      assert Blanks(t.gaps[i]) + [] == Blanks(t.gaps[i]);
    }
  }

  lemma Associate(a: Text, b: Text, c: Text, d: Text)
    ensures a + (b + (c + d)) == a + (b + c) + d
  {
  }

  lemma {:induction false} BlanksAreSpaces(n: nat)
    ensures AllSpaces(Blanks(n))
    decreases n
  {
    if n > 0 { BlanksAreSpaces(n - 1); }
  }

  /** The spaces in front of a text belong to what comes before its first other character. */
  lemma BlanksFit(n: nat, rest: Text, a: Text, c: int, r: Text)
    requires Blanks(n) + rest == a + [c] + r && c != SPACE
    ensures n <= |a| && a == Blanks(n) + a[n..] && rest == a[n..] + [c] + r
  {
    BlanksAreSpaces(n);
    var s := Blanks(n) + rest;
    assert s[|a|] == c;
    assert n <= |a|;
    assert a == s[..|a|] && s[..n] == Blanks(n) && rest == s[n..];
  }

  /** Finds the character that splits the text from gap 'p' on. */
  lemma {:induction false} Locate(t: Spacing, p: nat, a: Text, c: int, r: Text) returns (i: nat)
    requires t.Valid() && p <= |t.chars| && FromGap(t, p) == a + [c] + r && c != SPACE
    ensures p <= i < |t.chars| && t.chars[i] == c && Between(t, p, i) == a && FromGap(t, i + 1) == r && FromChar(t, i) == [c] + r
    decreases |t.chars| - p
  {
    hide FromGap, FromChar, Blanks;
    var n := t.gaps[p];
    Unfold(t, p);
    BlanksFit(n, FromChar(t, p), a, c, r);
    FromCharStart(t, p);
    if |a| == n {
      i := p;
      assert FromChar(t, p) == [c] + r;
      assert FromGap(t, p + 1) == FromChar(t, p)[1..] == r;
      assert Blanks(n) + [] == a;
    } else {
      var a2 := a[n..];
      assert FromChar(t, p)[0] == a2[0];
      assert FromGap(t, p + 1) == FromChar(t, p)[1..] == a2[1..] + [c] + r;
      i := Locate(t, p + 1, a2[1..], c, r);
      assert a2 == [a2[0]] + a2[1..];
    }
  }

  lemma {:induction false} UnspacedConcat(s: Text, t: Text)
    ensures Unspaced(s + t) == Unspaced(s) + Unspaced(t)
    decreases |s|
  {
    if s == [] {
      assert s + t == t;
    } else {
      assert (s + t)[1..] == s[1..] + t;
      UnspacedConcat(s[1..], t);
    }
  }

  lemma {:induction false} UnspacedSpaces(s: Text)
    ensures AllSpaces(s) <==> Unspaced(s) == []
    decreases |s|
  {
    if s != [] {
      UnspacedSpaces(s[1..]);
      assert s == [s[0]] + s[1..];
    }
  }

  lemma {:induction false} UnspacedBetween(t: Spacing, i: nat, j: nat)
    requires t.Valid() && i <= j <= |t.chars|
    ensures Unspaced(Between(t, i, j)) == t.chars[i..j]
    decreases j - i
  {
    BlanksAreSpaces(t.gaps[i]);
    UnspacedSpaces(Blanks(t.gaps[i]));
    hide Unspaced, Blanks;
    if i == j {
      assert Blanks(t.gaps[i]) + [] == Blanks(t.gaps[i]);
    } else {
      UnspacedBetween(t, i + 1, j);
      UnspacedConcat(Blanks(t.gaps[i]), [t.chars[i]] + Between(t, i + 1, j));
      UnspacedConcat([t.chars[i]], Between(t, i + 1, j));
      UnspacedOne(t.chars[i]);
      SliceCons(t.chars, i, j - i);
    }
  }

  lemma UnspacedOne(c: int)
    ensures Unspaced([c]) == if c == 0x20 then [] else [c]
  {
    assert [c][1..] == [];
    assert Unspaced([]) == [];
  }

  lemma UnspacedTail(t: Spacing, i: nat)
    requires t.Valid() && i <= |t.chars|
    ensures Unspaced(FromGap(t, i)) == t.chars[i..]
  {
    Cut(t, i, |t.chars|);
    FromCharStart(t, |t.chars|);
    hide FromGap, FromChar;
    UnspacedBetween(t, i, |t.chars|);
    assert Between(t, i, |t.chars|) + [] == Between(t, i, |t.chars|);
  }

  /** What is no space tells what is visible. */
  lemma {:induction false} VisibleUnspaced(s: Text)
    ensures Visible(s) == Visible(Unspaced(s))
    decreases |s|
  {
    if s != [] {
      VisibleUnspaced(s[1..]);
      if s[0] == 0x20 {
        assert Unspaced(s) == Unspaced(s[1..]);
      } else {
        assert Unspaced(s)[1..] == Unspaced(s[1..]);
      }
    }
  }

  lemma {:induction false} NothingVisible(s: Text)
    ensures AllWhite(s) <==> Visible(s) == []
    decreases |s|
  {
    if s != [] {
      NothingVisible(s[1..]);
      assert s == [s[0]] + s[1..];
    }
  }

  lemma VisibleOne(c: int)
    ensures Visible([c]) == if IsWhite(c) then [] else [c]
  {
    assert [c][1..] == [];
  }

  lemma SameVisible(s: Text, r: Text)
    requires Unspaced(s) == Unspaced(r)
    ensures Visible(s) == Visible(r) && (AllWhite(s) <==> AllWhite(r))
  {
    VisibleUnspaced(s);
    VisibleUnspaced(r);
    NothingVisible(s);
    NothingVisible(r);
    hide Visible, Unspaced, AllWhite;
  }

  // ------------------------------------------------------------ placeholders in the text

  lemma TokenIsTag(s: Text)
    requires TokenLength(s) > 0
    ensures TagFrom(s[..TokenLength(s)], 0)
  {
    var e := AfterDigits(s, 7);
    var r := s[..e + 3];
    DigitsChars(s, 7);
    assert r[0..7] == s[..7] && r[e..] == s[e..e + 3];
  }

  lemma TagSuffix(p: Text, q: Text, n: nat)
    requires n <= |q| && EndsTag(q[..|q| - n])
    ensures EndsTag((p + q)[..|p + q| - n])
  {
    var m := q[..|q| - n];
    var r := (p + q)[..|p + q| - n];
    assert r == p + m;
    var k: nat :| TagFrom(m, k);
    assert r[|p| + k..|p| + k + 7] == m[k..k + 7] && r[|r| - 3..] == m[|m| - 3..];
    assert TagFrom(r, |p| + k);
  }

  /** What the text holds before the end of a placeholder ends in one. */
  lemma {:induction false} TagBefore(t: Spacing, i: nat, j: nat)
    requires t.Valid() && i <= |t.chars| && j in Ends(t, i)
    ensures j <= |t.chars|
    ensures var q := FromChar(t, i);
            var n := |FromGap(t, j)|;
            n <= |q| && EndsTag(q[..|q| - n])
    decreases |t.chars| - i
  {
    hide FromGap, FromChar, TokenLength, Solid, IsTokenChar, EndsTag, Blanks;
    var q := FromChar(t, i);
    var e := TokenLength(q);
    EndsAreUnderscores(t, i, j);
    if e > 0 && j == i + e {
      TokenIsSolid(t, i);
      TokenIsTag(q);
      assert q[..|q| - |FromGap(t, j)|] == q[..e];
      TagWhole(q[..e]);
    } else if e > 0 {
      TokenIsSolid(t, i);
      TagBefore(t, i + e, j);
      Unfold(t, i + e);
      ConcatThree(t.chars[i..i + e], Blanks(t.gaps[i + e]), FromChar(t, i + e));
      TagSuffix(t.chars[i..i + e] + Blanks(t.gaps[i + e]), FromChar(t, i + e), |FromGap(t, j)|);
    } else {
      TagBefore(t, i + 1, j);
      GapBetween(t, i);
      ConcatThree([t.chars[i]], Blanks(t.gaps[i + 1]), FromChar(t, i + 1));
      TagSuffix([t.chars[i]] + Blanks(t.gaps[i + 1]), FromChar(t, i + 1), |FromGap(t, j)|);
    }
  }

  lemma TagWhole(s: Text)
    requires TagFrom(s, 0)
    ensures EndsTag(s)
  {
  }

  /** A placeholder ends right before character 'j', and there is no space between. */
  lemma TagInText(t: Spacing, j: nat, p: Text, r: Text)
    requires t.Valid() && j in Ends(t, 0) && j < |t.chars| && t.gaps[j] == 0 && Flat(t) == p + r && FromChar(t, j) == r
    ensures EndsTag(p)
  {
    hide FromGap, FromChar, Ends, EndsTag, Blanks;
    TagBefore(t, 0, j);
    Unfold(t, j);
    Unfold(t, 0);
    TagSuffix(Blanks(t.gaps[0]), FromChar(t, 0), |r|);
    assert (p + r)[..|p|] == p;
  }

  // ------------------------------------------------------------ the passes before the ASCII rule

  /** The gap 'g' between 'x' and 'y' has become 'h'. */
  ghost predicate GapRule(a: Text, x: int, g: Text, y: int, b: Text, h: Text) {
    && (h == [] || h == [0x20])
    && (Closes(x, y) ==> h == [])
    && (g != [] && !Closes(x, y) ==> h == [0x20])
    && (Opens(x, y) || (IsHan(x) && StartsTag([y] + b)) ==> h == [0x20])
    && (g == [] && h != [] ==> Opens(x, y) || (IsHan(x) && StartsTag([y] + b)) || (EndsTag(a + [x]) && IsHan(y)))
  }

  lemma InnerGap(s: Text, a: Text, x: int, g: Text, y: int, b: Text) returns (a1: Text, g1: Text, b1: Text)
    requires s == a + [x] + g + [y] + b && x != SPACE && y != SPACE
    ensures Inner(s) == a1 + [x] + g1 + [y] + b1
    ensures Unspaced(a1) == Unspaced(a) && Unspaced(g1) == Unspaced(g) && Unspaced(b1) == Unspaced(b)
    ensures AllSpaces(g) ==> GapRule(a, x, g, y, b, g1)
  {
    hide Parse, FromGap, FromChar, Between, IsTightened, IsFinal, Unspaced, Inner, GapRule, AllSpaces;
    var t := Parse(s);
    FlatOfParse(s);
    var t3, v := InnerIsFinal(s);
    SameChars(t, t3, v);
    assert s == a + [x] + (g + [y] + b);
    var i := Locate(t, 0, a, x, g + [y] + b);
    var j := Locate(t, i + 1, g, y, b);
    a1, g1, b1 := Between(v, 0, i), Between(v, i + 1, j), FromGap(v, j + 1);
    Cut(v, 0, i);
    Unfold(v, i);
    Cut(v, i + 1, j);
    Unfold(v, j);
    Rejoin(a1, x, g1, y, b1);
    UnspacedBetween(t, 0, i);
    UnspacedBetween(v, 0, i);
    UnspacedBetween(t, i + 1, j);
    UnspacedBetween(v, i + 1, j);
    UnspacedTail(t, j + 1);
    UnspacedTail(v, j + 1);
    UnspacedSpaces(g);
    if AllSpaces(g) {
      assert |t.chars[i + 1..j]| == 0;
      GapBecomes(t, t3, v, j, a, x, g, y, b);
    }
  }

  lemma SameChars(t: Spacing, t3: Spacing, v: Spacing)
    requires IsTightened(t, t3) && IsFinal(t3, v)
    ensures t.Valid() && v.Valid() && v.chars == t.chars
  {
  }

  lemma Rejoin(a: Text, x: int, g: Text, y: int, b: Text)
    ensures a + ([x] + (g + ([y] + b))) == a + [x] + g + [y] + b
  {
  }

  lemma GapBecomes(t: Spacing, t3: Spacing, v: Spacing, j: nat, a: Text, x: int, g: Text, y: int, b: Text)
    requires IsTightened(t, t3) && IsFinal(t3, v) && 0 < j < |t.chars|
    requires Flat(t) == a + [x] + g + [y] + b && t.chars[j - 1] == x && t.chars[j] == y && FromChar(t, j) == [y] + b
    requires Between(t, j, j) == g
    ensures GapRule(a, x, g, y, b, Between(v, j, j))
  {
    hide FromGap, FromChar, Ends, Closes, Opens, StartsTag, EndsTag, IsHan, IsTightened, IsFinal, Flat;
    SameChars(t, t3, v);
    OneGap(t, t3, v, j);
    BlanksOne();
    if t.gaps[j] == 0 && j in Ends(t, 0) {
      assert g == [];
      assert a + [x] + g + [y] + b == (a + [x]) + ([y] + b);
      TagInText(t, j, a + [x], [y] + b);
    }
  }

  // ------------------------------------------------------------ the passes after it

  lemma {:induction false} BlankToPunctSplit(p: Text, q: Text)
    requires p != [] && !IsBlank(p[|p| - 1])
    ensures BlankToPunct(p + q) <==> BlankToPunct(p)
    decreases |p|
  {
    assert (p + q)[1..] == p[1..] + q;
    if IsBlank(p[0]) { BlankToPunctSplit(p[1..], q); }
  }

  lemma {:induction false} TrimAsciiSplit(p: Text, q: Text)
    requires p != [] && !IsBlank(p[|p| - 1])
    ensures TrimAscii(p + q) == TrimAscii(p) + TrimAscii(q)
    ensures TrimAscii(p) != [] && TrimAscii(p)[|TrimAscii(p)| - 1] == p[|p| - 1]
    decreases |p|
  {
    assert (p + q)[1..] == p[1..] + q;
    BlankToPunctSplit(p, q);
    if |p| > 1 {
      TrimAsciiSplit(p[1..], q);
    } else {
      assert p[1..] == [] && p[1..] + q == q;
    }
  }

  /** White space before one of the marks goes, before any other character it stays. */
  lemma {:induction false} TrimAsciiGap(g: Text, y: int, b: Text)
    requires AllWhite(g) && !IsWhite(y)
    ensures BlankToPunct(g + [y] + b) <==> IsMark(y)
    ensures TrimAscii(g + [y] + b) == (if IsMark(y) then [] else g) + [y] + TrimAscii(b)
    decreases |g|
  {
    hide IsBlank, IsWhite, IsMark, IsAsciiPunct;
    var s := g + [y] + b;
    MarksAndBlanks(s[0]);
    if g == [] {
      assert s[1..] == b;
    } else {
      assert IsWhite(g[0]);
      assert s[1..] == g[1..] + [y] + b;
      TrimAsciiGap(g[1..], y, b);
    }
  }

  lemma MarksAndBlanks(c: int)
    ensures (IsMark(c) <==> IsAsciiPunct(c)) && (IsWhite(c) <==> IsBlank(c)) && !(IsMark(c) && IsWhite(c))
  {
  }

  lemma {:induction false} TrimAsciiWhite(g: Text)
    requires AllWhite(g)
    ensures !BlankToPunct(g) && TrimAscii(g) == g
    decreases |g|
  {
    if g != [] {
      assert IsWhite(g[0]);
      TrimAsciiWhite(g[1..]);
    }
  }

  lemma {:induction false} StripFrontSplit(p: Text, q: Text)
    requires p != [] && !IsEdge(p[|p| - 1])
    ensures StripFront(p + q) == StripFront(p) + q
    ensures StripFront(p) != [] && StripFront(p)[|StripFront(p)| - 1] == p[|p| - 1]
    decreases |p|
  {
    if IsEdge(p[0]) {
      assert (p + q)[1..] == p[1..] + q;
      StripFrontSplit(p[1..], q);
    }
  }

  lemma {:induction false} StripBackSplit(p: Text, q: Text)
    requires p != [] && !IsEdge(p[|p| - 1])
    ensures StripBack(p + q) == p + StripBack(q)
    decreases |q|
  {
    if q == [] {
      assert p + q == p;
    } else {
      assert (p + q)[..|p + q| - 1] == p + q[..|q| - 1];
      StripBackSplit(p, q[..|q| - 1]);
    }
  }

  /** A text that ends in 'x' comes out of the pass as one that ends in 'x'. */
  lemma TrimmedUpTo(a: Text, x: int) returns (a2: Text)
    requires !IsWhite(x)
    ensures TrimAscii(a + [x]) == a2 + [x] && Visible(a2) == Visible(a)
  {
    var p := a + [x];
    TrimAsciiSplit(p, []);
    TrimAsciiDrops(p);
    DropsKeeps(p, TrimAscii(p));
    var r := TrimAscii(p);
    a2 := r[..|r| - 1];
    assert r == a2 + [x];
    SameBefore(a, a2, x);
  }

  lemma SameBefore(a: Text, a2: Text, x: int)
    requires Visible(a2 + [x]) == Visible(a + [x]) && !IsWhite(x)
    ensures Visible(a2) == Visible(a)
  {
    VisibleConcat(a, [x]);
    VisibleConcat(a2, [x]);
    VisibleOne(x);
    assert Visible(a) == Visible(a + [x])[..|Visible(a + [x])| - 1];
  }

  lemma StrippedUpTo(a: Text, x: int) returns (a2: Text)
    requires !IsWhite(x)
    ensures StripFront(a + [x]) == a2 + [x] && Visible(a2) == Visible(a)
  {
    var p := a + [x];
    StripFrontSplit(p, []);
    StripFrontKeeps(p);
    var r := StripFront(p);
    a2 := r[..|r| - 1];
    assert r == a2 + [x];
    SameBefore(a, a2, x);
  }

  lemma StripBackKeeps(b: Text)
    ensures Visible(StripBack(b)) == Visible(b)
  {
    StripBackDrops(b);
    DropsKeeps(b, StripBack(b));
  }

  lemma TrimAsciiKeeps(b: Text)
    ensures Visible(TrimAscii(b)) == Visible(b)
  {
    TrimAsciiDrops(b);
    DropsKeeps(b, TrimAscii(b));
  }

  /** The last passes, where no space is doubled. */
  lemma LastIsStrip(s: Text)
    ensures Normalized(s) == Strip(TrimAscii(Inner(s)))
  {
    InnerIsFixed(s);
    TrimAsciiDrops(Inner(s));
    hide Collapse, Join, Part, Trim, TrimAscii, Strip;
    DropsFixed(Inner(s), TrimAscii(Inner(s)));
  }

  lemma LastPasses(u: Text, a: Text, x: int, g: Text, y: int, b: Text) returns (a2: Text, b2: Text)
    requires u == a + [x] + g + [y] + b && !IsWhite(x) && !IsWhite(y) && AllWhite(g)
    ensures Strip(TrimAscii(u)) == a2 + [x] + (if IsMark(y) then [] else g) + [y] + b2
    ensures Visible(a2) == Visible(a) && Visible(b2) == Visible(b)
  {
    hide Visible, StripBack, StripFront, TrimAscii;
    var h := if IsMark(y) then [] else g;
    var b1 := TrimAscii(b);
    assert u == (a + [x]) + (g + [y] + b);
    TrimAsciiSplit(a + [x], g + [y] + b);
    TrimAsciiGap(g, y, b);
    var a1 := TrimmedUpTo(a, x);
    TrimAsciiKeeps(b);
    StripFrontSplit(a1 + [x], h + [y] + b1);
    a2 := StrippedUpTo(a1, x);
    b2 := StripBack(b1);
    StripBackKeeps(b1);
    var p := a2 + [x] + h + [y];
    assert (a2 + [x]) + (h + [y] + b1) == p + b1;
    StripBackSplit(p, b1);
  }

  // ------------------------------------------------------------ the laws

  /** What stands between two neighbouring visible characters 'x' and 'y' of a text. Before one of
      , . ; ! ? nothing is left. Otherwise spaces become one space or none: none between ideographs,
      kana and digits and beside wide punctuation, else one where there was any; and where there was
      none, one appears only between an ideograph or kana and a letter or placeholder. White space
      other than spaces stays. */
  lemma GapLaw(s: Text, a: Text, x: int, g: Text, y: int, b: Text) returns (a2: Text, h: Text, b2: Text)
    requires s == a + [x] + g + [y] + b && !IsWhite(x) && !IsWhite(y) && AllWhite(g)
    ensures Normalized(s) == a2 + [x] + h + [y] + b2 && Visible(a2) == Visible(a) && Visible(b2) == Visible(b)
    ensures IsMark(y) ==> h == []
    ensures !IsMark(y) ==> AllWhite(h) && Unspaced(h) == Unspaced(g)
    ensures !IsMark(y) && AllSpaces(g) ==> GapRule(a, x, g, y, b, h)
  {
    hide Visible, Unspaced, Strip, TrimAscii, Normalized, Inner, GapRule, AllSpaces;
    LastIsStrip(s);
    var a1, g1, b1 := InnerGap(s, a, x, g, y, b);
    SameVisible(a1, a);
    SameVisible(b1, b);
    SameVisible(g1, g);
    a2, b2 := LastPasses(Inner(s), a1, x, g1, y, b1);
    h := if IsMark(y) then [] else g1;
  }

  predicate AllEdge(s: Text) { forall i :: 0 <= i < |s| ==> s[i] == 0x20 || s[i] == 0x09 }

  lemma {:induction false} StripFrontWhite(g: Text, y: int, b: Text)
    requires AllWhite(g) && !IsWhite(y)
    ensures StripFront(g + [y] + b) == StripFront(g) + [y] + b && AllWhite(StripFront(g))
    ensures StripFront(g) == [] <==> AllEdge(g)
    ensures StripFront(g) != [] ==> StripFront(g)[0] != 0x20 && StripFront(g)[0] != 0x09
    decreases |g|
  {
    if g != [] {
      assert IsWhite(g[0]);
      assert (g + [y] + b)[1..] == g[1..] + [y] + b;
      StripFrontWhite(g[1..], y, b);
      assert g == [g[0]] + g[1..];
    }
  }

  lemma {:induction false} StripBackWhite(g: Text)
    requires AllWhite(g)
    ensures AllWhite(StripBack(g)) && (StripBack(g) == [] <==> AllEdge(g))
    ensures StripBack(g) != [] ==> StripBack(g)[|StripBack(g)| - 1] != 0x20 && StripBack(g)[|StripBack(g)| - 1] != 0x09
    decreases |g|
  {
    if g != [] {
      assert IsWhite(g[|g| - 1]);
      StripBackWhite(g[..|g| - 1]);
      assert g == g[..|g| - 1] + [g[|g| - 1]];
    }
  }

  /** White space in front of the first visible character 'y'. */
  lemma InnerLead(s: Text, g: Text, y: int, b: Text) returns (g1: Text, b1: Text)
    requires s == g + [y] + b && y != SPACE
    ensures Inner(s) == g1 + [y] + b1 && Unspaced(g1) == Unspaced(g) && Unspaced(b1) == Unspaced(b)
  {
    hide Parse, FromGap, FromChar, Between, IsTightened, IsFinal, Unspaced, Inner;
    var t := Parse(s);
    FlatOfParse(s);
    var t3, v := InnerIsFinal(s);
    SameChars(t, t3, v);
    var j := Locate(t, 0, g, y, b);
    g1, b1 := Between(v, 0, j), FromGap(v, j + 1);
    Cut(v, 0, j);
    Unfold(v, j);
    ConcatThree(g1, [y], b1);
    UnspacedBetween(t, 0, j);
    UnspacedBetween(v, 0, j);
    UnspacedTail(t, j + 1);
    UnspacedTail(v, j + 1);
  }

  lemma AllEdgeUnspaced(s: Text, r: Text)
    requires Unspaced(s) == Unspaced(r)
    ensures AllEdge(s) <==> AllEdge(r)
  {
    UnspacedEdge(s);
    UnspacedEdge(r);
  }

  lemma {:induction false} UnspacedEdge(s: Text)
    ensures AllEdge(s) <==> AllEdge(Unspaced(s))
    decreases |s|
  {
    if s != [] {
      UnspacedEdge(s[1..]);
      var u := Unspaced(s[1..]);
      EdgeCons(s[0], s[1..]);
      EdgeCons(s[0], u);
      assert s == [s[0]] + s[1..];
      if s[0] == 0x20 { assert Unspaced(s) == u; }
    }
  }

  lemma EdgeCons(c: int, s: Text)
    ensures AllEdge([c] + s) <==> (c == 0x20 || c == 0x09) && AllEdge(s)
  {
    assert forall i :: 0 <= i < |s| ==> ([c] + s)[i + 1] == s[i];
    assert ([c] + s)[0] == c;
  }

  /** What stands before the first visible character 'y': nothing is left if there were only spaces
      and tabs, or if 'y' is one of , . ; ! ? */
  lemma LeadLaw(s: Text, g: Text, y: int, b: Text) returns (h: Text, b2: Text)
    requires s == g + [y] + b && AllWhite(g) && !IsWhite(y)
    ensures Normalized(s) == h + [y] + b2 && AllWhite(h) && Visible(b2) == Visible(b)
    ensures h == [] <==> IsMark(y) || AllEdge(g)
    ensures h != [] ==> h[0] != 0x20 && h[0] != 0x09
  {
    hide Visible, Unspaced, StripFront, StripBack, TrimAscii, Normalized, Inner, AllEdge;
    LastIsStrip(s);
    var g1, b1 := InnerLead(s, g, y, b);
    SameVisible(g1, g);
    SameVisible(b1, b);
    AllEdgeUnspaced(g1, g);
    TrimAsciiGap(g1, y, b1);
    TrimAsciiKeeps(b1);
    var k := if IsMark(y) then [] else g1;
    var b3 := TrimAscii(b1);
    StripFrontWhite(k, y, b3);
    h := StripFront(k);
    b2 := StripBack(b3);
    StripBackKeeps(b3);
    StripBackSplit(h + [y], b3);
    NoEdge();
  }

  lemma NoEdge()
    ensures AllEdge([])
  {
  }

  /** What stands behind the last visible character 'x': nothing is left if there were only spaces
      and tabs. */
  lemma TrailLaw(s: Text, a: Text, x: int, g: Text) returns (a2: Text, h: Text)
    requires s == a + [x] + g && AllWhite(g) && !IsWhite(x)
    ensures Normalized(s) == a2 + [x] + h && AllWhite(h) && Visible(a2) == Visible(a)
    ensures h == [] <==> AllEdge(g)
    ensures h != [] ==> h[|h| - 1] != 0x20 && h[|h| - 1] != 0x09
  {
    hide Visible, Unspaced, StripFront, StripBack, TrimAscii, Normalized, Inner, AllEdge;
    LastIsStrip(s);
    var a1, g1 := InnerLead(s, a, x, g);
    SameVisible(a1, a);
    SameVisible(g1, g);
    AllEdgeUnspaced(g1, g);
    TrimAsciiSplit(a1 + [x], g1);
    TrimAsciiWhite(g1);
    var a3 := TrimmedUpTo(a1, x);
    StripFrontSplit(a3 + [x], g1);
    a2 := StrippedUpTo(a3, x);
    StripBackSplit(a2 + [x], g1);
    StripBackWhite(g1);
    h := StripBack(g1);
  }
}
