/** When a replaced match overlaps a placeholder, the text does not come back. */
module PlaceholdersLost {
  import opened Spaces
  import opened Placeholders
  import opened PlaceholdersRoundTrip
  import opened PlaceholderMarks
  import opened PlaceholderRegions

  // ------------------------------------------------------------ walking along a chain

  /** The chain does not end inside a placeholder. */
  predicate Closes(ms: seq<Mark>) { ms != [] && (ms[|ms| - 1].Lit? || IsLast(ms[|ms| - 1])) }

  ghost predicate InTags(ms: seq<Mark>) {
    forall k :: 0 <= k < |ms| && ms[k].Sign? ==> ms[k].off < |Tag(ms[k].tag)|
  }

  lemma FitInTags(t: Text, sp: seq<seq<Mark>>, n: nat, ms: seq<Mark>)
    requires AllFit(t, sp, n, ms)
    ensures InTags(ms)
  {
    hide Tag;
    forall k | 0 <= k < |ms| && ms[k].Sign? ensures ms[k].off < |Tag(ms[k].tag)| { FitsInTag(t, sp, n, ms[k]); }
  }

  /** From its name on a placeholder is complete. */
  lemma {:induction false} OwnRun(ms: seq<Mark>, k: nat)
    requires Chain(ms) && Closes(ms) && InTags(ms) && k < |ms| && ms[k].Sign? && ms[k].off >= 3
    ensures var m, len := ms[k], |Tag(ms[k].tag)| - ms[k].off;
            len > 0 && k + len <= |ms| && forall l :: k <= l < k + len ==> ms[l] == Sign(m.tag, m.off + l - k, m.base, m.end)
    decreases |ms| - k
  {
    hide Tag;
    var m := ms[k];
    if m.off + 1 < |Tag(m.tag)| {
      assert k + 1 < |ms|;
      assert Link(ms[k], ms[k + 1]);
      OwnRun(ms, k + 1);
    }
  }

  /** What stands before a character inside a placeholder. */
  lemma Before(ms: seq<Mark>, k: nat)
    requires Chain(ms) && Opens(ms) && InTags(ms) && k < |ms| && ms[k].Sign? && ms[k].off > 0
    ensures k > 0 && ms[k - 1].Sign? && ms[k].base <= ms[k - 1].base
    ensures IsLast(ms[k - 1]) ||
            (ms[k - 1].off + 1 == ms[k].off && (ms[k].off > 3 ==> ms[k - 1] == ms[k].(off := ms[k].off - 1)))
  {
    assert k > 0;
    assert Link(ms[k - 1], ms[k]);
  }

  /** How many underscores a character shows to be before it, with itself. */
  function Level(m: Mark): nat
    requires m.Sign? && m.off < |Tag(m.tag)|
  {
    if m.off < 3 then m.off + 1
    else if m.off + 3 >= |Tag(m.tag)| then m.off + 4 - |Tag(m.tag)|
    else 0
  }

  lemma LevelIsUnderscore(m: Mark)
    requires m.Sign? && m.off < |Tag(m.tag)| && Level(m) > 0
    ensures CharOf(m) == UNDERSCORE
  {
    TagChars(m.tag);
  }

  lemma {:induction false} UnderscoresBefore(ms: seq<Mark>, k: nat, n: nat)
    requires Chain(ms) && Opens(ms) && InTags(ms) && k < |ms| && ms[k].Sign? && n <= Level(ms[k])
    ensures n <= k + 1 && forall j :: k + 1 - n <= j <= k ==> CharOf(ms[j]) == UNDERSCORE
    decreases n
  {
    hide CharOf, Link, Tag;
    if n > 0 {
      LevelIsUnderscore(ms[k]);
      if n > 1 {
        Before(ms, k);
        UnderscoresBefore(ms, k - 1, n - 1);
      }
    }
  }

  /** The tag of a name can be read in the text. */
  lemma NameIsRead(ms: seq<Mark>, k: nat)
    requires Chain(ms) && Opens(ms) && Closes(ms) && InTags(ms) && k < |ms| && IsName(ms[k])
    ensures k >= 3 && k - 3 + |Tag(ms[k].tag)| <= |ms| && StartsWith(Plain(ms)[k - 3..], Tag(ms[k].tag))
  {
    hide Link, Tag, StartsWith;
    var i := ms[k].tag;
    OwnRun(ms, k);
    Before(ms, k);
    UnderscoresBefore(ms, k - 1, 3);
    TagChars(i);
    var T, X := |Tag(i)|, Plain(ms)[k - 3..];
    forall j | 0 <= j < T ensures X[j] == Tag(i)[j] {
      assert X[j] == CharOf(ms[k - 3 + j]);
    }
    SameStart(X, Tag(i));
  }

  lemma SameStart(s: Text, w: Text)
    requires |w| <= |s| && forall j :: 0 <= j < |w| ==> s[j] == w[j]
    ensures StartsWith(s, w)
  {
  }

  // ------------------------------------------------------------ original text

  /** The text is free of underscores and of the letters of the prefix. */
  ghost predicate IsCalm(t: Text) { UNDERSCORE !in t && NoProt(t) }

  /** Marks up to the stop, beginning with original text. */
  ghost predicate IsTail(t: Text, b: seq<Mark>) { IsEnding(t, b) && b[0].Lit? }

  ghost predicate IsEnding(t: Text, b: seq<Mark>) {
    && b != [] && Chain(b) && b[|b| - 1] == Lit(STOP, |t|)
    && forall k :: 0 <= k < |b| && b[k].Lit? ==> b[k].pos <= |t| && b[k].c == (t + [STOP])[b[k].pos]
  }

  /** Where the word at position 'k' ends. */
  lemma {:induction false} WordEnd(t: Text, b: seq<Mark>, k: nat) returns (e: nat)
    requires IsEnding(t, b) && k < |b| && b[k].Lit?
    ensures k <= e < |b| && b[e].Lit? && !IsWordChar(b[e].c)
    ensures forall j :: k <= j <= e ==> b[j].Lit? && b[j].pos == b[k].pos + j - k && (j < e ==> IsWordChar(b[j].c))
    decreases |b| - k
  {
    if IsWordChar(b[k].c) {
      assert k + 1 < |b|;
      assert Link(b[k], b[k + 1]);
      e := WordEnd(t, b, k + 1);
    } else {
      e := k;
    }
  }

  /** The rest of a word is free of what the text is free of. */
  lemma WordIsCalm(t: Text, b: seq<Mark>) returns (e: nat)
    requires IsCalm(t) && IsTail(t, b)
    ensures e < |b|
    ensures IsLiteral(Plain(b[..e + 1])) && Plain(b) == Plain(b[..e + 1]) + Plain(b[e + 1..])
  {
    e := WordEnd(t, b, 0);
    PlainConcat(b[..e + 1], b[e + 1..]);
    assert b == b[..e + 1] + b[e + 1..];
    var lit := Plain(b[..e + 1]);
    assert forall k :: 0 <= k <= e ==> b[k].Lit? && lit[k] == b[k].c;
    forall q: nat ensures !ProtAt(lit, q) {
      ProtAtChars(lit, q);
      if ProtAt(lit, q) {
        assert IsWordChar(0x54);
        assert b[q].pos == b[0].pos + q && b[q + 3].pos == b[0].pos + q + 3;
        ProtAtChars(t, b[q].pos);
      }
    }
  }

  // ------------------------------------------------------------ a region from a chain

  /** What may end a region. */
  ghost predicate IsLiteral(lit: Text) {
    lit != [] && !IsWordChar(lit[|lit| - 1]) && UNDERSCORE !in lit && NoProt(lit)
  }

  /** The name at 'j' of 'a', the rest of 'a' without its last 'cut' characters, and original text. */
  lemma RegionFrom(a: seq<Mark>, j: nat, cut: nat, lit: Text) returns (r: Region)
    requires IsLiteral(lit) && Chain(a) && InTags(a) && Closes(a) && cut <= 3
    requires j < |a| && IsName(a[j]) && forall k :: j < k < |a| ==> a[k].Sign? && !IsName(a[k])
    ensures j < |a| - cut && IsRegion(r) && r.y == a[j].tag && r.lit == lit
    ensures Plain(a[..|a| - cut]) + lit == Plain(a[..j]) + Body(r)
    ensures j + 4 + |Decimal(a[j].tag)| <= |a| - cut && r.behind == Plain(a[j + 4 + |Decimal(a[j].tag)|..|a| - cut])
  {
    hide Link, Tag, NoProt, Decimal, Plain, CharOf, Body;
    var n, m := a[j].tag, |a| - cut;
    var d := j + 4 + |Decimal(n)|;
    NameAndNumber(a, j);
    r := Region(n, Plain(a[d..m]), lit);
    BehindIsQuiet(a, j, m);
    PlainParts(a[..m], j, d, m);
    assert a[..m][..j] == a[..j] && a[..m][j..d] == a[j..d] && a[..m][d..m] == a[d..m] && a[..m][..m] == a[..m];
    BodyAmong(r, Plain(a[..j]));
  }

  lemma BodyAmong(r: Region, A: Text)
    ensures A + (PROT + Decimal(r.y)) + r.behind + r.lit == A + Body(r)
  {
    hide Decimal;
  }

  lemma PlainParts(ms: seq<Mark>, p: nat, q: nat, e: nat)
    requires p <= q <= e <= |ms|
    ensures Plain(ms[..e]) == Plain(ms[..p]) + Plain(ms[p..q]) + Plain(ms[q..e])
    ensures p == 0 ==> Plain(ms[..e]) == Plain(ms[p..q]) + Plain(ms[q..e])
  {
    hide CharOf;
  }

  lemma NameAndNumber(a: seq<Mark>, j: nat)
    requires Chain(a) && InTags(a) && Closes(a) && j < |a| && IsName(a[j])
    ensures var d := j + 4 + |Decimal(a[j].tag)|;
            d + 3 <= |a| && Plain(a[j..d]) == PROT + Decimal(a[j].tag) && a[d].Sign? && CharOf(a[d]) == UNDERSCORE
  {
    OwnRun(a, j);
    var n, base, end := a[j].tag, a[j].base, a[j].end;
    TagChars(n);
    hide Link, Tag, Decimal;
    var d := j + 4 + |Decimal(n)|;
    var s, w := Plain(a[j..d]), PROT + Decimal(n);
    forall k | 0 <= k < |w| ensures s[k] == w[k] {
      assert s[k] == CharOf(a[j + k]) == Tag(n)[3 + k];
      if k >= 4 { assert Tag(n)[7 + (k - 4)] == Decimal(n)[k - 4]; }
    }
  }

  lemma BehindIsQuiet(a: seq<Mark>, j: nat, m: nat)
    requires Chain(a) && InTags(a) && Closes(a) && j < |a| && IsName(a[j])
    requires forall k :: j < k < |a| ==> a[k].Sign? && !IsName(a[k])
    requires j + 4 + |Decimal(a[j].tag)| <= m <= |a|
    ensures var s := Plain(a[j + 4 + |Decimal(a[j].tag)|..m]); 0x50 !in s && (s != [] ==> s[0] == UNDERSCORE)
  {
    NameAndNumber(a, j);
    hide Link, Decimal, Tag, Plain;
    var d := j + 4 + |Decimal(a[j].tag)|;
    var s := Plain(a[d..m]);
    PlainAt(a, d, m);
    forall k | 0 <= k < |s| ensures s[k] != 0x50 { NoPBehindName(a[d + k]); }
  }

  lemma PlainAt(a: seq<Mark>, p: nat, q: nat)
    requires p <= q <= |a|
    ensures forall k :: 0 <= k < q - p ==> Plain(a[p..q])[k] == CharOf(a[p + k])
  {
    hide CharOf;
  }

  lemma NoPBehindName(m: Mark)
    requires m.Sign? && m.off < |Tag(m.tag)| && !IsName(m)
    ensures CharOf(m) != 0x50
  {
    if CharOf(m) == 0x50 { OnlyPInTag(m.tag, m.off); }
  }

  // ------------------------------------------------------------ what a tag in the text is

  lemma TextIsEnding(t: Text, sp: seq<seq<Mark>>, n: nat, ms: seq<Mark>)
    requires IsText(t, sp, n, ms)
    ensures IsEnding(t, ms) && InTags(ms) && Closes(ms)
  {
    hide Tag, Link;
    FitInTags(t, sp, n, ms);
    forall k | 0 <= k < |ms| && ms[k].Lit? ensures ms[k].pos <= |t| && ms[k].c == (t + [STOP])[ms[k].pos] {
      assert Fits(t, sp, n, ms[k]);
    }
  }

  /** Original text does not hold the letters of the prefix. */
  lemma NoProtInText(t: Text, ms: seq<Mark>, q: nat)
    requires IsCalm(t) && IsEnding(t, ms) && q < |ms| && ms[q].Lit?
    ensures !ProtAt(Plain(ms), q)
  {
    hide Link, Tag;
    var e := WordEnd(t, ms, q);
    ProtAtChars(Plain(ms), q);
    if ProtAt(Plain(ms), q) {
      assert CharOf(ms[q]) == 0x50 && CharOf(ms[q + 1]) == 0x52 && CharOf(ms[q + 2]) == 0x4F && CharOf(ms[q + 3]) == 0x54;
      assert q + 3 <= e;
      ProtAtChars(t, ms[q].pos);
    }
  }

  /** Where a tag can be read stands the placeholder. */
  lemma ReadIsName(t: Text, sp: seq<seq<Mark>>, ms: seq<Mark>, i: nat, p: nat)
    requires IsCalm(t) && IsText(t, sp, |sp|, ms) && p <= |ms| && StartsWith(Plain(ms)[p..], Tag(i))
    ensures p + 3 < |ms| && IsName(ms[p + 3]) && ms[p + 3].tag == i
  {
    TextIsEnding(t, sp, |sp|, ms);
    TagChars(i);
    hide Link, Tag, NoProt, Chain, CharOf, Plain, StartsWith, Fits;
    var X, q := Plain(ms), p + 3;
    ReadChars(X, p, i);
    if ms[q].Lit? { NoProtInText(t, ms, q); }
    CharIsP(ms, q);
    NameIsRead(ms, q);
    var x := ms[q].tag;
    StartsWithFits(X[p..], Tag(x));
    assert q - 3 == p;
    SplitStart(X[p..], Tag(x));
    TagIsUnique(i, x, X[p..][|Tag(x)|..]);
  }

  lemma ReadChars(X: Text, p: nat, i: nat)
    requires p <= |X| && StartsWith(X[p..], Tag(i))
    ensures p + |Tag(i)| <= |X| && X[p + 3] == 0x50 && ProtAt(X, p + 3)
  {
    TagChars(i);
    hide Tag;
    forall k | 0 <= k < 7 ensures X[p + k] == Tag(i)[k] {
      StartsWithAt(X[p..], Tag(i), k);
      assert X[p..][k] == X[p + k];
    }
    assert X[p + 3] == Tag(i)[3] && X[p + 4] == Tag(i)[4] && X[p + 5] == Tag(i)[5] && X[p + 6] == Tag(i)[6];
    ProtAtChars(X, p + 3);
  }

  lemma CharIsP(ms: seq<Mark>, q: nat)
    requires q < |ms| && ms[q].Sign? && InTags(ms) && Plain(ms)[q] == 0x50
    ensures IsName(ms[q])
  {
    OnlyPInTag(ms[q].tag, ms[q].off);
  }

  lemma SplitStart(s: Text, w: Text)
    requires StartsWith(s, w)
    ensures |w| <= |s| && s == w + s[|w|..]
  {
  }

  /** A placeholder that is in the text is replaced once. */
  lemma ReplacedOnce(t: Text, sp: seq<seq<Mark>>, ms: seq<Mark>, k: nat, span: Text)
    requires IsCalm(t) && IsText(t, sp, |sp|, ms) && k < |ms| && IsName(ms[k])
    ensures var T := |Tag(ms[k].tag)|;
            3 <= k && k - 3 + T < |ms| &&
            ReplaceAll(Plain(ms), Tag(ms[k].tag), span) == Plain(ms[..k - 3]) + span + Plain(ms[k - 3 + T..])
  {
    hide IsText, IsCalm, Tag, Plain, StartsWith, ReplaceAll, OnlyAt;
    IsReadThere(t, sp, ms, k);
    IsReadOnce(t, sp, ms, k);
    ReplacedAt(Plain(ms), Tag(ms[k].tag), span, k - 3);
    PlainEnds(ms, k - 3, k - 3 + |Tag(ms[k].tag)|);
  }

  lemma IsReadThere(t: Text, sp: seq<seq<Mark>>, ms: seq<Mark>, k: nat)
    requires IsText(t, sp, |sp|, ms) && k < |ms| && IsName(ms[k])
    ensures 3 <= k && k - 3 + |Tag(ms[k].tag)| < |ms| && StartsWith(Plain(ms)[k - 3..], Tag(ms[k].tag))
  {
    TextIsEnding(t, sp, |sp|, ms);
    hide Link, Tag, Plain, StartsWith, AllFit, NamesDiffer, AgesAgree;
    NameIsRead(ms, k);
    OwnEnd(ms, k);
  }

  lemma PlainEnds(ms: seq<Mark>, p: nat, e: nat)
    requires p <= |ms| && e <= |ms|
    ensures Plain(ms[..p]) == Plain(ms)[..p] && Plain(ms[e..]) == Plain(ms)[e..]
  {
    hide CharOf;
  }

  ghost predicate OnlyAt(X: Text, tag: Text, p: nat) {
    forall q: nat :: q <= |X| && q != p ==> !StartsWith(X[q..], tag)
  }

  lemma IsReadOnce(t: Text, sp: seq<seq<Mark>>, ms: seq<Mark>, k: nat)
    requires IsCalm(t) && IsText(t, sp, |sp|, ms) && 3 <= k < |ms| && IsName(ms[k])
    ensures OnlyAt(Plain(ms), Tag(ms[k].tag), k - 3)
  {
    hide Link, Tag, NoProt, CharOf, Plain, StartsWith, IsText, IsCalm;
    forall q: nat | q <= |ms| && q != k - 3 ensures !StartsWith(Plain(ms)[q..], Tag(ms[k].tag)) {
      ReadNowhereElse(t, sp, ms, k, q);
    }
  }

  lemma OwnEnd(ms: seq<Mark>, k: nat)
    requires Chain(ms) && Closes(ms) && InTags(ms) && k < |ms| && IsName(ms[k]) && ms[|ms| - 1].Lit?
    ensures k - 3 + |Tag(ms[k].tag)| < |ms|
  {
    hide Tag, Link;
    OwnRun(ms, k);
  }

  lemma ReadNowhereElse(t: Text, sp: seq<seq<Mark>>, ms: seq<Mark>, k: nat, q: nat)
    requires IsCalm(t) && IsText(t, sp, |sp|, ms) && k < |ms| && IsName(ms[k]) && q <= |ms| && q + 3 != k
    ensures !StartsWith(Plain(ms)[q..], Tag(ms[k].tag))
  {
    hide Link, Tag, CharOf, Plain, StartsWith, Fits, AgesAgree, AllFit, IsCalm, Chain;
    if StartsWith(Plain(ms)[q..], Tag(ms[k].tag)) { ReadIsName(t, sp, ms, ms[k].tag, q); }
  }

  lemma ReplacedAt(X: Text, tag: Text, span: Text, p: nat)
    requires tag != [] && p + |tag| <= |X| && StartsWith(X[p..], tag) && OnlyAt(X, tag, p)
    ensures ReplaceAll(X, tag, span) == X[..p] + span + X[p + |tag|..]
  {
    hide StartsWith, ReplaceAll;
    var e := p + |tag|;
    ReplaceFound(X, tag, span, p);
    forall j | 0 <= j < |X[e..]| + 1 ensures !StartsWith(X[e..][j..], tag) { assert X[e..][j..] == X[e + j..]; }
    NoneToEnd(X[e..], tag, span);
  }

  lemma ReplacedNowhere(t: Text, sp: seq<seq<Mark>>, ms: seq<Mark>, i: nat, span: Text)
    requires IsCalm(t) && IsText(t, sp, |sp|, ms) && !HasName(ms, i)
    ensures ReplaceAll(Plain(ms), Tag(i), span) == Plain(ms)
  {
    hide Link, Tag, NoProt, CharOf, Plain, StartsWith, Fits, ReplaceAll, IsText;
    var X := Plain(ms);
    forall q: nat | q <= |ms| ensures !StartsWith(X[q..], Tag(i)) {
      if StartsWith(X[q..], Tag(i)) { ReadIsName(t, sp, ms, i, q); }
    }
    NoneToEnd(X, Tag(i), span);
  }

  // ------------------------------------------------------------ neighbours

  lemma BaseFalls(a: Mark, b: Mark)
    requires Link(a, b) && a.Sign? && b.Sign?
    ensures b.base <= a.base
  {
  }

  /** Inside a placeholder, from its first three characters on, stands its name or has stood. */
  lemma {:induction false} NameBefore(ms: seq<Mark>, l: nat) returns (k: nat)
    requires Chain(ms) && Opens(ms) && InTags(ms) && l < |ms| && ms[l].Sign? && ms[l].off >= 3
    ensures k <= l && IsName(ms[k]) && forall j :: k < j <= l ==> ms[j].Sign? && !IsName(ms[j])
    decreases l
  {
    hide Link, Tag;
    if ms[l].off == 3 {
      k := l;
    } else {
      Before(ms, l);
      TagChars(ms[l - 1].tag);
      k := NameBefore(ms, l - 1);
    }
  }

  /** The first characters of a placeholder lead to a name. */
  lemma {:induction false} LeadsToName(ms: seq<Mark>, l: nat) returns (k: nat)
    requires Chain(ms) && Closes(ms) && InTags(ms) && l < |ms| && ms[l].Sign? && ms[l].off <= 3
    ensures l <= k < |ms| && k == l + 3 - ms[l].off && IsName(ms[k])
    ensures forall j :: l <= j <= k ==> ms[j].Sign? && ms[j].off == ms[l].off + j - l && ms[j].base <= ms[l].base
    decreases 3 - ms[l].off
  {
    if ms[l].off == 3 {
      k := l;
    } else {
      TagChars(ms[l].tag);
      assert Link(ms[l], ms[l + 1]);
      k := LeadsToName(ms, l + 1);
    }
  }

  /** Behind a placeholder whose span ended inside another, only older ones follow. */
  lemma {:induction false} OlderBehind(t: Text, sp: seq<seq<Mark>>, ms: seq<Mark>, k: nat, l: nat)
    requires IsText(t, sp, |sp|, ms) && k < l < |ms| && IsLast(ms[k]) && ms[k].end.After? && ms[k].end.mark.Sign?
    requires forall j :: k < j <= l ==> ms[j].Sign?
    ensures ms[l].base < ms[k].base && ms[l].tag < ms[k].tag
    decreases l
  {
    hide Tag;
    assert Fits(t, sp, |sp|, ms[k]);
    assert Link(ms[l - 1], ms[l]);
    if l == k + 1 {
      assert ms[l].Sign?;
      BaseFalls(ms[k].end.mark, ms[l]);
    } else {
      OlderBehind(t, sp, ms, k, l - 1);
      BaseFalls(ms[l - 1], ms[l]);
    }
  }

  lemma {:induction false} FirstLit(ms: seq<Mark>, k: nat) returns (f: nat)
    requires k < |ms| && ms[|ms| - 1].Lit?
    ensures k <= f < |ms| && ms[f].Lit? && forall j :: k <= j < f ==> ms[j].Sign?
    decreases |ms| - k
  {
    if ms[k].Lit? { f := k; } else { f := FirstLit(ms, k + 1); }
  }

  lemma {:induction false} LastSign(ms: seq<Mark>, n: nat) returns (w: nat)
    requires n <= |ms| && exists k :: 0 <= k < n && ms[k].Sign?
    ensures w < n && ms[w].Sign? && forall j :: w < j < n ==> ms[j].Lit?
    decreases n
  {
    if ms[n - 1].Sign? { w := n - 1; } else { w := LastSign(ms, n - 1); }
  }

  // ------------------------------------------------------------ one tag is restored

  /** The text before tag 'i' is restored: only names from 'i' on, that of 'n' among them. */
  ghost predicate Orderly(t: Text, sp: seq<seq<Mark>>, ms: seq<Mark>, i: nat, n: nat) {
    && IsText(t, sp, |sp|, ms) && HasName(ms, n)
    && forall k :: 0 <= k < |ms| && IsName(ms[k]) ==> ms[k].tag >= i
  }

  /** The place of a placeholder in the text: its name, its last character, and what follows. */
  ghost predicate StandsAt(ms: seq<Mark>, k: nat, e: nat, i: nat, sp: seq<seq<Mark>>) {
    && i < |sp| && 3 <= k < e < |ms| && IsName(ms[k]) && ms[k].tag == i && e == k - 3 + |Tag(i)|
    && (forall l :: k <= l < e ==> ms[l] == Sign(i, 3 + l - k, ms[k].base, EndOf(sp[i])))
    && Link(ms[e - 1], ms[e])
  }

  lemma Standing(t: Text, sp: seq<seq<Mark>>, ms: seq<Mark>, i: nat) returns (k: nat, e: nat)
    requires IsText(t, sp, |sp|, ms) && HasName(ms, i)
    ensures StandsAt(ms, k, e, i, sp)
  {
    hide Tag, Link, NamesDiffer, AgesAgree;
    k :| 0 <= k < |ms| && IsName(ms[k]) && ms[k].tag == i;
    e := StandsFrom(t, sp, ms, k);
  }

  lemma StandsFrom(t: Text, sp: seq<seq<Mark>>, ms: seq<Mark>, k: nat) returns (e: nat)
    requires IsText(t, sp, |sp|, ms) && k < |ms| && IsName(ms[k])
    ensures StandsAt(ms, k, e, ms[k].tag, sp)
  {
    TextIsEnding(t, sp, |sp|, ms);
    hide Tag, Link, NamesDiffer, AgesAgree;
    FitsInTag(t, sp, |sp|, ms[k]) by { assert Fits(t, sp, |sp|, ms[k]); }
    OwnRun(ms, k);
    NameIsRead(ms, k);
    e := k - 3 + |Tag(ms[k].tag)|;
    assert ms[e - 1].Sign?;
    assert Link(ms[e - 1], ms[e - 1 + 1]);
  }

  /** The span in place of the placeholder, and the text behind it. */
  function Unfolded(sp: seq<seq<Mark>>, i: nat, ms: seq<Mark>, e: nat): seq<Mark>
    requires i < |sp| && e <= |ms|
  {
    sp[i] + ms[e..]
  }

  lemma UnfoldedIsEnding(t: Text, sp: seq<seq<Mark>>, ms: seq<Mark>, i: nat, k: nat, e: nat)
    requires IsText(t, sp, |sp|, ms) && ArePieces(t, sp) && StandsAt(ms, k, e, i, sp)
    ensures var cs := Unfolded(sp, i, ms, e);
            IsEnding(t, cs) && InTags(cs) && Closes(cs) && Plain(cs) == Plain(sp[i]) + Plain(ms[e..])
  {
    TextIsEnding(t, sp, |sp|, ms);
    hide Tag, CharOf, Plain, Fits, AllFit, NamesDiffer, AgesAgree;
    var cs, span := Unfolded(sp, i, ms, e), sp[i];
    assert IsPiece(t, sp, i, span);
    PieceFits(t, sp, i, span);
    PlainConcat(span, ms[e..]);
    forall j | 0 <= j && j + 1 < |cs| ensures Link(cs[j], cs[j + 1]) {
      if j + 1 < |span| {
        assert Link(span[j], span[j + 1]);
      } else if j + 1 == |span| {
        BehindSpan(ms, k, e, i, sp);
      } else {
        var l := e + (j - |span|);
        assert Link(ms[l], ms[l + 1]);
      }
    }
  }

  lemma PieceFits(t: Text, sp: seq<seq<Mark>>, n: nat, span: seq<Mark>)
    requires IsPiece(t, sp, n, span)
    ensures InTags(span) && forall k :: 0 <= k < |span| && span[k].Lit? ==> span[k].pos <= |t| && span[k].c == (t + [STOP])[span[k].pos]
    ensures forall k :: 0 <= k < |span| && span[k].Sign? ==> span[k].tag < n
  {
    hide Tag, Link;
    FitInTags(t, sp, n, span);
    forall k | 0 <= k < |span|
      ensures span[k].Lit? ==> span[k].pos <= |t| && span[k].c == (t + [STOP])[span[k].pos]
      ensures span[k].Sign? ==> span[k].tag < n
    {
      assert Fits(t, sp, n, span[k]);
    }
  }

  lemma BehindSpan(ms: seq<Mark>, k: nat, e: nat, i: nat, sp: seq<seq<Mark>>)
    requires StandsAt(ms, k, e, i, sp)
    ensures sp[i] != [] ==> Link(sp[i][|sp[i]| - 1], ms[e])
    ensures sp[i] == [] ==> ms[e].Lit? || ms[e].off == 0
    ensures ms[e].Sign? ==> ms[e].base <= ms[k].base
  {
    assert ms[e - 1] == Sign(i, |Tag(i)| - 1, ms[k].base, EndOf(sp[i]));
    hide Tag;
  }

  // ------------------------------------------------------------ a span that holds part of a placeholder

  /** Where the last part of a placeholder in the span ends in the unfolded text, after its name. */
  lemma DirtyName(t: Text, sp: seq<seq<Mark>>, ms: seq<Mark>, i: nat, n: nat, k: nat, e: nat) returns (j: nat, f: nat)
    requires Orderly(t, sp, ms, i, n) && ArePieces(t, sp) && StandsAt(ms, k, e, i, sp) && IsDirty(sp[i])
    ensures var cs := Unfolded(sp, i, ms, e);
            j < |sp[i]| && j < f < |cs| && IsName(cs[j]) && cs[f].Lit? && forall l :: j < l < f ==> cs[l].Sign? && !IsName(cs[l])
  {
    hide Tag, CharOf, Plain, Fits, NamesDiffer, AgesAgree, Link;
    var span := sp[i];
    var w := LastSign(span, |span|);
    if w + 1 < |span| {
      j := NameInside(t, sp, i, w);
      f := w + 1;
    } else {
      var f2 := NoNameBehind(t, sp, ms, i, n, k, e);
      j := NameAtEnd(t, sp, ms, i, n, k, e, f2);
      f := |span| + (f2 - e);
      UnfoldedMarks(sp, i, ms, e, j, f2);
    }
  }

  lemma UnfoldedMarks(sp: seq<seq<Mark>>, i: nat, ms: seq<Mark>, e: nat, j: nat, f: nat)
    requires i < |sp| && e <= f < |ms| && j < |sp[i]| && ms[f].Lit?
    requires forall l :: j < l < |sp[i]| ==> sp[i][l].Sign? && !IsName(sp[i][l])
    requires forall l :: e <= l < f ==> ms[l].Sign? && !IsName(ms[l])
    ensures var cs, g := Unfolded(sp, i, ms, e), |sp[i]| + (f - e);
            j < g < |cs| && cs[g].Lit? && cs[j] == sp[i][j] && forall l :: j < l < g ==> cs[l].Sign? && !IsName(cs[l])
  {
    var cs, g := Unfolded(sp, i, ms, e), |sp[i]| + (f - e);
    forall l | j < l < g ensures cs[l].Sign? && !IsName(cs[l]) {
      if l >= |sp[i]| { assert cs[l] == ms[e + (l - |sp[i]|)]; }
    }
  }

  lemma NameInside(t: Text, sp: seq<seq<Mark>>, i: nat, w: nat) returns (j: nat)
    requires ArePieces(t, sp) && i < |sp| && w + 1 < |sp[i]| && sp[i][w].Sign? && sp[i][w + 1].Lit?
    ensures j <= w && IsName(sp[i][j]) && forall l :: j < l <= w ==> sp[i][l].Sign? && !IsName(sp[i][l])
  {
    hide Tag, CharOf, Plain, Fits;
    var span := sp[i];
    assert IsPiece(t, sp, i, span);
    PieceFits(t, sp, i, span);
    assert Link(span[w], span[w + 1]);
    BeforeLitIsLast(span[w], span[w + 1]);
    j := NameBefore(span, w);
  }

  lemma NameAtEnd(t: Text, sp: seq<seq<Mark>>, ms: seq<Mark>, i: nat, n: nat, k: nat, e: nat, f: nat) returns (j: nat)
    requires Orderly(t, sp, ms, i, n) && ArePieces(t, sp) && StandsAt(ms, k, e, i, sp) && sp[i] != [] && sp[i][|sp[i]| - 1].Sign?
    requires e <= f < |ms| && ms[f].Lit? && forall l :: e <= l < f ==> ms[l].Sign? && !IsName(ms[l])
    ensures j < |sp[i]| && IsName(sp[i][j]) && forall l :: j < l < |sp[i]| ==> sp[i][l].Sign? && !IsName(sp[i][l])
  {
    TextIsEnding(t, sp, |sp|, ms);
    hide Tag, CharOf, Plain, Fits, NamesDiffer, AgesAgree, Link;
    var span := sp[i];
    assert IsPiece(t, sp, i, span);
    PieceFits(t, sp, i, span);
    BehindSpan(ms, k, e, i, sp);
    SpanEndsLate(ms, e, f, span[|span| - 1]);
    j := NameBefore(span, |span| - 1);
  }

  lemma BeforeLitIsLast(a: Mark, b: Mark)
    requires Link(a, b) && a.Sign? && b.Lit? && a.off < |Tag(a.tag)|
    ensures IsLast(a) && a.off >= 3
  {
    TagChars(a.tag);
  }

  /** No name is left behind a placeholder whose span ended inside another. */
  lemma NoNameBehind(t: Text, sp: seq<seq<Mark>>, ms: seq<Mark>, i: nat, n: nat, k: nat, e: nat) returns (f: nat)
    requires Orderly(t, sp, ms, i, n) && StandsAt(ms, k, e, i, sp) && sp[i] != [] && sp[i][|sp[i]| - 1].Sign?
    ensures e <= f < |ms| && ms[f].Lit? && forall l :: e <= l < f ==> ms[l].Sign? && !IsName(ms[l])
  {
    hide Link, CharOf, Fits, NamesDiffer, AgesAgree;
    f := FirstLit(ms, e);
    assert ms[e - 1] == Sign(i, |Tag(i)| - 1, ms[k].base, EndOf(sp[i]));
    hide Tag;
    forall l | e <= l < f ensures !IsName(ms[l]) {
      OlderBehind(t, sp, ms, e - 1, l);
    }
  }

  /** The span did not end in the underscores before a name: that name would still be there. */
  lemma SpanEndsLate(ms: seq<Mark>, e: nat, f: nat, a: Mark)
    requires Chain(ms) && Closes(ms) && InTags(ms) && e <= f < |ms| && ms[f].Lit?
    requires forall l :: e <= l < f ==> ms[l].Sign? && !IsName(ms[l])
    requires a.Sign? && a.off < |Tag(a.tag)| && Link(a, ms[e])
    ensures a.off >= 3
  {
    if a.off < 3 {
      TagChars(a.tag);
      var l := LeadsToName(ms, e);
    }
  }

  /** A name of an earlier tag comes back when its own turn has passed. */
  lemma DirtyIsStuck(t: Text, sp: seq<seq<Mark>>, ms: seq<Mark>, i: nat, n: nat, k: nat, e: nat)
    requires IsCalm(t) && Orderly(t, sp, ms, i, n) && ArePieces(t, sp) && StandsAt(ms, k, e, i, sp) && IsDirty(sp[i])
    ensures Stuck(Plain(ms[..k - 3]) + Plain(sp[i]) + Plain(ms[e..]), i + 1)
  {
    hide Tag, CharOf, Plain, Fits, NamesDiffer, AgesAgree, IsCalm, Stuck, Chain, AllFit;
    var j, f := DirtyName(t, sp, ms, i, n, k, e);
    UnfoldedIsEnding(t, sp, ms, i, k, e);
    assert IsPiece(t, sp, i, sp[i]);
    PieceFits(t, sp, i, sp[i]);
    var cs := Unfolded(sp, i, ms, e);
    NameIsStuck(t, cs, j, f, i + 1);
    StuckInside(Plain(ms[..k - 3]), Plain(cs), [], i + 1, i + 1);
    assert Plain(ms[..k - 3]) + Plain(cs) + [] == Plain(ms[..k - 3]) + Plain(sp[i]) + Plain(ms[e..]);
  }

  lemma NameIsStuck(t: Text, cs: seq<Mark>, j: nat, f: nat, n: nat)
    requires IsCalm(t) && IsEnding(t, cs) && InTags(cs) && j < f < |cs| && IsName(cs[j]) && cs[j].tag < n && cs[f].Lit?
    requires forall l :: j < l < f ==> cs[l].Sign? && !IsName(cs[l])
    ensures Stuck(Plain(cs), n)
  {
    hide Tag, CharOf, Plain, Link, IsCalm, IsRegion, Body, Stuck;
    CutAtLit(t, cs, f);
    var a, b := cs[..f], cs[f..];
    var e := WordIsCalm(t, b);
    CutNameIsStuck(a, j, 0, Plain(b[..e + 1]), n);
    assert a[..|a| - 0] == a;
    PlainConcat(a, b);
    assert cs == a + b;
    var X, T := Plain(a) + Plain(b[..e + 1]), Plain(b[e + 1..]);
    StuckInside([], X, T, n, n);
    assert [] + X + T == Plain(cs);
  }

  lemma CutAtLit(t: Text, cs: seq<Mark>, f: nat)
    requires IsEnding(t, cs) && InTags(cs) && 0 < f < |cs| && cs[f].Lit?
    ensures IsTail(t, cs[f..]) && Chain(cs[..f]) && InTags(cs[..f]) && (cs[f - 1].Sign? ==> Closes(cs[..f]))
  {
    hide Tag;
    assert Link(cs[f - 1], cs[f - 1 + 1]);
    if cs[f - 1].Sign? { BeforeLitIsLast(cs[f - 1], cs[f]); }
    hide Link;
    forall j | 0 <= j && j + 1 < |cs[f..]| ensures Link(cs[f..][j], cs[f..][j + 1]) {
      assert Link(cs[f + j], cs[f + j + 1]);
    }
  }

  // ------------------------------------------------------------ a span of original text

  /** Where the characters of a placeholder before its name begin. */
  lemma {:induction false} FirstBefore(ms: seq<Mark>, l: nat) returns (g: nat)
    requires Chain(ms) && Opens(ms) && InTags(ms) && l < |ms| && ms[l].Sign? && ms[l].off <= 3
    ensures g <= l <= g + 3 && ms[g].Sign? && (ms[g].off == 0 || (g > 0 && IsLast(ms[g - 1])))
    ensures forall j :: g <= j <= l ==> ms[j].Sign? && ms[j].off == ms[l].off + j - l && ms[l].base <= ms[j].base
    decreases ms[l].off
  {
    hide Link, Tag;
    if ms[l].off == 0 {
      g := l;
    } else {
      Before(ms, l);
      if IsLast(ms[l - 1]) { g := l; } else { g := FirstBefore(ms, l - 1); }
    }
  }

  /** What may stand for another mark behind a third. */
  lemma Bridge(a: Mark, x: Mark, c: Mark)
    requires Link(a, x) && x.Sign? && x.off <= 3
    requires if c.Lit? then x.off == 0 else c.off == x.off && c.base <= x.base
    ensures Link(a, c)
    decreases a
  {
    if a.Sign? && a.off + 1 >= |Tag(a.tag)| && a.end.After? { Bridge(a.end.mark, x, c); }
  }

  /** A text with the marks from 'x' to 'y' replaced by original text. */
  lemma KeepsOrder(t: Text, sp: seq<seq<Mark>>, ms: seq<Mark>, i: nat, n: nat, k: nat, x: nat, ins: seq<Mark>, y: nat)
    requires Orderly(t, sp, ms, i, n) && n != i && x <= k < y < |ms| && IsName(ms[k]) && ms[k].tag == i
    requires forall l :: x <= l < y && IsName(ms[l]) ==> l == k
    requires AllFit(t, sp, |sp|, ins) && forall l :: 0 <= l < |ins| ==> ins[l].Lit?
    requires Chain(ms[..x] + ins + ms[y..]) && Opens(ms[..x] + ins + ms[y..])
    ensures Orderly(t, sp, ms[..x] + ins + ms[y..], i + 1, n)
  {
    hide Tag, Link, Fits, Chain, Opens;
    var out := ms[..x] + ins + ms[y..];
    forall l | 0 <= l < |out| ensures Fits(t, sp, |sp|, out[l]) {
      if l >= x + |ins| { assert out[l] == ms[l - x - |ins| + y]; }
    }
    forall l | 0 <= l < |out| ensures out[l].Lit? || (out[l] in ms && (IsName(out[l]) ==> out[l].tag != i)) {
      if l >= x + |ins| { assert out[l] == ms[l - x - |ins| + y]; }
    }
    KeepsNames(ms, x, ins, y);
    KeepsAges(ms, x, ins, y);
    var m :| 0 <= m < |ms| && IsName(ms[m]) && ms[m].tag == n;
    if m < x { assert out[m] == ms[m]; } else { assert out[m - y + x + |ins|] == ms[m]; }
  }

  lemma KeepsNames(ms: seq<Mark>, x: nat, ins: seq<Mark>, y: nat)
    requires NamesDiffer(ms) && x <= y <= |ms| && forall l :: 0 <= l < |ins| ==> ins[l].Lit?
    ensures NamesDiffer(ms[..x] + ins + ms[y..])
  {
    var out, c := ms[..x] + ins + ms[y..], x + |ins|;
    forall k, l | 0 <= k < l < |out| && IsName(out[k]) && IsName(out[l]) ensures out[k].tag != out[l].tag {
      assert k < x || (k >= c && out[k] == ms[k - c + y]);
      assert l < x || (l >= c && out[l] == ms[l - c + y]);
    }
  }

  lemma KeepsAges(ms: seq<Mark>, x: nat, ins: seq<Mark>, y: nat)
    requires AgesAgree(ms) && x <= y <= |ms| && forall l :: 0 <= l < |ins| ==> ins[l].Lit?
    ensures AgesAgree(ms[..x] + ins + ms[y..])
  {
    var out, c := ms[..x] + ins + ms[y..], x + |ins|;
    forall k, l | 0 <= k < |out| && 0 <= l < |out| && out[k].Sign? && out[l].Sign? && out[k].base < out[l].base
      ensures out[k].tag < out[l].base
    {
      assert k < x || (k >= c && out[k] == ms[k - c + y]);
      assert l < x || (l >= c && out[l] == ms[l - c + y]);
    }
  }

  lemma ChainJoin(ms: seq<Mark>, x: nat, ins: seq<Mark>, y: nat)
    requires Chain(ms) && Chain(ins) && x <= y < |ms|
    requires x > 0 ==> Link(ms[x - 1], if ins == [] then ms[y] else ins[0])
    requires ins != [] ==> Link(ins[|ins| - 1], ms[y])
    ensures Chain(ms[..x] + ins + ms[y..])
  {
    hide Link;
    var out, c := ms[..x] + ins + ms[y..], x + |ins|;
    forall k | 0 <= k && k + 1 < |out| ensures Link(out[k], out[k + 1]) {
      if k + 1 < x {
        assert Link(ms[k], ms[k + 1]);
      } else if x <= k && k + 1 < c {
        assert Link(ins[k - x], ins[k - x + 1]);
      } else if k >= c {
        var l := k - c + y;
        assert Link(ms[l], ms[l + 1]);
      }
    }
  }

  /** A whole placeholder gives way to its span. */
  lemma WholeIsOrderly(t: Text, sp: seq<seq<Mark>>, ms: seq<Mark>, i: nat, n: nat, k: nat, e: nat)
    requires Orderly(t, sp, ms, i, n) && n != i && ArePieces(t, sp) && StandsAt(ms, k, e, i, sp) && !IsDirty(sp[i])
    requires forall j :: k - 3 <= j <= k ==> ms[j].Sign? && ms[j].off == 3 + j - k && ms[k].base <= ms[j].base
    ensures Orderly(t, sp, ms[..k - 3] + sp[i] + ms[e..], i + 1, n)
  {
    hide Tag, Link, Fits, NamesDiffer, AgesAgree;
    var x, span := k - 3, sp[i];
    assert IsPiece(t, sp, i, span);
    forall l | 0 <= l < |span| ensures Fits(t, sp, |sp|, span[l]) { FitsLonger(t, sp, sp, i, |sp|, span[l]); }
    BehindSpan(ms, k, e, i, sp);
    var c := if span == [] then ms[e] else span[0];
    if x > 0 {
      assert Link(ms[x - 1], ms[x - 1 + 1]);
      Bridge(ms[x - 1], ms[x], c);
    }
    ChainJoin(ms, x, span, e);
    var out := ms[..x] + span + ms[e..];
    assert x == 0 ==> out[0] == c;
    assert x > 0 ==> out[0] == ms[0];
    KeepsOrder(t, sp, ms, i, n, k, x, span, e);
  }

  /** A placeholder of an empty span, whose front is gone, gives way to the next, which loses its own. */
  lemma ShiftIsOrderly(t: Text, sp: seq<seq<Mark>>, ms: seq<Mark>, i: nat, n: nat, k: nat, e: nat, g: nat)
    requires Orderly(t, sp, ms, i, n) && n != i && StandsAt(ms, k, e, i, sp) && sp[i] == [] && ms[e].Sign?
    requires 0 < g && k - 3 < g <= k && forall j :: g <= j <= k ==> ms[j].Sign? && ms[j].off == 3 + j - k && ms[k].base <= ms[j].base
    ensures var y := e + (g - (k - 3));
            y < |ms| && Orderly(t, sp, ms[..g] + [] + ms[y..], i + 1, n)
            && Plain(ms[..g] + [] + ms[y..]) == Plain(ms[..k - 3]) + Plain(ms[e..])
  {
    hide Tag, Link, Fits, NamesDiffer, AgesAgree, CharOf, Plain, Chain;
    TextIsEnding(t, sp, |sp|, ms);
    var y := e + (g - (k - 3));
    NextGivesFront(sp, ms, i, k, e, g);
    ShiftChain(sp, ms, i, k, e, g);
    assert forall l :: g <= l < y && IsName(ms[l]) ==> l == k;
    assert (ms[..g] + [] + ms[y..])[0] == ms[0];
    KeepsOrder(t, sp, ms, i, n, k, g, [], y);
    SameUnderscores(ms, k, e, g);
  }

  /** Behind an empty span a placeholder stands whole. */
  lemma NextGivesFront(sp: seq<seq<Mark>>, ms: seq<Mark>, i: nat, k: nat, e: nat, g: nat)
    requires Chain(ms) && Closes(ms) && InTags(ms) && StandsAt(ms, k, e, i, sp) && sp[i] == [] && ms[e].Sign?
    requires k - 3 < g <= k
    ensures var y := e + (g - (k - 3));
            y < |ms| && forall j :: e <= j <= y ==> ms[j].Sign? && ms[j].off == j - e && ms[j].base <= ms[k].base
  {
    hide Tag, Link, Chain;
    BehindSpan(ms, k, e, i, sp);
    var l := LeadsToName(ms, e);
  }

  lemma ShiftChain(sp: seq<seq<Mark>>, ms: seq<Mark>, i: nat, k: nat, e: nat, g: nat)
    requires Chain(ms) && StandsAt(ms, k, e, i, sp) && 0 < g && k - 3 < g <= k
    requires ms[g].Sign? && ms[g].off == 3 + g - k && ms[k].base <= ms[g].base
    requires var y := e + (g - (k - 3)); y < |ms| && ms[y].Sign? && ms[y].off == y - e && ms[y].base <= ms[k].base
    ensures Chain(ms[..g] + [] + ms[e + (g - (k - 3))..])
  {
    hide Tag, Link;
    var y := e + (g - (k - 3));
    assert Link(ms[g - 1], ms[g - 1 + 1]);
    Bridge(ms[g - 1], ms[g], ms[y]);
    ChainJoin(ms, g, [], y);
  }

  lemma SameUnderscores(ms: seq<Mark>, k: nat, e: nat, g: nat)
    requires Chain(ms) && Opens(ms) && InTags(ms) && 3 <= k < e < |ms| && k - 3 < g <= k && IsName(ms[k]) && e + (g - (k - 3)) <= |ms|
    requires forall j :: e <= j < e + (g - (k - 3)) ==> ms[j].Sign? && ms[j].off == j - e
    ensures var y := e + (g - (k - 3)); Plain(ms[..g] + [] + ms[y..]) == Plain(ms[..k - 3]) + Plain(ms[e..])
  {
    hide Tag, Link, CharOf, Plain;
    var x := k - 3;
    var y := e + (g - x);
    Before(ms, k);
    LevelBeforeName(ms, k);
    UnderscoresBefore(ms, k - 1, 3);
    forall j | e <= j < y ensures CharOf(ms[j]) == UNDERSCORE { LevelIsUnderscore(ms[j]); }
    PlainParts(ms, x, g, |ms|);
    PlainConcat(ms[..g], ms[y..]);
    assert ms[..g] + [] + ms[y..] == ms[..g] + ms[y..];
    PlainConcat(ms[..x], ms[x..g]);
    assert ms[..g] == ms[..x] + ms[x..g];
    PlainConcat(ms[e..y], ms[y..]);
    assert ms[e..] == ms[e..y] + ms[y..];
    PlainAt(ms, x, g);
    PlainAt(ms, e, y);
    assert Plain(ms[x..g]) == Plain(ms[e..y]);
  }

  lemma LevelBeforeName(ms: seq<Mark>, k: nat)
    requires Chain(ms) && Opens(ms) && InTags(ms) && k < |ms| && IsName(ms[k])
    ensures k > 0 && ms[k - 1].Sign? && Level(ms[k - 1]) >= 3
  {
    Before(ms, k);
  }

  // ------------------------------------------------------------ a placeholder without its front

  ghost predicate AreTexts(sp: seq<seq<Mark>>, prot: seq<Text>) {
    |sp| == |prot| && forall k :: 0 <= k < |sp| ==> Plain(sp[k]) == prot[k]
  }

  /** The front of the placeholder was taken by a later match: restoring it takes the end of the
      placeholder for that match, or of what stands between the two. */
  lemma FrontlessIsLost(t: Text, sp: seq<seq<Mark>>, prot: seq<Text>, ms: seq<Mark>, i: nat, n: nat, k: nat, e: nat, g: nat)
    requires IsCalm(t) && Orderly(t, sp, ms, i, n) && ArePieces(t, sp) && AreTexts(sp, prot) && StandsAt(ms, k, e, i, sp)
    requires 0 < g && k - 3 < g <= k && IsLast(ms[g - 1]) && (forall j :: g <= j < k ==> ms[j].Sign? && !IsName(ms[j]))
    requires Unfolded(sp, i, ms, e)[0].Lit?
    ensures var X := Plain(ms[..k - 3]) + Plain(sp[i]) + Plain(ms[e..]); Stuck(X, i + 1) || Doomed(X, i + 1, prot)
  {
    hide Tag, Link, CharOf, Plain, Fits, NamesDiffer, AgesAgree, IsCalm, IsRegion, Body, Stuck, IsOpen, IsLiteral;
    TextIsEnding(t, sp, |sp|, ms);
    UnfoldedIsEnding(t, sp, ms, i, k, e);
    var b, s := Unfolded(sp, i, ms, e), g - (k - 3);
    LastIsLate(ms, g - 1);
    var kv := NameBefore(ms, g - 1);
    var e1 := WordIsCalm(t, b);
    var lit := Plain(b[..e1 + 1]);
    FrontCloses(ms, g);
    var r := RegionFrom(ms[..g], kv, s, lit);
    assert ms[..g][..|ms[..g]| - s] == ms[..k - 3] && ms[..g][..kv] == ms[..kv];
    var X := Plain(ms[..k - 3]) + Plain(sp[i]) + Plain(ms[e..]);
    JoinRegion(X, Plain(ms[..k - 3]), Plain(b), lit, Plain(b[e1 + 1..]), Plain(ms[..kv]), r);
    if IsOpen(r) {
      OpenIsLong(r);
      LaterName(t, sp, ms, i, n, k, kv);
      SwallowedComesBack(t, sp, prot, ms, kv, g, s, lit, r);
      assert IsAt(X, Plain(ms[..kv]), r, Plain(b[e1 + 1..]));
    } else {
      StuckAt(X, Plain(ms[..kv]), r, Plain(b[e1 + 1..]), i + 1);
    }
  }

  lemma LastIsLate(ms: seq<Mark>, l: nat)
    requires l < |ms| && IsLast(ms[l])
    ensures ms[l].off >= 3
  {
    TagChars(ms[l].tag);
  }

  lemma FrontCloses(ms: seq<Mark>, g: nat)
    requires Chain(ms) && InTags(ms) && 0 < g <= |ms| && IsLast(ms[g - 1])
    ensures Chain(ms[..g]) && InTags(ms[..g]) && Closes(ms[..g])
  {
    hide Link, Tag;
  }

  lemma JoinRegion(X: Text, A: Text, B: Text, lit: Text, T: Text, H: Text, r: Region)
    requires X == A + B && B == lit + T && A + lit == H + Body(r)
    ensures X == H + Body(r) + T
  {
    hide Body;
    assert X == (A + lit) + T;
  }

  lemma OpenIsLong(r: Region)
    requires IsOpen(r)
    ensures |r.behind| >= 3
  {
  }

  /** Another name that is still there is of a later tag. */
  lemma LaterName(t: Text, sp: seq<seq<Mark>>, ms: seq<Mark>, i: nat, n: nat, k: nat, kv: nat)
    requires Orderly(t, sp, ms, i, n) && kv < k < |ms| && IsName(ms[kv]) && IsName(ms[k]) && ms[k].tag == i
    ensures i < ms[kv].tag < |sp|
  {
    hide Tag, Link;
    assert Fits(t, sp, |sp|, ms[kv]);
    FitsInTag(t, sp, |sp|, ms[kv]);
  }

  /** Remains of a placeholder stand behind the one for the match that swallowed its name: restoring
      that one brings back an earlier name. */
  lemma SwallowedComesBack(t: Text, sp: seq<seq<Mark>>, prot: seq<Text>, ms: seq<Mark>, kv: nat, g: nat, s: nat, lit: Text, r: Region)
    requires IsText(t, sp, |sp|, ms) && ArePieces(t, sp) && AreTexts(sp, prot) && IsLiteral(lit)
    requires kv < g <= |ms| && IsName(ms[kv]) && IsLast(ms[g - 1]) && 0 < s <= 3
    requires forall l :: kv < l < g ==> ms[l].Sign? && !IsName(ms[l])
    requires var d := kv + 4 + |Decimal(ms[kv].tag)|; d <= g - s && r.behind == Plain(ms[..g][d..g - s])
    requires r.y == ms[kv].tag && r.lit == lit && |r.behind| >= 3
    ensures r.y < |prot| && Stuck(prot[r.y] + r.behind[3..] + r.lit, r.y + 1)
  {
    hide Tag, Link, CharOf, Plain, Fits, NamesDiffer, AgesAgree, Stuck, IsLiteral, Decimal, Chain, IsText, Closes, ArePieces;
    var v := ms[kv].tag;
    var q := StandsFrom(t, sp, ms, kv);
    var d := kv + 4 + |Decimal(v)|;
    SliceIsLong(ms, d, g, s);
    TagLength(v);
    assert q == d + 3;
    BehindFrom(ms, d, g, s);
    RemainsJoin(t, sp, ms, kv, q, g, s, lit);
  }

  lemma TagLength(n: nat)
    ensures |Tag(n)| == 10 + |Decimal(n)|
  {
  }

  lemma RemainsJoin(t: Text, sp: seq<seq<Mark>>, ms: seq<Mark>, kv: nat, q: nat, g: nat, s: nat, lit: Text)
    requires IsText(t, sp, |sp|, ms) && ArePieces(t, sp) && IsLiteral(lit) && kv < q < g <= |ms| && q + s <= g
    requires IsName(ms[kv]) && IsLast(ms[g - 1]) && s <= 3 && StandsAt(ms, kv, q, ms[kv].tag, sp)
    requires forall l :: kv < l < g ==> ms[l].Sign? && !IsName(ms[l])
    ensures Stuck(Plain(sp[ms[kv].tag]) + Plain(ms[q..g - s]) + lit, ms[kv].tag + 1)
  {
    TextIsEnding(t, sp, |sp|, ms);
    hide Tag, Link, CharOf, Plain, Fits, NamesDiffer, AgesAgree, Stuck, IsLiteral, Chain, IsText, InTags, Closes, StandsAt;
    var v := ms[kv].tag;
    StandsInside(ms, kv, q, sp);
    RemainsBehind(ms, q, g);
    var j := NameInSpan(t, sp, ms, kv, q);
    JoinedChain(t, sp, ms, kv, q, g);
    assert IsPiece(t, sp, v, sp[v]);
    PieceFits(t, sp, v, sp[v]);
    JoinIsStuck(sp[v], ms, q, g, j, s, lit, v + 1);
  }

  lemma JoinIsStuck(span: seq<Mark>, ms: seq<Mark>, q: nat, g: nat, j: nat, s: nat, lit: Text, n: nat)
    requires q + s <= g <= |ms| && s <= 3 && IsLiteral(lit) && j < |span| && IsName(span[j]) && span[j].tag < n
    requires forall l :: j < l < |span| ==> span[l].Sign? && !IsName(span[l])
    requires forall l :: q <= l < g ==> ms[l].Sign? && !IsName(ms[l])
    requires var a := span + ms[q..g]; Chain(a) && InTags(a) && Closes(a)
    ensures Stuck(Plain(span) + Plain(ms[q..g - s]) + lit, n)
  {
    hide Tag, Link, CharOf, Plain, Stuck, IsLiteral, Chain, InTags, Closes;
    var a := span + ms[q..g];
    forall l | j < l < |a| ensures a[l].Sign? && !IsName(a[l]) {
      if l >= |span| { assert a[l] == ms[q + (l - |span|)]; }
    }
    assert a[..|a| - s] == span + ms[q..g - s];
    PlainConcat(span, ms[q..g - s]);
    CutNameIsStuck(a, j, s, lit, n);
  }

  lemma StandsInside(ms: seq<Mark>, kv: nat, q: nat, sp: seq<seq<Mark>>)
    requires kv < |ms| && IsName(ms[kv]) && StandsAt(ms, kv, q, ms[kv].tag, sp)
    ensures ms[kv].tag < |sp| && kv < q
  {
  }

  lemma SliceIsLong(ms: seq<Mark>, d: nat, g: nat, s: nat)
    requires g <= |ms| && s <= g && d <= g - s && |Plain(ms[..g][d..g - s])| >= 3
    ensures d + 3 <= g - s
  {
  }

  lemma CutNameIsStuck(a: seq<Mark>, j: nat, s: nat, lit: Text, n: nat)
    requires Chain(a) && InTags(a) && Closes(a) && IsLiteral(lit) && s <= 3 && s <= |a|
    requires j < |a| && IsName(a[j]) && a[j].tag < n && forall k :: j < k < |a| ==> a[k].Sign? && !IsName(a[k])
    ensures Stuck(Plain(a[..|a| - s]) + lit, n)
  {
    hide Tag, Link, CharOf, Plain, Stuck, IsLiteral, Decimal, IsRegion, Body;
    var r := RegionFrom(a, j, s, lit);
    var X := Plain(a[..|a| - s]) + lit;
    assert X == Plain(a[..j]) + Body(r) + [];
    StuckAt(X, Plain(a[..j]), r, [], n);
  }

  lemma BehindFrom(ms: seq<Mark>, d: nat, g: nat, s: nat)
    requires d + 3 <= g - s && g <= |ms|
    ensures Plain(ms[..g][d..g - s])[3..] == Plain(ms[d + 3..g - s])
  {
    hide CharOf, Plain;
    var a := ms[d..g - s];
    assert ms[..g][d..g - s] == a && a[3..|a|] == ms[d + 3..g - s];
    PlainSlice(a, 3, |a|);
    assert Plain(a)[3..|a|] == Plain(a)[3..];
  }

  /** What stands there is no front of a placeholder. */
  lemma RemainsBehind(ms: seq<Mark>, q: nat, g: nat)
    requires Chain(ms) && Closes(ms) && InTags(ms) && q < g <= |ms| && IsLast(ms[g - 1])
    requires forall l :: q <= l < g ==> ms[l].Sign? && !IsName(ms[l])
    ensures ms[q].off > 3
  {
    LastIsLate(ms, g - 1);
    TagChars(ms[g - 1].tag);
    if ms[q].off <= 3 {
      var l := LeadsToName(ms, q);
    }
  }

  lemma NameInSpan(t: Text, sp: seq<seq<Mark>>, ms: seq<Mark>, kv: nat, q: nat) returns (j: nat)
    requires IsText(t, sp, |sp|, ms) && ArePieces(t, sp) && kv < |ms| && IsName(ms[kv]) && StandsAt(ms, kv, q, ms[kv].tag, sp)
    requires ms[q].Sign? && ms[q].off > 3
    ensures var span := sp[ms[kv].tag];
            j < |span| && IsName(span[j]) && forall l :: j < l < |span| ==> span[l].Sign? && !IsName(span[l])
  {
    hide Fits, NamesDiffer, AgesAgree, Tag;
    var v := ms[kv].tag;
    BehindSpan(ms, kv, q, v, sp);
    var span := sp[v];
    assert IsPiece(t, sp, v, span);
    PieceFits(t, sp, v, span);
    BeforeRemains(span[|span| - 1], ms[q]);
    j := NameBefore(span, |span| - 1);
  }

  lemma BeforeRemains(a: Mark, b: Mark)
    requires Link(a, b) && b.Sign? && b.off > 3 && (a.Sign? ==> a.off < |Tag(a.tag)|)
    ensures a.Sign? && a.off >= 3
  {
    if a.Sign? { TagChars(a.tag); }
  }

  lemma JoinedChain(t: Text, sp: seq<seq<Mark>>, ms: seq<Mark>, kv: nat, q: nat, g: nat)
    requires IsText(t, sp, |sp|, ms) && ArePieces(t, sp) && kv < |ms| && IsName(ms[kv]) && StandsAt(ms, kv, q, ms[kv].tag, sp)
    requires q < g <= |ms| && IsLast(ms[g - 1])
    ensures var a := sp[ms[kv].tag] + ms[q..g]; Chain(a) && InTags(a) && Closes(a)
  {
    var v := ms[kv].tag;
    UnfoldedIsEnding(t, sp, ms, v, kv, q);
    hide Tag, Link, Fits, NamesDiffer, AgesAgree, Plain;
    var cs, m := Unfolded(sp, v, ms, q), |sp[v]| + (g - q);
    assert sp[v] + ms[q..g] == cs[..m];
    assert cs[m - 1] == ms[g - 1];
    FrontCloses(cs, m);
  }

  // ------------------------------------------------------------ all tags are restored

  /** Restoring one tag leaves the text orderly, or spoils it for good. */
  lemma Step(t: Text, sp: seq<seq<Mark>>, prot: seq<Text>, ms: seq<Mark>, i: nat, n: nat) returns (out: seq<Mark>)
    requires IsCalm(t) && Orderly(t, sp, ms, i, n) && ArePieces(t, sp) && AreTexts(sp, prot) && i <= n < |sp| && IsDirty(sp[n])
    ensures var X := ReplaceAll(Plain(ms), Tag(i), prot[i]);
            Stuck(X, i + 1) || Doomed(X, i + 1, prot) || (i < n && Orderly(t, sp, out, i + 1, n) && Plain(out) == X)
  {
    hide Tag, Link, CharOf, Plain, Fits, NamesDiffer, AgesAgree, IsCalm, Stuck, Doomed, ReplaceAll, IsText;
    out := ms;
    if HasName(ms, i) {
      var k, e := Standing(t, sp, ms, i);
      ReplacedOnce(t, sp, ms, k, prot[i]);
      if IsDirty(sp[i]) {
        DirtyIsStuck(t, sp, ms, i, n, k, e);
      } else {
        out := CleanStep(t, sp, prot, ms, i, n, k, e);
      }
    } else {
      ReplacedNowhere(t, sp, ms, i, prot[i]);
    }
  }

  lemma CleanStep(t: Text, sp: seq<seq<Mark>>, prot: seq<Text>, ms: seq<Mark>, i: nat, n: nat, k: nat, e: nat) returns (out: seq<Mark>)
    requires IsCalm(t) && Orderly(t, sp, ms, i, n) && ArePieces(t, sp) && AreTexts(sp, prot) && n != i
    requires StandsAt(ms, k, e, i, sp) && !IsDirty(sp[i])
    ensures var X := Plain(ms[..k - 3]) + Plain(sp[i]) + Plain(ms[e..]);
            Stuck(X, i + 1) || Doomed(X, i + 1, prot) || (Orderly(t, sp, out, i + 1, n) && Plain(out) == X)
  {
    hide Tag, Link, CharOf, Plain, Fits, NamesDiffer, AgesAgree, IsCalm, Stuck, Doomed, ArePieces, AllFit;
    TextIsEnding(t, sp, |sp|, ms);
    var g := FirstBefore(ms, k);
    out := ms;
    if ms[g].off == 0 {
      assert g == k - 3;
      WholeIsOrderly(t, sp, ms, i, n, k, e);
      out := ms[..k - 3] + sp[i] + ms[e..];
      PlainConcat(ms[..k - 3], sp[i]);
      PlainConcat(ms[..k - 3] + sp[i], ms[e..]);
    } else if sp[i] == [] && ms[e].Sign? {
      ShiftIsOrderly(t, sp, ms, i, n, k, e, g);
      out := ms[..g] + [] + ms[e + (g - (k - 3))..];
      NothingBetween(Plain(ms[..k - 3]), sp[i], Plain(ms[e..]));
    } else {
      assert ms[g].off == 3 + g - k;
      FrontlessIsLost(t, sp, prot, ms, i, n, k, e, g);
    }
  }

  lemma NothingBetween(a: Text, span: seq<Mark>, b: Text)
    requires span == []
    ensures a + Plain(span) + b == a + b
  {
  }

  lemma {:induction false} Run(t: Text, sp: seq<seq<Mark>>, prot: seq<Text>, ms: seq<Mark>, i: nat, n: nat)
    requires IsCalm(t) && Orderly(t, sp, ms, i, n) && ArePieces(t, sp) && AreTexts(sp, prot) && i <= n < |sp| && IsDirty(sp[n])
    ensures !NoProt(Restored(Plain(ms), prot, i))
    decreases n - i
  {
    hide Tag, Link, Plain, Orderly, ArePieces, IsCalm, Stuck, Doomed, ReplaceAll, NoProt, IsDirty;
    var X := ReplaceAll(Plain(ms), Tag(i), prot[i]);
    var out := Step(t, sp, prot, ms, i, n);
    if Stuck(X, i + 1) {
      StuckRun(X, prot, i + 1);
    } else if Doomed(X, i + 1, prot) {
      DoomedRun(X, prot, i + 1);
    } else {
      Run(t, sp, prot, out, i + 1, n);
    }
  }
}
