/** Risky spans are taken out of a text before it is normalized, and put back afterwards. */
module Placeholders {
  import opened Spaces

  // ------------------------------------------------------------ tags

  const PROT: Text := [0x50, 0x52, 0x4F, 0x54]

  function Decimal(n: nat): (d: Text)
    ensures |d| > 0 && forall k :: 0 <= k < |d| ==> IsAsciiDigit(d[k])
  {
    if n < 10 then [0x30 + n] else Decimal(n / 10) + [0x30 + n % 10]
  }

  function ValueOf(d: Text): int {
    if d == [] then 0 else 10 * ValueOf(d[..|d| - 1]) + d[|d| - 1] - 0x30
  }

  lemma {:induction false} DecimalRoundTrip(n: nat)
    ensures ValueOf(Decimal(n)) == n
  {
    if n < 10 {
      assert Decimal(n)[..0] == [];
    } else {
      DecimalRoundTrip(n / 10);
      assert Decimal(n)[..|Decimal(n)| - 1] == Decimal(n / 10);
    }
  }

  /** The placeholder for span 'n'. */
  function Tag(n: nat): (t: Text)
    ensures |t| == 10 + |Decimal(n)|
  {
    PROTECT_PREFIX + Decimal(n) + TAG_END
  }

  predicate StartsWith(s: Text, w: Text) { |w| <= |s| && s[..|w|] == w }

  predicate ProtAt(s: Text, q: nat) { q + 4 <= |s| && s[q..q + 4] == PROT }

  ghost predicate NoProt(s: Text) {
    forall q: nat :: !ProtAt(s, q)
  }

  /** The characters of a tag, by position. */
  lemma TagChars(n: nat)
    ensures var t, d := Tag(n), |Decimal(n)|;
            && t[0] == t[1] == t[2] == UNDERSCORE && t[3] == 0x50 && t[4] == 0x52 && t[5] == 0x4F && t[6] == 0x54
            && t[7 + d] == t[8 + d] == t[9 + d] == UNDERSCORE
            && forall k :: 0 <= k < d ==> t[7 + k] == Decimal(n)[k] && IsAsciiDigit(t[7 + k])
  {
    var t := Tag(n);
    assert t[..7] == PROTECT_PREFIX;
    assert forall k :: 0 <= k < 7 ==> t[k] == PROTECT_PREFIX[k];
  }

  lemma StartsWithAt(s: Text, w: Text, k: nat)
    requires StartsWith(s, w) && k < |w|
    ensures s[k] == w[k]
  {
    assert s[..|w|][k] == s[k];
  }

  lemma ProtAtChars(s: Text, q: nat)
    ensures ProtAt(s, q) <==> q + 4 <= |s| && s[q] == 0x50 && s[q + 1] == 0x52 && s[q + 2] == 0x4F && s[q + 3] == 0x54
  {
    if q + 4 <= |s| {
      var w := s[q..q + 4];
      assert w == [s[q], s[q + 1], s[q + 2], s[q + 3]];
    }
  }

  /** A tag is told from others by its number, whatever follows. */
  lemma TagIsUnique(i: nat, j: nat, rest: Text)
    ensures StartsWith(Tag(j) + rest, Tag(i)) <==> i == j
  {
    var s := Tag(j) + rest;
    if StartsWith(s, Tag(i)) {
      TagChars(i);
      TagChars(j);
      var a, b := |Decimal(i)|, |Decimal(j)|;
      if a < b { StartsWithAt(s, Tag(i), 7 + a); }
      if b < a { StartsWithAt(s, Tag(i), 7 + b); }
      assert a == b;
      SameDigits(i, j, rest);
      DecimalRoundTrip(i);
      DecimalRoundTrip(j);
    }
    if i == j { assert s[..|Tag(j)|] == Tag(j); }
  }

  lemma SameDigits(i: nat, j: nat, rest: Text)
    requires StartsWith(Tag(j) + rest, Tag(i)) && |Decimal(i)| == |Decimal(j)|
    ensures Decimal(i) == Decimal(j)
  {
    TagChars(i);
    TagChars(j);
    forall k | 0 <= k < |Decimal(i)| ensures Decimal(i)[k] == Decimal(j)[k] {
      StartsWithAt(Tag(j) + rest, Tag(i), 7 + k);
    }
  }

  /** A tag reads as a placeholder of its own length. */
  lemma TagIsToken(n: nat, rest: Text)
    ensures TokenLength(Tag(n) + rest) == |Tag(n)|
  {
    var s := Tag(n) + rest;
    var d := |Decimal(n)|;
    TagChars(n);
    assert s[..7] == PROTECT_PREFIX;
    DigitsUpTo(s, 7, 7 + d);
    assert s[7 + d..10 + d] == TAG_END;
  }

  lemma {:induction false} DigitsUpTo(s: Text, i: nat, e: nat)
    requires i <= e < |s| && !IsAsciiDigit(s[e]) && forall k :: i <= k < e ==> IsAsciiDigit(s[k])
    ensures AfterDigits(s, i) == e
    decreases e - i
  {
    if i < e { DigitsUpTo(s, i + 1, e); }
  }

  // ------------------------------------------------------------ protecting

  datatype Span = Span(pos: nat, len: nat)

  /** A pattern finds spans of a text; which ones is left open. */
  type Matcher = Text -> seq<Span>

  /** Matches come in order, do not overlap, and lie in the text. */
  ghost predicate AreMatches(s: Text, spans: seq<Span>) {
    && (forall i :: 0 <= i < |spans| ==> spans[i].pos + spans[i].len <= |s|)
    && (forall i, j :: 0 <= i < j < |spans| ==> spans[i].pos + spans[i].len <= spans[j].pos)
  }

  ghost predicate AreMatchers(matchers: seq<Matcher>) {
    forall i, s :: 0 <= i < |matchers| ==> AreMatches(s, matchers[i](s))
  }

  predicate IsWordChar(c: int) {
    IsAsciiDigit(c) || 0x41 <= c <= 0x5A || 0x61 <= c <= 0x7A || c == UNDERSCORE
  }

  /** A match right after a word character is passed over. */
  predicate Skipped(s: Text, m: Span)
    requires m.pos <= |s|
  {
    m.pos > 0 && IsWordChar(s[m.pos - 1])
  }

  /** The text from 'last' on with tags for the matches, and the protected spans. */
  function Replaced(s: Text, spans: seq<Span>, last: nat, prot: seq<Text>): (Text, seq<Text>)
    requires AreMatches(s, spans) && last <= |s| && (spans != [] ==> last <= spans[0].pos)
    decreases |spans|
  {
    if spans == [] then (s[last..], prot)
    else
      var m := spans[0];
      if Skipped(s, m) then Replaced(s, spans[1..], last, prot)
      else
        var r := Replaced(s, spans[1..], m.pos + m.len, prot + [s[m.pos..m.pos + m.len]]);
        (s[last..m.pos] + Tag(|prot|) + r.0, r.1)
  }

  /** All passes. */
  function Protected(s: Text, matchers: seq<Matcher>, prot: seq<Text>): (Text, seq<Text>)
    requires AreMatchers(matchers)
    decreases |matchers|
  {
    if matchers == [] then (s, prot)
    else
      var r := Replaced(s, matchers[0](s), 0, prot);
      Protected(r.0, matchers[1..], r.1)
  }

  lemma ReplacedStep(s: Text, spans: seq<Span>, last: nat, prot: seq<Text>, result: Text)
    requires AreMatches(s, spans) && last <= |s| && spans != [] && last <= spans[0].pos
    ensures AreMatches(s, spans[1..]) && spans[0].pos + spans[0].len <= |s|
    ensures |spans| > 1 ==> spans[0].pos + spans[0].len <= spans[1].pos
    ensures var m := spans[0];
            var r, r1 := Replaced(s, spans, last, prot), Replaced(s, spans[1..], last, prot);
            Skipped(s, m) ==> r.0 == r1.0 && r.1 == r1.1
    ensures var m := spans[0];
            var r, r1 := Replaced(s, spans, last, prot),
                         Replaced(s, spans[1..], m.pos + m.len, prot + [s[m.pos..m.pos + m.len]]);
            !Skipped(s, m) ==> result + r.0 == result + s[last..m.pos] + Tag(|prot|) + r1.0 && r.1 == r1.1
  {
  }

  method Replace(s: Text, spans: seq<Span>, prot0: seq<Text>) returns (result: Text, prot: seq<Text>)
    requires AreMatches(s, spans)
    ensures result == Replaced(s, spans, 0, prot0).0 && prot == Replaced(s, spans, 0, prot0).1
  {
    hide Replaced, Tag, IsWordChar, AreMatches;
    result, prot := [], prot0;
    var last: nat, i: nat := 0, 0;
    assert spans[0..] == spans;
    assert [] + Replaced(s, spans, 0, prot0).0 == Replaced(s, spans, 0, prot0).0;
    while i < |spans|
      invariant i <= |spans| && last <= |s| && (i < |spans| ==> last <= spans[i].pos)
      invariant AreMatches(s, spans[i..])
      invariant Replaced(s, spans, 0, prot0).0 == result + Replaced(s, spans[i..], last, prot).0
      invariant Replaced(s, spans, 0, prot0).1 == Replaced(s, spans[i..], last, prot).1
    {
      var m := spans[i];
      assert spans[i..][0] == m && spans[i..][1..] == spans[i + 1..];
      ReplacedStep(s, spans[i..], last, prot, result);
      i := i + 1;
      if m.pos > 0 {
        if IsWordChar(s[m.pos - 1]) { continue; }
      }
      result := result + s[last..m.pos];
      var idx := |prot|;
      prot := prot + [s[m.pos..m.pos + m.len]];
      result := result + Tag(idx);
      last := m.pos + m.len;
    }
    ReplacedEnd(s, spans[i..], last, prot);
    result := result + s[last..];
  }

  lemma ReplacedEnd(s: Text, spans: seq<Span>, last: nat, prot: seq<Text>)
    requires AreMatches(s, spans) && last <= |s| && spans == []
    ensures Replaced(s, spans, last, prot).0 == s[last..] && Replaced(s, spans, last, prot).1 == prot
  {
  }

  method ProtectSpans(text: Text, matchers: seq<Matcher>) returns (s: Text, prot: seq<Text>)
    requires AreMatchers(matchers)
    ensures s == Protected(text, matchers, []).0 && prot == Protected(text, matchers, []).1
  {
    s, prot := text, [];
    var i := 0;
    assert matchers[0..] == matchers;
    while i < |matchers|
      invariant i <= |matchers| && AreMatchers(matchers[i..])
      invariant Protected(s, matchers[i..], prot) == Protected(text, matchers, [])
    {
      assert matchers[i..][1..] == matchers[i + 1..];
      s, prot := Replace(s, matchers[i](s), prot);
      i := i + 1;
    }
  }

  // ------------------------------------------------------------ restoring

  /** Every occurrence of a tag, from left to right, replaced by the span. */
  function ReplaceAll(s: Text, tag: Text, span: Text): Text
    requires tag != []
    decreases |s|
  {
    if s == [] then []
    else if StartsWith(s, tag) then span + ReplaceAll(s[|tag|..], tag, span)
    else [s[0]] + ReplaceAll(s[1..], tag, span)
  }

  /** Tags from number 'i' on, in order. */
  function Restored(s: Text, prot: seq<Text>, i: nat): Text
    requires i <= |prot|
    decreases |prot| - i
  {
    if i == |prot| then s else Restored(ReplaceAll(s, Tag(i), prot[i]), prot, i + 1)
  }

  /** The text does not occur from 'pos' up to 'p'. */
  ghost predicate NoneBetween(s: Text, w: Text, pos: nat, p: nat) {
    forall k :: pos <= k < p && k <= |s| ==> !StartsWith(s[k..], w)
  }

  /** The first occurrence of a text from 'pos' on, or -1. */
  method Find(s: Text, w: Text, pos: nat) returns (p: int)
    requires pos <= |s| && w != []
    ensures p == -1 ==> NoneBetween(s, w, pos, |s| + 1)
    ensures p != -1 ==> pos <= p <= |s| - |w| && StartsWith(s[p..], w) && NoneBetween(s, w, pos, p)
  {
    p := pos;
    while p < |s|
      invariant pos <= p <= |s|
      invariant NoneBetween(s, w, pos, p)
    {
      if StartsWith(s[p..], w) { return; }
      p := p + 1;
    }
    return -1;
  }

  /** Nothing is replaced before the first occurrence. */
  lemma {:induction false} ReplaceAllSkip(s: Text, tag: Text, span: Text, p: nat)
    requires tag != [] && p <= |s| && forall k :: 0 <= k < p ==> !StartsWith(s[k..], tag)
    ensures ReplaceAll(s, tag, span) == s[..p] + ReplaceAll(s[p..], tag, span)
    decreases p
  {
    if p == 0 {
      assert s[0..] == s;
    } else {
      assert s[0..] == s;
      forall k | 0 <= k < p - 1 ensures !StartsWith(s[1..][k..], tag) { assert s[1..][k..] == s[k + 1..]; }
      ReplaceAllSkip(s[1..], tag, span, p - 1);
      assert s[1..][p - 1..] == s[p..];
      assert s[..p] == [s[0]] + s[1..][..p - 1];
    }
  }

  method RestoreSpans(text: Text, prot: seq<Text>) returns (s: Text)
    ensures s == Restored(text, prot, 0)
  {
    s := text;
    var i := 0;
    while i < |prot|
      invariant i <= |prot| && Restored(s, prot, i) == Restored(text, prot, 0)
    {
      var s2 := RestoreOne(s, Tag(i), prot[i]);
      s := s2;
      i := i + 1;
    }
  }

  /** Replaces in place, going on behind what was put in. */
  method RestoreOne(s0: Text, tag: Text, span: Text) returns (s: Text)
    requires tag != []
    ensures s == ReplaceAll(s0, tag, span)
  {
    hide StartsWith, NoneBetween, ReplaceAll;
    s := s0;
    var pos: nat := 0;
    ghost var front, rest := [], s0;
    while true
      invariant s == front + rest && pos == |front|
      invariant front + ReplaceAll(rest, tag, span) == ReplaceAll(s0, tag, span)
      decreases |rest|
    {
      var p := Find(s, tag, pos);
      if p == -1 {
        FoundNone(s, front, rest, tag, span);
        break;
      }
      ghost var b, c := rest[..p - pos], rest[p - pos + |tag|..];
      FoundOne(s, front, rest, tag, span, p - pos);
      s := s[..p] + span + s[p + |tag|..];
      pos := p + |span|;
      front, rest := front + b + span, c;
    }
  }

  lemma FoundNone(s: Text, front: Text, rest: Text, tag: Text, span: Text)
    requires tag != [] && s == front + rest && NoneBetween(s, tag, |front|, |s| + 1)
    ensures front + ReplaceAll(rest, tag, span) == s
  {
    hide StartsWith, NoneBetween, ReplaceAll;
    NoneBetweenDrop(s, tag, |front|, |s| + 1);
    assert s[|front|..] == rest;
    NoneToEnd(rest, tag, span);
  }

  lemma FoundOne(s: Text, front: Text, rest: Text, tag: Text, span: Text, k: nat)
    requires tag != [] && s == front + rest && k + |tag| <= |rest|
    requires StartsWith(s[|front| + k..], tag) && NoneBetween(s, tag, |front|, |front| + k)
    ensures var p, b, c := |front| + k, rest[..k], rest[k + |tag|..];
            && s[..p] + span + s[p + |tag|..] == front + b + span + c
            && front + b + span + ReplaceAll(c, tag, span) == front + ReplaceAll(rest, tag, span)
  {
    hide StartsWith, NoneBetween, ReplaceAll;
    NoneBetweenDrop(s, tag, |front|, |front| + k);
    assert s[|front|..] == rest;
    assert s[|front| + k..] == rest[k..];
    ReplaceFound(rest, tag, span, k);
    var p, b, c := |front| + k, rest[..k], rest[k + |tag|..];
    assert s[..p] == front + b;
    assert s[p + |tag|..] == c;
    Glue(front, b, span, ReplaceAll(c, tag, span));
  }

  lemma Glue(a: Text, b: Text, c: Text, d: Text)
    ensures a + b + c + d == a + (b + c + d)
  {
  }

  lemma NoneBetweenDrop(s: Text, w: Text, pos: nat, p: nat)
    requires pos <= p && pos <= |s| && NoneBetween(s, w, pos, p)
    ensures NoneBetween(s[pos..], w, 0, p - pos)
  {
    forall j | 0 <= j < p - pos && j <= |s[pos..]| ensures !StartsWith(s[pos..][j..], w) {
      SliceTwice(s, pos, j);
    }
  }

  lemma NoneToEnd(r: Text, tag: Text, span: Text)
    requires tag != [] && NoneBetween(r, tag, 0, |r| + 1)
    ensures ReplaceAll(r, tag, span) == r
  {
    ReplaceAllSkip(r, tag, span, |r|);
    hide StartsWith;
    assert r[|r|..] == [] && r[..|r|] == r;
  }

  lemma ReplaceFound(r: Text, tag: Text, span: Text, k: nat)
    requires tag != [] && k <= |r| && StartsWith(r[k..], tag) && k + |tag| <= |r|
    requires NoneBetween(r, tag, 0, k)
    ensures ReplaceAll(r, tag, span) == r[..k] + span + ReplaceAll(r[k + |tag|..], tag, span)
  {
    ReplaceAllSkip(r, tag, span, k);
    hide StartsWith;
    SliceTwice(r, k, |tag|);
  }

  lemma SliceTwice(s: Text, pos: nat, k: nat)
    requires pos + k <= |s|
    ensures s[pos..][k..] == s[pos + k..] && s[..pos] + s[pos..][..k] == s[..pos + k]
  {
  }

  /** The text of 'w' stands at position 'k'. */
  predicate OccursAt(s: Text, w: Text, k: nat) { k + |w| <= |s| && s[k..k + |w|] == w }

  /** The first occurrence of a tag is replaced, and the text behind it is searched on its own. */
  lemma ReplacesFirst(s: Text, tag: Text, span: Text, k: nat)
    requires tag != [] && OccursAt(s, tag, k) && forall j: nat :: j < k ==> !OccursAt(s, tag, j)
    ensures ReplaceAll(s, tag, span) == s[..k] + span + ReplaceAll(s[k + |tag|..], tag, span)
  {
    OccursIsStart(s, tag, k);
    forall j | 0 <= j < k && j <= |s| ensures !StartsWith(s[j..], tag) { OccursIsStart(s, tag, j); }
    ReplaceFound(s, tag, span, k);
  }

  /** A text without the tag stays as it is. */
  lemma ReplacesNothing(s: Text, tag: Text, span: Text)
    requires tag != [] && forall j: nat :: !OccursAt(s, tag, j)
    ensures ReplaceAll(s, tag, span) == s
  {
    forall j | 0 <= j <= |s| ensures !StartsWith(s[j..], tag) { OccursIsStart(s, tag, j); }
    NoneToEnd(s, tag, span);
  }

  lemma OccursIsStart(s: Text, w: Text, k: nat)
    requires k <= |s|
    ensures StartsWith(s[k..], w) <==> OccursAt(s, w, k)
  {
    if k + |w| <= |s| { assert s[k..][..|w|] == s[k..k + |w|]; }
  }
}
