/** Where the characters of a protected text come from: each is a character of the original text or
of a placeholder. Kept beside every text and every protected span, this shows what neighbours a
character can have while the passes go on, and when the placeholders are taken out again.
*/
module PlaceholderMarks {
  import opened Spaces
  import opened Placeholders

  /** A character with its origin: position 'pos' of the original text, or position 'off' of the
      placeholder 'tag'. A placeholder remembers how many there were before its pass began ('base')
      and what the span it stands for ended in. */
  datatype Mark = Lit(c: int, pos: nat) | Sign(tag: nat, off: nat, base: nat, end: End)

  datatype End = Nothing | After(mark: Mark)

  /** Put behind every text: no character of a word. */
  const STOP: int := 0x0A

  function CharOf(m: Mark): int {
    match m
    case Lit(c, _) => c
    case Sign(tag, off, _, _) => if off < |Tag(tag)| then Tag(tag)[off] else STOP
  }

  function Plain(ms: seq<Mark>): (s: Text)
    ensures |s| == |ms|
  {
    seq(|ms|, k requires 0 <= k < |ms| => CharOf(ms[k]))
  }

  lemma PlainConcat(a: seq<Mark>, b: seq<Mark>)
    ensures Plain(a + b) == Plain(a) + Plain(b)
  {
    hide CharOf;
  }

  lemma PlainSlice(ms: seq<Mark>, p: nat, q: nat)
    requires p <= q <= |ms|
    ensures Plain(ms[p..q]) == Plain(ms)[p..q]
  {
    hide CharOf;
  }

  function EndOf(span: seq<Mark>): End {
    if span == [] then Nothing else After(span[|span| - 1])
  }

  function TagMarks(n: nat, base: nat, end: End): (ms: seq<Mark>)
    ensures |ms| == |Tag(n)|
  {
    seq(|Tag(n)|, k requires 0 <= k => Sign(n, k, base, end))
  }

  lemma PlainTag(n: nat, base: nat, end: End)
    ensures Plain(TagMarks(n, base, end)) == Tag(n)
  {
  }

  /** The last character of a placeholder. */
  predicate IsLast(m: Mark) { m.Sign? && m.off + 1 == |Tag(m.tag)| }

  /** The P of a placeholder, by which it is known. */
  predicate IsName(m: Mark) { m.Sign? && m.off == 3 }

  /** 'b' may stand behind 'a'. Letters of a word go on as in the original text; a placeholder
      stands behind no word; a placeholder goes on to its end, where underscores before the name are
      as good as those of another; and behind its end stands what may stand behind its span, but no
      placeholder of a later pass. */
  predicate Link(a: Mark, b: Mark) {
    match a
    case Lit(c, pos) =>
      if b.Lit? then IsWordChar(c) ==> b.pos == pos + 1 else b.off == 0 && !IsWordChar(c)
    case Sign(tag, off, base, end) =>
      if off + 1 < |Tag(tag)| then
        b.Sign? && b.off == off + 1 && b.base <= base && (off >= 3 ==> b == Sign(tag, off + 1, base, end))
      else
        (b.Sign? ==> b.base <= base) &&
        match end
        case Nothing => b.Lit? || b.off == 0
        case After(e) => Link(e, b)
  }

  ghost predicate Chain(ms: seq<Mark>) {
    forall k :: 0 <= k && k + 1 < |ms| ==> Link(ms[k], ms[k + 1])
  }

  /** A text, or a span taken out of one, does not begin inside a placeholder. */
  predicate Opens(ms: seq<Mark>) { ms != [] ==> ms[0].Lit? || ms[0].off == 0 }

  /** 'm' is a character of the text or of one of the first 'n' placeholders. */
  ghost predicate Fits(t: Text, sp: seq<seq<Mark>>, n: nat, m: Mark) {
    match m
    case Lit(c, pos) => pos <= |t| && c == (t + [STOP])[pos]
    case Sign(tag, off, base, end) =>
      tag < n && tag < |sp| && off < |Tag(tag)| && base <= tag && end == EndOf(sp[tag]) &&
      (end.After? && end.mark.Sign? ==> end.mark.tag < base && end.mark.base <= end.mark.tag)
  }

  ghost predicate AllFit(t: Text, sp: seq<seq<Mark>>, n: nat, ms: seq<Mark>) {
    forall k :: 0 <= k < |ms| ==> Fits(t, sp, n, ms[k])
  }

  /** A recorded span: it was a piece of a text whose placeholders had smaller numbers. */
  ghost predicate IsPiece(t: Text, sp: seq<seq<Mark>>, n: nat, span: seq<Mark>) {
    Chain(span) && Opens(span) && AllFit(t, sp, n, span)
  }

  ghost predicate ArePieces(t: Text, sp: seq<seq<Mark>>) {
    forall n :: 0 <= n < |sp| ==> IsPiece(t, sp, n, sp[n])
  }

  ghost predicate NamesDiffer(ms: seq<Mark>) {
    forall k, l :: 0 <= k < l < |ms| && IsName(ms[k]) && IsName(ms[l]) ==> ms[k].tag != ms[l].tag
  }

  /** Placeholders of an earlier pass have smaller numbers. */
  ghost predicate AgesAgree(ms: seq<Mark>) {
    forall k, l :: 0 <= k < |ms| && 0 <= l < |ms| && ms[k].Sign? && ms[l].Sign? && ms[k].base < ms[l].base ==>
      ms[k].tag < ms[l].base
  }

  predicate HasName(ms: seq<Mark>, n: nat) {
    exists k :: 0 <= k < |ms| && IsName(ms[k]) && ms[k].tag == n
  }

  /** The span holds part of a placeholder. */
  predicate IsDirty(span: seq<Mark>) {
    exists k :: 0 <= k < |span| && span[k].Sign?
  }

  /** A well-formed text: a chain that ends in the stop. */
  ghost predicate IsText(t: Text, sp: seq<seq<Mark>>, n: nat, ms: seq<Mark>) {
    && ms != [] && ms[|ms| - 1] == Lit(STOP, |t|)
    && Chain(ms) && Opens(ms) && AllFit(t, sp, n, ms) && NamesDiffer(ms) && AgesAgree(ms)
  }

  /** The marks of a text that has been protected, and of the spans taken out. */
  ghost predicate AreMarks(t: Text, s: Text, prot: seq<Text>, ms: seq<Mark>, sp: seq<seq<Mark>>) {
    && IsText(t, sp, |sp|, ms) && Plain(ms) == s + [STOP]
    && |sp| == |prot| && (forall k :: 0 <= k < |sp| ==> Plain(sp[k]) == prot[k])
    && ArePieces(t, sp)
    && forall k :: 0 <= k < |sp| ==> HasName(ms, k) || IsSwallowed(sp, k)
  }

  /** A span recorded later holds the name of the placeholder. */
  ghost predicate IsSwallowed(sp: seq<seq<Mark>>, k: nat) {
    exists l :: k < l < |sp| && HasName(sp[l], k)
  }

  // ------------------------------------------------------------ characters

  /** All characters of placeholders are word characters. */
  lemma SignIsWord(m: Mark)
    requires m.Sign? && m.off < |Tag(m.tag)|
    ensures IsWordChar(CharOf(m)) && CharOf(m) != STOP
  {
    TagChars(m.tag);
    var d := |Decimal(m.tag)|;
    if 7 <= m.off < 7 + d { assert Tag(m.tag)[7 + (m.off - 7)] == Decimal(m.tag)[m.off - 7]; }
  }

  // ------------------------------------------------------------ one pass

  /** What the marks of the output from 'last' on have to do with the marks 'ms' of the input. */
  ghost predicate Continues(ms: seq<Mark>, last: nat, base: nat, out: seq<Mark>, sp: seq<seq<Mark>>, sp2: seq<seq<Mark>>)
    requires last < |ms|
  {
    && out != [] && out[|out| - 1] == ms[|ms| - 1] && Chain(out) && sp <= sp2
    && (out[0] == ms[last] ||
        (out[0].Sign? && out[0].off == 0 && out[0].base == base && (last == 0 || !IsWordChar(CharOf(ms[last - 1])))))
    && (forall k :: 0 <= k < |out| ==> IsOld(ms, last, out[k]) || IsNew(base, |sp|, sp2, out[k]))
    && (forall n :: |sp| <= n < |sp2| ==> IsCut(ms, last, sp2[n]) && HasName(out, n))
    && NamesDiffer(out)
    && forall k :: last <= k < |ms| && IsName(ms[k]) ==> ms[k] in out || InSpan(sp2, |sp|, ms[k])
  }

  ghost predicate IsOld(ms: seq<Mark>, last: nat, m: Mark)
    requires last <= |ms|
  {
    m in ms[last..]
  }

  ghost predicate IsNew(base: nat, n: nat, sp2: seq<seq<Mark>>, m: Mark) {
    m.Sign? && n <= m.tag < |sp2| && m.off < |Tag(m.tag)| && m.base == base && m.end == EndOf(sp2[m.tag])
  }

  /** The span was cut out of the text, not right behind a word character. */
  ghost predicate IsCut(ms: seq<Mark>, last: nat, span: seq<Mark>) {
    exists p, q :: last <= p <= q < |ms| && span == ms[p..q] && (p == 0 || !IsWordChar(CharOf(ms[p - 1])))
  }

  ghost predicate InSpan(sp2: seq<seq<Mark>>, n: nat, m: Mark) {
    exists l :: n <= l < |sp2| && m in sp2[l]
  }

  /** The input of a pass: the placeholders in it are of earlier passes. */
  ghost predicate IsInput(ms: seq<Mark>, base: nat) {
    && ms != [] && ms[|ms| - 1].Lit? && Chain(ms) && Opens(ms) && NamesDiffer(ms)
    && forall k :: 0 <= k < |ms| && ms[k].Sign? ==> ms[k].base <= ms[k].tag < base && ms[k].off < |Tag(ms[k].tag)|
  }

  lemma {:induction false} PassMarks(s: Text, ms: seq<Mark>, spans: seq<Span>, last: nat, base: nat, prot: seq<Text>, sp: seq<seq<Mark>>)
    returns (out: seq<Mark>, sp2: seq<seq<Mark>>)
    requires IsInput(ms, base) && Plain(ms) == s + [STOP] && base <= |sp| == |prot|
    requires AreMatches(s, spans) && last <= |s| && (spans != [] ==> last <= spans[0].pos)
    ensures Continues(ms, last, base, out, sp, sp2) && sp <= sp2
    ensures var r := Replaced(s, spans, last, prot);
            Plain(out) == r.0 + [STOP] && prot <= r.1 && |sp2| == |r.1| && forall n :: |sp| <= n < |sp2| ==> Plain(sp2[n]) == r.1[n]
    decreases |spans|
  {
    hide Tag, Link, Plain, Continues, CharOf, IsInput, Skipped;
    LengthOfPlain(ms, s);
    if spans == [] {
      out, sp2 := ms[last..], sp;
      PlainSlice(ms, last, |ms|);
      assert (s + [STOP])[last..] == s[last..] + [STOP];
      assert ms[last..|ms|] == ms[last..];
      NothingCut(ms, last, base, sp);
    } else {
      ReplacedStep(s, spans, last, prot, []);
      var m := spans[0];
      if Skipped(s, m) {
        out, sp2 := PassMarks(s, ms, spans[1..], last, base, prot, sp);
      } else {
        var e, n := m.pos + m.len, |sp|;
        var cut := ms[m.pos..e];
        var rest;
        PlainSlice(ms, m.pos, e);
        PlainSlice(ms, last, m.pos);
        assert (s + [STOP])[m.pos..e] == s[m.pos..e] && (s + [STOP])[last..m.pos] == s[last..m.pos];
        rest, sp2 := PassMarks(s, ms, spans[1..], e, base, prot + [s[m.pos..e]], sp + [cut]);
        var tag := TagMarks(n, base, EndOf(cut));
        out := ms[last..m.pos] + tag + rest;
        PlainTag(n, base, EndOf(cut));
        PlainConcat(ms[last..m.pos], tag);
        PlainConcat(ms[last..m.pos] + tag, rest);
        NotSkipped(s, ms, m);
        OneMoreCut(ms, last, m.pos, e, base, rest, sp, sp2);
        var r1 := Replaced(s, spans[1..], e, prot + [s[m.pos..e]]);
        Reassociate(s[last..m.pos], Tag(n), r1.0);
        NewSpansPlain(prot, s[m.pos..e], r1.1, sp, cut, sp2);
      }
    }
  }

  lemma LengthOfPlain(ms: seq<Mark>, s: Text)
    requires Plain(ms) == s + [STOP]
    ensures |ms| == |s| + 1
  {
  }

  lemma Reassociate(a: Text, b: Text, c: Text)
    ensures a + b + (c + [STOP]) == [] + a + b + c + [STOP]
  {
  }

  lemma NewSpansPlain(prot: seq<Text>, span: Text, prot2: seq<Text>, sp: seq<seq<Mark>>, cut: seq<Mark>, sp2: seq<seq<Mark>>)
    requires |sp| == |prot| && prot + [span] <= prot2 && sp + [cut] <= sp2 && |sp2| == |prot2| && Plain(cut) == span
    requires forall n :: |sp| + 1 <= n < |sp2| ==> Plain(sp2[n]) == prot2[n]
    ensures prot <= prot2 && forall n :: |sp| <= n < |sp2| ==> Plain(sp2[n]) == prot2[n]
  {
    hide Plain;
    assert sp2[|sp|] == (sp + [cut])[|sp|] == cut;
    assert prot2[|sp|] == (prot + [span])[|sp|] == span;
  }

  lemma NotSkipped(s: Text, ms: seq<Mark>, m: Span)
    requires Plain(ms) == s + [STOP] && m.pos <= |s| && !Skipped(s, m)
    ensures m.pos == 0 || !IsWordChar(CharOf(ms[m.pos - 1]))
  {
    if m.pos > 0 { assert Plain(ms)[m.pos - 1] == CharOf(ms[m.pos - 1]) == s[m.pos - 1]; }
  }

  lemma NothingCut(ms: seq<Mark>, last: nat, base: nat, sp: seq<seq<Mark>>)
    requires IsInput(ms, base) && last < |ms|
    ensures Continues(ms, last, base, ms[last..], sp, sp)
  {
    hide Link, CharOf, Tag;
    var out := ms[last..];
    forall k | 0 <= k && k + 1 < |out| ensures Link(out[k], out[k + 1]) {
      assert out[k] == ms[last + k] && out[k + 1] == ms[last + k + 1];
    }
    forall k, l | 0 <= k < l < |out| && IsName(out[k]) && IsName(out[l]) ensures out[k].tag != out[l].tag {
      assert out[k] == ms[last + k] && out[l] == ms[last + l];
    }
    forall k | last <= k < |ms| ensures ms[k] in out { assert out[k - last] == ms[k]; }
    forall k | 0 <= k < |out| ensures IsOld(ms, last, out[k]) { }
  }

  // ------------------------------------------------------------ one replacement

  /** The front of the output: text up to the match, and the placeholder for it. */
  function Front(ms: seq<Mark>, last: nat, p: nat, e: nat, n: nat, base: nat): (out: seq<Mark>)
    requires last <= p <= e <= |ms|
  {
    ms[last..p] + TagMarks(n, base, EndOf(ms[p..e]))
  }

  lemma OneMoreCut(ms: seq<Mark>, last: nat, p: nat, e: nat, base: nat, rest: seq<Mark>, sp: seq<seq<Mark>>, sp2: seq<seq<Mark>>)
    requires IsInput(ms, base) && last <= p <= e < |ms| && base <= |sp|
    requires p == 0 || !IsWordChar(CharOf(ms[p - 1]))
    requires Continues(ms, e, base, rest, sp + [ms[p..e]], sp2)
    ensures Continues(ms, last, base, ms[last..p] + TagMarks(|sp|, base, EndOf(ms[p..e])) + rest, sp, sp2)
  {
    hide Link, CharOf, Tag, IsWordChar, TagMarks, Chain, NamesDiffer;
    var n, cut := |sp|, ms[p..e];
    var front := Front(ms, last, p, e, n, base);
    var out := front + rest;
    assert sp2[n] == (sp + [cut])[n] == cut;
    FrontFirst(ms, last, p, e, n, base);
    ChainOfOutput(ms, last, p, e, base, rest, sp, sp2);
    MarksOfOutput(ms, last, p, e, base, rest, sp, sp2);
    NamesOfOutput(ms, last, p, e, base, rest, sp, sp2);
    NamesKept(ms, last, p, e, base, rest, sp, sp2);
    assert sp <= sp2;
    forall k | n <= k < |sp2| ensures IsCut(ms, last, sp2[k]) && HasName(out, k) {
      CutOfOutput(ms, last, p, e, base, rest, sp, sp2, k);
    }
  }

  lemma FrontFirst(ms: seq<Mark>, last: nat, p: nat, e: nat, n: nat, base: nat)
    requires last <= p <= e < |ms| && (p == 0 || !IsWordChar(CharOf(ms[p - 1])))
    ensures var out := Front(ms, last, p, e, n, base);
            && |out| == p - last + |Tag(n)| && |Tag(n)| > 10
            && (forall k :: 0 <= k < p - last ==> out[k] == ms[last + k])
            && (forall k :: 0 <= k < |Tag(n)| ==> out[p - last + k] == Sign(n, k, base, EndOf(ms[p..e])))
            && (out[0] == ms[last] || (last == p && out[0] == Sign(n, 0, base, EndOf(ms[p..e]))))
  {
    hide CharOf, IsWordChar;
  }

  lemma ChainOfOutput(ms: seq<Mark>, last: nat, p: nat, e: nat, base: nat, rest: seq<Mark>, sp: seq<seq<Mark>>, sp2: seq<seq<Mark>>)
    requires IsInput(ms, base) && last <= p <= e < |ms| && base <= |sp|
    requires p == 0 || !IsWordChar(CharOf(ms[p - 1]))
    requires Continues(ms, e, base, rest, sp + [ms[p..e]], sp2)
    ensures Chain(Front(ms, last, p, e, |sp|, base) + rest)
  {
    hide CharOf, IsWordChar, Tag, Link, TagMarks, Front;
    var n, front := |sp|, Front(ms, last, p, e, |sp|, base);
    var out := front + rest;
    FrontFirst(ms, last, p, e, n, base);
    forall k | 0 <= k && k + 1 < |out| ensures Link(out[k], out[k + 1]) {
      if k + 1 < p - last {
        assert Link(ms[last + k], ms[last + k + 1]);
      } else if k + 1 == p - last {
        LinkToTag(ms, p, n, base, EndOf(ms[p..e]));
      } else if k + 1 < |front| {
        LinkInTag(n, k - (p - last), base, EndOf(ms[p..e]));
      } else if k + 1 == |front| {
        LinkBehindTag(ms, p, e, base, rest[0], n);
      } else {
        assert Link(rest[k - |front|], rest[k + 1 - |front|]);
      }
    }
  }

  lemma LinkToTag(ms: seq<Mark>, p: nat, n: nat, base: nat, end: End)
    requires 0 < p < |ms| && !IsWordChar(CharOf(ms[p - 1])) && (ms[p - 1].Sign? ==> ms[p - 1].off < |Tag(ms[p - 1].tag)|)
    ensures Link(ms[p - 1], Sign(n, 0, base, end))
  {
    if ms[p - 1].Sign? { SignIsWord(ms[p - 1]); }
  }

  lemma LinkInTag(n: nat, k: nat, base: nat, end: End)
    requires k + 1 < |Tag(n)|
    ensures Link(Sign(n, k, base, end), Sign(n, k + 1, base, end))
  {
  }

  /** What stands behind the new placeholder may stand behind the span. */
  lemma LinkBehindTag(ms: seq<Mark>, p: nat, e: nat, base: nat, b: Mark, n: nat)
    requires IsInput(ms, base) && p <= e < |ms| && (p == 0 || !IsWordChar(CharOf(ms[p - 1])))
    requires b == ms[e] || (b.Sign? && b.off == 0 && b.base == base && (e == 0 || !IsWordChar(CharOf(ms[e - 1]))))
    ensures Link(Sign(n, |Tag(n)| - 1, base, EndOf(ms[p..e])), b)
  {
    hide CharOf, Tag, IsWordChar, Link;
    assert b.Sign? ==> b.base <= base;
    if p < e {
      assert ms[p..e][|ms[p..e]| - 1] == ms[e - 1];
      if b == ms[e] { assert Link(ms[e - 1], ms[e]); } else { LinkToTag(ms, e, b.tag, b.base, b.end); }
      LinkBehindSpan(n, base, ms[e - 1], b);
    } else {
      if b == ms[e] {
        if e > 0 {
          assert Link(ms[e - 1], ms[e]);
          BehindNonWord(ms[e - 1], ms[e]);
        }
      }
      LinkBehindNothing(n, base, b);
    }
  }

  lemma LinkBehindSpan(n: nat, base: nat, e: Mark, b: Mark)
    requires (b.Sign? ==> b.base <= base) && Link(e, b)
    ensures Link(Sign(n, |Tag(n)| - 1, base, After(e)), b)
  {
  }

  lemma LinkBehindNothing(n: nat, base: nat, b: Mark)
    requires (b.Sign? ==> b.base <= base) && (b.Lit? || b.off == 0)
    ensures Link(Sign(n, |Tag(n)| - 1, base, Nothing), b)
  {
  }

  lemma BehindNonWord(a: Mark, b: Mark)
    requires !IsWordChar(CharOf(a)) && (a.Sign? ==> a.off < |Tag(a.tag)|) && Link(a, b)
    ensures b.Lit? || b.off == 0
  {
    if a.Sign? { SignIsWord(a); }
  }

  lemma MarksOfOutput(ms: seq<Mark>, last: nat, p: nat, e: nat, base: nat, rest: seq<Mark>, sp: seq<seq<Mark>>, sp2: seq<seq<Mark>>)
    requires IsInput(ms, base) && last <= p <= e < |ms|
    requires p == 0 || !IsWordChar(CharOf(ms[p - 1]))
    requires Continues(ms, e, base, rest, sp + [ms[p..e]], sp2)
    ensures var out := Front(ms, last, p, e, |sp|, base) + rest;
            forall k :: 0 <= k < |out| ==> IsOld(ms, last, out[k]) || IsNew(base, |sp|, sp2, out[k])
  {
    hide CharOf, IsWordChar, Link, TagMarks, Front, Chain, NamesDiffer, Tag;
    var n, front := |sp|, Front(ms, last, p, e, |sp|, base);
    var out := front + rest;
    FrontFirst(ms, last, p, e, n, base);
    assert sp2[n] == (sp + [ms[p..e]])[n] == ms[p..e];
    forall k | 0 <= k < |out| ensures IsOld(ms, last, out[k]) || IsNew(base, n, sp2, out[k]) {
      if k < p - last {
        assert out[k] == ms[last..][k];
      } else if k < |front| {
        assert out[k] == Sign(n, k - (p - last), base, EndOf(ms[p..e]));
      } else {
        OldFurther(ms, last, e, rest[k - |front|]);
      }
    }
  }

  lemma OldFurther(ms: seq<Mark>, last: nat, e: nat, m: Mark)
    requires last <= e <= |ms|
    ensures IsOld(ms, e, m) ==> IsOld(ms, last, m)
  {
    if m in ms[e..] {
      var k :| 0 <= k < |ms[e..]| && ms[e..][k] == m;
      assert ms[last..][e - last + k] == m;
    }
  }

  lemma NamesOfOutput(ms: seq<Mark>, last: nat, p: nat, e: nat, base: nat, rest: seq<Mark>, sp: seq<seq<Mark>>, sp2: seq<seq<Mark>>)
    requires IsInput(ms, base) && last <= p <= e < |ms| && base <= |sp|
    requires p == 0 || !IsWordChar(CharOf(ms[p - 1]))
    requires Continues(ms, e, base, rest, sp + [ms[p..e]], sp2)
    ensures NamesDiffer(Front(ms, last, p, e, |sp|, base) + rest)
  {
    hide CharOf, IsWordChar, Link, TagMarks, Front, Chain, Tag;
    var n, front := |sp|, Front(ms, last, p, e, |sp|, base);
    var out := front + rest;
    FrontFirst(ms, last, p, e, n, base);
    forall k, l | 0 <= k < l < |out| && IsName(out[k]) && IsName(out[l]) ensures out[k].tag != out[l].tag {
      if l < p - last {
        assert out[k] == ms[last + k] && out[l] == ms[last + l];
      } else if k >= |front| {
        assert out[k] == rest[k - |front|] && out[l] == rest[l - |front|];
      } else {
        assert out[k] == front[k];
        if k >= p - last { assert front[k] == Sign(n, k - (p - last), base, EndOf(ms[p..e])); }
        if k < p - last { assert out[k] == ms[last + k]; }
        if l < |front| {
          assert out[l] == front[l] == Sign(n, l - (p - last), base, EndOf(ms[p..e]));
        } else {
          var m := rest[l - |front|];
          assert out[l] == m;
          if IsOld(ms, e, m) {
            var j :| 0 <= j < |ms[e..]| && ms[e..][j] == m;
            assert ms[e + j] == m;
          }
        }
      }
    }
  }

  lemma NamesKept(ms: seq<Mark>, last: nat, p: nat, e: nat, base: nat, rest: seq<Mark>, sp: seq<seq<Mark>>, sp2: seq<seq<Mark>>)
    requires IsInput(ms, base) && last <= p <= e < |ms|
    requires p == 0 || !IsWordChar(CharOf(ms[p - 1]))
    requires Continues(ms, e, base, rest, sp + [ms[p..e]], sp2)
    ensures var out := Front(ms, last, p, e, |sp|, base) + rest;
            forall k :: last <= k < |ms| && IsName(ms[k]) ==> ms[k] in out || InSpan(sp2, |sp|, ms[k])
  {
    hide CharOf, IsWordChar, Link, TagMarks, Front, Chain, NamesDiffer, Tag;
    var n, front := |sp|, Front(ms, last, p, e, |sp|, base);
    var out := front + rest;
    FrontFirst(ms, last, p, e, n, base);
    assert sp2[n] == (sp + [ms[p..e]])[n] == ms[p..e];
    forall k | last <= k < |ms| && IsName(ms[k]) ensures ms[k] in out || InSpan(sp2, n, ms[k]) {
      if k < p {
        assert out[k - last] == ms[k];
      } else if k < e {
        assert ms[p..e][k - p] == ms[k];
        assert ms[k] in sp2[n];
      } else if ms[k] in rest {
      } else {
        var l :| n + 1 <= l < |sp2| && ms[k] in sp2[l];
        assert n <= l < |sp2| && ms[k] in sp2[l];
      }
    }
  }

  lemma CutOfOutput(ms: seq<Mark>, last: nat, p: nat, e: nat, base: nat, rest: seq<Mark>, sp: seq<seq<Mark>>, sp2: seq<seq<Mark>>, k: nat)
    requires IsInput(ms, base) && last <= p <= e < |ms|
    requires p == 0 || !IsWordChar(CharOf(ms[p - 1]))
    requires Continues(ms, e, base, rest, sp + [ms[p..e]], sp2) && |sp| <= k < |sp2|
    ensures IsCut(ms, last, sp2[k]) && HasName(Front(ms, last, p, e, |sp|, base) + rest, k)
  {
    hide CharOf, IsWordChar, Link, TagMarks, Front, Chain, NamesDiffer, Tag;
    var n, front := |sp|, Front(ms, last, p, e, |sp|, base);
    var out := front + rest;
    FrontFirst(ms, last, p, e, n, base);
    assert sp2[n] == (sp + [ms[p..e]])[n] == ms[p..e];
    if k == n {
      assert out[p - last + 3] == front[p - last + 3] == Sign(n, 3, base, EndOf(ms[p..e]));
      assert IsName(out[p - last + 3]) && out[p - last + 3].tag == n;
    } else {
      assert IsCut(ms, e, sp2[k]) && HasName(rest, k);
      var j :| 0 <= j < |rest| && IsName(rest[j]) && rest[j].tag == k;
      assert out[|front| + j] == rest[j];
      var a, b :| e <= a <= b < |ms| && sp2[k] == ms[a..b] && (a == 0 || !IsWordChar(CharOf(ms[a - 1])));
      assert last <= a;
    }
  }

  // ------------------------------------------------------------ all passes

  /** A pass leads from marks to marks. */
  lemma PassKeepsMarks(t: Text, s: Text, prot: seq<Text>, ms: seq<Mark>, sp: seq<seq<Mark>>, spans: seq<Span>)
    returns (out: seq<Mark>, sp2: seq<seq<Mark>>)
    requires AreMarks(t, s, prot, ms, sp) && AreMatches(s, spans)
    ensures var r := Replaced(s, spans, 0, prot); AreMarks(t, r.0, r.1, out, sp2)
  {
    hide Link, CharOf, Tag, Continues, AreMatches, Replaced, Plain, NamesDiffer, AgesAgree, Fits;
    MarksAreInput(t, sp, ms);
    out, sp2 := PassMarks(s, ms, spans, 0, |sp|, prot, sp);
    OutputFits(t, ms, out, sp, sp2);
    OutputAges(t, ms, out, sp, sp2);
    OutputPieces(t, ms, out, sp, sp2);
    OutputOpens(t, ms, out, sp, sp2);
    var r := Replaced(s, spans, 0, prot);
    forall k | 0 <= k < |sp2| ensures Plain(sp2[k]) == r.1[k] { }
    forall k | 0 <= k < |sp2| ensures HasName(out, k) || IsSwallowed(sp2, k) {
      OutputNames(t, s, prot, ms, sp, out, sp2, k);
    }
  }

  lemma MarksAreInput(t: Text, sp: seq<seq<Mark>>, ms: seq<Mark>)
    requires IsText(t, sp, |sp|, ms)
    ensures IsInput(ms, |sp|)
  {
    hide Link, Tag;
    forall k | 0 <= k < |ms| && ms[k].Sign?
      ensures ms[k].base <= ms[k].tag < |sp| && ms[k].off < |Tag(ms[k].tag)|
    {
      assert Fits(t, sp, |sp|, ms[k]);
    }
  }

  lemma FitsLonger(t: Text, sp: seq<seq<Mark>>, sp2: seq<seq<Mark>>, n: nat, n2: nat, m: Mark)
    requires Fits(t, sp, n, m) && sp <= sp2 && n <= n2
    ensures Fits(t, sp2, n2, m)
  {
    hide Tag;
  }

  lemma OldMark(ms: seq<Mark>, m: Mark) returns (j: nat)
    requires IsOld(ms, 0, m)
    ensures j < |ms| && ms[j] == m
  {
    j :| 0 <= j < |ms[0..]| && ms[0..][j] == m;
  }

  lemma OutputFits(t: Text, ms: seq<Mark>, out: seq<Mark>, sp: seq<seq<Mark>>, sp2: seq<seq<Mark>>)
    requires IsText(t, sp, |sp|, ms) && ArePieces(t, sp) && Continues(ms, 0, |sp|, out, sp, sp2)
    ensures AllFit(t, sp2, |sp2|, out)
  {
    hide Link, Tag, CharOf, IsWordChar, Chain, NamesDiffer, AgesAgree, Fits;
    forall k | 0 <= k < |out| ensures Fits(t, sp2, |sp2|, out[k]) {
      if IsOld(ms, 0, out[k]) {
        var j := OldMark(ms, out[k]);
        FitsLonger(t, sp, sp2, |sp|, |sp2|, out[k]);
      } else {
        NewFits(t, ms, sp, sp2, out[k]);
      }
    }
  }

  lemma NewFits(t: Text, ms: seq<Mark>, sp: seq<seq<Mark>>, sp2: seq<seq<Mark>>, m: Mark)
    requires AllFit(t, sp, |sp|, ms) && IsNew(|sp|, |sp|, sp2, m) && IsCut(ms, 0, sp2[m.tag])
    ensures Fits(t, sp2, |sp2|, m)
  {
    hide Tag, CharOf, IsWordChar;
    var span := sp2[m.tag];
    if span != [] && span[|span| - 1].Sign? {
      var p, q :| 0 <= p <= q < |ms| && span == ms[p..q] && (p == 0 || !IsWordChar(CharOf(ms[p - 1])));
      assert span[|span| - 1] == ms[q - 1];
      assert Fits(t, sp, |sp|, ms[q - 1]);
    }
  }

  lemma OutputAges(t: Text, ms: seq<Mark>, out: seq<Mark>, sp: seq<seq<Mark>>, sp2: seq<seq<Mark>>)
    requires IsText(t, sp, |sp|, ms) && Continues(ms, 0, |sp|, out, sp, sp2)
    ensures AgesAgree(out)
  {
    hide Link, Tag, CharOf, IsWordChar, Chain, NamesDiffer, Fits;
    MarksAreInput(t, sp, ms);
    forall k, l | 0 <= k < |out| && 0 <= l < |out| && out[k].Sign? && out[l].Sign? && out[k].base < out[l].base
      ensures out[k].tag < out[l].base
    {
      assert IsOld(ms, 0, out[k]) || IsNew(|sp|, |sp|, sp2, out[k]);
      assert IsOld(ms, 0, out[l]) || IsNew(|sp|, |sp|, sp2, out[l]);
      if IsOld(ms, 0, out[l]) {
        var j := OldMark(ms, out[l]);
        if IsOld(ms, 0, out[k]) { var i := OldMark(ms, out[k]); }
      } else {
        if IsOld(ms, 0, out[k]) { var i := OldMark(ms, out[k]); }
      }
    }
  }

  lemma OutputPieces(t: Text, ms: seq<Mark>, out: seq<Mark>, sp: seq<seq<Mark>>, sp2: seq<seq<Mark>>)
    requires IsText(t, sp, |sp|, ms) && ArePieces(t, sp) && Continues(ms, 0, |sp|, out, sp, sp2)
    ensures ArePieces(t, sp2)
  {
    hide Link, Tag, CharOf, IsWordChar, NamesDiffer, AgesAgree, Fits, Chain, Opens;
    forall n | 0 <= n < |sp2| ensures IsPiece(t, sp2, n, sp2[n]) {
      if n < |sp| {
        assert sp2[n] == sp[n] && IsPiece(t, sp, n, sp[n]);
        PieceLonger(t, sp, sp2, n, n, sp[n]);
      } else {
        CutIsPiece(t, sp, ms, sp2[n]);
        PieceLonger(t, sp, sp2, |sp|, n, sp2[n]);
      }
    }
  }

  lemma PieceLonger(t: Text, sp: seq<seq<Mark>>, sp2: seq<seq<Mark>>, n: nat, n2: nat, span: seq<Mark>)
    requires IsPiece(t, sp, n, span) && sp <= sp2 && n <= n2
    ensures IsPiece(t, sp2, n2, span)
  {
    hide Link, Tag, Fits, Chain, Opens;
    forall k | 0 <= k < |span| ensures Fits(t, sp2, n2, span[k]) { FitsLonger(t, sp, sp2, n, n2, span[k]); }
  }

  lemma CutIsPiece(t: Text, sp: seq<seq<Mark>>, ms: seq<Mark>, span: seq<Mark>)
    requires IsText(t, sp, |sp|, ms) && IsCut(ms, 0, span)
    ensures IsPiece(t, sp, |sp|, span)
  {
    hide Link, Tag, CharOf, IsWordChar, NamesDiffer, AgesAgree, Fits;
    var p, q :| 0 <= p <= q < |ms| && span == ms[p..q] && (p == 0 || !IsWordChar(CharOf(ms[p - 1])));
    forall k | 0 <= k < |span| ensures Fits(t, sp, |sp|, span[k]) { assert span[k] == ms[p + k]; }
    forall k | 0 <= k && k + 1 < |span| ensures Link(span[k], span[k + 1]) {
      assert span[k] == ms[p + k] && span[k + 1] == ms[p + k + 1];
    }
    if p < q {
      assert span[0] == ms[p];
      if p > 0 {
        assert Link(ms[p - 1], ms[p]) && Fits(t, sp, |sp|, ms[p - 1]);
        FitsInTag(t, sp, |sp|, ms[p - 1]);
        BehindNonWord(ms[p - 1], ms[p]);
      }
    }
  }

  lemma FitsInTag(t: Text, sp: seq<seq<Mark>>, n: nat, m: Mark)
    requires Fits(t, sp, n, m)
    ensures m.Sign? ==> m.off < |Tag(m.tag)| && m.tag < n && m.tag < |sp| && m.base <= m.tag && m.end == EndOf(sp[m.tag])
  {
    hide Tag;
  }

  lemma OutputOpens(t: Text, ms: seq<Mark>, out: seq<Mark>, sp: seq<seq<Mark>>, sp2: seq<seq<Mark>>)
    requires IsText(t, sp, |sp|, ms) && Continues(ms, 0, |sp|, out, sp, sp2)
    ensures out != [] && out[|out| - 1] == Lit(STOP, |t|) && Chain(out) && Opens(out) && NamesDiffer(out) && sp <= sp2
  {
    hide Link, Tag, CharOf, IsWordChar, Fits;
  }

  lemma OutputNames(t: Text, s: Text, prot: seq<Text>, ms: seq<Mark>, sp: seq<seq<Mark>>, out: seq<Mark>, sp2: seq<seq<Mark>>, k: nat)
    requires AreMarks(t, s, prot, ms, sp) && Continues(ms, 0, |sp|, out, sp, sp2) && k < |sp2|
    ensures HasName(out, k) || IsSwallowed(sp2, k)
  {
    hide Link, Tag, CharOf, IsWordChar, Fits, Plain, Chain, NamesDiffer, AgesAgree;
    if k < |sp| {
      if HasName(ms, k) {
        var j :| 0 <= j < |ms| && IsName(ms[j]) && ms[j].tag == k;
        if ms[j] in out {
          var i :| 0 <= i < |out| && out[i] == ms[j];
        } else {
          var l :| |sp| <= l < |sp2| && ms[j] in sp2[l];
          var i :| 0 <= i < |sp2[l]| && sp2[l][i] == ms[j];
          assert HasName(sp2[l], k);
        }
      } else {
        var l :| k < l < |sp| && HasName(sp[l], k);
        assert sp2[l] == sp[l];
      }
    } else {
      assert IsCut(ms, 0, sp2[k]) && HasName(out, k);
    }
  }

  /** The marks of a text before the first pass. */
  function MarksOf(t: Text): seq<Mark> {
    seq(|t| + 1, k requires 0 <= k <= |t| => Lit((t + [STOP])[k], k))
  }

  lemma MarksAtStart(t: Text)
    ensures AreMarks(t, t, [], MarksOf(t), [])
  {
  }

  /** Whatever the passes do, marks can be kept beside. */
  lemma {:induction false} ProtectedMarks(t: Text, s: Text, matchers: seq<Matcher>, prot: seq<Text>, ms: seq<Mark>, sp: seq<seq<Mark>>)
    returns (out: seq<Mark>, sp2: seq<seq<Mark>>)
    requires AreMatchers(matchers) && AreMarks(t, s, prot, ms, sp)
    ensures var r := Protected(s, matchers, prot); AreMarks(t, r.0, r.1, out, sp2)
    decreases |matchers|
  {
    hide AreMarks, Replaced;
    if matchers == [] {
      out, sp2 := ms, sp;
    } else {
      var spans := matchers[0](s);
      out, sp2 := PassKeepsMarks(t, s, prot, ms, sp, spans);
      var r := Replaced(s, spans, 0, prot);
      out, sp2 := ProtectedMarks(t, r.0, matchers[1..], r.1, out, sp2);
    }
  }
}
