/** Taking spans out and putting them back gives the text again. */
module PlaceholdersRoundTrip {
  import opened Spaces
  import opened Placeholders

  /** The tag 'idx' stands for the characters 'from' up to 'to' of the original text. */
  datatype Placed = Placed(from: nat, to: nat, idx: nat)

  /** The tags lie, in order, in the part of the text from 'u' on. */
  ghost predicate InOrder(t: Text, placed: seq<Placed>, u: nat)
    decreases |placed|
  {
    && u <= |t|
    && (placed != [] ==> u <= placed[0].from <= placed[0].to <= |t| && InOrder(t, placed[1..], placed[0].to))
  }

  /** The original text from 'u' on, with the tags in place of what they stand for. */
  ghost function Render(t: Text, placed: seq<Placed>, u: nat): Text
    requires InOrder(t, placed, u)
    decreases |placed|
  {
    if placed == [] then t[u..]
    else
      t[u..placed[0].from] + Tag(placed[0].idx) + Render(t, placed[1..], placed[0].to)
  }

  /** Every tag stands for the span recorded under its number. */
  ghost predicate Recorded(t: Text, placed: seq<Placed>, prot: seq<Text>) {
    forall k :: 0 <= k < |placed| ==>
      placed[k].idx < |prot| && placed[k].from <= placed[k].to <= |t| && prot[placed[k].idx] == t[placed[k].from..placed[k].to]
  }

  // ------------------------------------------------------------ one pass

  /** A match that is replaced does not overlap a placeholder of the text. */
  ghost predicate IsClear(s: Text, m: Span) {
    forall p: nat {:trigger s[p..]} :: p <= |s| && TokenLength(s[p..]) > 0 ==>
      m.pos + m.len <= p || p + TokenLength(s[p..]) <= m.pos
  }

  ghost predicate AreClear(s: Text, spans: seq<Span>) {
    forall i :: 0 <= i < |spans| && spans[i].pos <= |s| && !Skipped(s, spans[i]) ==> IsClear(s, spans[i])
  }

  /** No pass replaces a match that overlaps a placeholder of an earlier pass. */
  ghost predicate AllClear(s: Text, matchers: seq<Matcher>, prot: seq<Text>)
    requires AreMatchers(matchers)
    decreases |matchers|
  {
    matchers == [] ||
    (AreClear(s, matchers[0](s)) &&
     var r := Replaced(s, matchers[0](s), 0, prot);
     AllClear(r.0, matchers[1..], r.1))
  }

  lemma RenderNil(t: Text, u: nat)
    requires u <= |t|
    ensures InOrder(t, [], u) && Render(t, [], u) == t[u..]
  {
  }

  lemma RenderCons(t: Text, x: Placed, rest: seq<Placed>, u: nat)
    requires u <= x.from <= x.to <= |t| && InOrder(t, rest, x.to)
    ensures InOrder(t, [x] + rest, u)
    ensures Render(t, [x] + rest, u) == t[u..x.from] + Tag(x.idx) + Render(t, rest, x.to)
  {
    assert ([x] + rest)[1..] == rest;
  }

  /** 'text' renders the original from 'u' up to 'f' with the tags 'before'. */
  ghost predicate Leads(t: Text, before: seq<Placed>, u: nat, f: nat, text: Text)
    decreases |before|
  {
    && u <= |t| && f <= |t|
    && if before == [] then u <= f && text == t[u..f]
       else
         var x := before[0];
         u <= x.from <= x.to <= |t| &&
         exists rest :: text == t[u..x.from] + Tag(x.idx) + rest && Leads(t, before[1..], x.to, f, rest)
  }

  lemma LeadsNil(t: Text, u: nat, f: nat)
    requires u <= f <= |t|
    ensures Leads(t, [], u, f, t[u..f])
  {
  }

  lemma LeadsCons(t: Text, x: Placed, before: seq<Placed>, u: nat, f: nat, rest: Text)
    requires u <= x.from <= x.to <= |t| && Leads(t, before, x.to, f, rest)
    ensures Leads(t, [x] + before, u, f, t[u..x.from] + Tag(x.idx) + rest)
  {
    assert ([x] + before)[1..] == before;
  }

  /** Where a match lies: the tags before it, its place in the original text, and the tags after it. */
  ghost predicate Located(t: Text, placed: seq<Placed>, u: nat, d: nat, len: nat, before: seq<Placed>, f: nat, after: seq<Placed>)
    requires InOrder(t, placed, u)
  {
    var s := Render(t, placed, u);
    && placed == before + after && f + len <= |t| && d + len <= |s| && InOrder(t, after, f + len)
    && t[f..f + len] == s[d..d + len] && Render(t, after, f + len) == s[d + len..] && Leads(t, before, u, f, s[..d])
  }

  lemma SplitThree(s: Text, a: Text, b: Text, d: nat, len: nat)
    requires s == a + b && d + len <= |a|
    ensures s[..d] == a[..d] && s[d..d + len] == a[d..d + len] && s[d + len..] == a[d + len..] + b
  {
  }

  lemma SplitBehind(s: Text, a: Text, b: Text, d: nat, len: nat)
    requires s == a + b && |a| <= d && d + len <= |s|
    ensures var e := d - |a|;
            s[..d] == a + b[..e] && s[d..d + len] == b[e..e + len] && s[d + len..] == b[e + len..]
  {
  }

  lemma LiteralSlices(t: Text, u: nat, v: nat, d: nat, len: nat)
    requires u <= v <= |t| && d + len <= v - u
    ensures t[u..v][..d] == t[u..u + d] && t[u..v][d..d + len] == t[u + d..u + d + len] && t[u..v][d + len..] == t[u + d + len..v]
  {
  }

  /** Where the literal text at the front ends. */
  ghost function LiteralEnd(t: Text, placed: seq<Placed>): nat {
    if placed == [] then |t| else placed[0].from
  }

  /** What is rendered behind the literal text at the front. */
  ghost function BehindLiteral(t: Text, placed: seq<Placed>): Text
    requires placed != [] ==> InOrder(t, placed, placed[0].from)
  {
    if placed == [] then [] else Tag(placed[0].idx) + Render(t, placed[1..], placed[0].to)
  }

  lemma InOrderAt(t: Text, placed: seq<Placed>, u: nat, v: nat)
    requires InOrder(t, placed, u) && v <= LiteralEnd(t, placed)
    ensures InOrder(t, placed, v) && u <= LiteralEnd(t, placed) <= |t|
    ensures placed != [] ==> InOrder(t, placed, placed[0].from)
  {
  }

  lemma RenderFront(t: Text, placed: seq<Placed>, u: nat)
    requires InOrder(t, placed, u)
    ensures u <= LiteralEnd(t, placed) <= |t| && (placed != [] ==> InOrder(t, placed, placed[0].from))
    ensures Render(t, placed, u) == t[u..LiteralEnd(t, placed)] + BehindLiteral(t, placed)
  {
    hide Tag;
    if placed != [] { ConcatAssoc(t[u..placed[0].from], Tag(placed[0].idx), Render(t, placed[1..], placed[0].to)); }
  }

  /** The match lies in the literal text at the front. */
  lemma LocateInLiteral(t: Text, placed: seq<Placed>, u: nat, d: nat, len: nat)
    requires InOrder(t, placed, u) && u + d + len <= LiteralEnd(t, placed)
    ensures Located(t, placed, u, d, len, [], u + d, placed)
  {
    hide Render, InOrder, Leads, BehindLiteral, LiteralEnd;
    var f, v := u + d, LiteralEnd(t, placed);
    RenderFront(t, placed, u);
    InOrderAt(t, placed, u, f + len);
    RenderFront(t, placed, f + len);
    LiteralSlices(t, u, v, d, len);
    SplitThree(Render(t, placed, u), t[u..v], BehindLiteral(t, placed), d, len);
    LeadsNil(t, u, f);
    assert [] + placed == placed;
  }

  lemma RenderFirst(t: Text, placed: seq<Placed>, u: nat, x: Placed, rest: Text)
    requires InOrder(t, placed, u) && placed != [] && x == placed[0] && rest == Render(t, placed[1..], x.to)
    ensures u <= x.from <= x.to <= |t| && Render(t, placed, u) == t[u..x.from] + Tag(x.idx) + rest
  {
    hide Tag;
  }

  /** The match lies behind the first tag. */
  lemma LocateBehind(t: Text, placed: seq<Placed>, u: nat, d: nat, len: nat, before: seq<Placed>, f: nat, after: seq<Placed>)
    requires InOrder(t, placed, u) && placed != []
    requires var k := placed[0].from - u + |Tag(placed[0].idx)|;
             k <= d && Located(t, placed[1..], placed[0].to, d - k, len, before, f, after)
    ensures Located(t, placed, u, d, len, [placed[0]] + before, f, after)
  {
    hide Tag, Render, Leads;
    var x := placed[0];
    var rest := Render(t, placed[1..], x.to);
    RenderFirst(t, placed, u, x, rest);
    var a := t[u..x.from] + Tag(x.idx);
    SplitBehind(Render(t, placed, u), a, rest, d, len);
    LeadsCons(t, x, before, u, f, rest[..d - |a|]);
    ListCons(placed, x, before, after);
  }

  lemma ListCons(placed: seq<Placed>, x: Placed, before: seq<Placed>, after: seq<Placed>)
    requires placed != [] && placed[0] == x && placed[1..] == before + after
    ensures placed == [x] + before + after
  {
    assert placed == [x] + placed[1..];
  }

  /** A match in the rendered text that overlaps no tag is a span of the original text. */
  lemma {:induction false} LocateMatch(t: Text, placed: seq<Placed>, u: nat, d: nat, len: nat)
    returns (before: seq<Placed>, f: nat, after: seq<Placed>)
    requires InOrder(t, placed, u) && d + len <= |Render(t, placed, u)|
    requires IsClear(Render(t, placed, u), Span(d, len))
    ensures Located(t, placed, u, d, len, before, f, after)
    decreases |placed|
  {
    hide Located, Tag, IsClear, TokenLength;
    if placed == [] { RenderNil(t, u); }
    if u + d + len <= LiteralEnd(t, placed) {
      LocateInLiteral(t, placed, u, d, len);
      before, f, after := [], u + d, placed;
    } else {
      var x := placed[0];
      var lit, rest := t[u..x.from], Render(t, placed[1..], x.to);
      var k := |lit + Tag(x.idx)|;
      NotOnTag(lit, x.idx, rest, Span(d, len));
      ClearBehind(lit + Tag(x.idx) + rest, lit + Tag(x.idx), rest, Span(d, len));
      before, f, after := LocateMatch(t, placed[1..], x.to, d - k, len);
      LocateBehind(t, placed, u, d, len, before, f, after);
      before := [x] + before;
    }
  }

  lemma NotOnTag(lit: Text, idx: nat, rest: Text, m: Span)
    requires IsClear(lit + Tag(idx) + rest, m) && m.pos + m.len > |lit|
    ensures |lit + Tag(idx)| <= m.pos
  {
    TagInRender(lit, idx, rest);
    hide TokenLength, Tag;
  }

  lemma ConcatAssoc(a: Text, b: Text, c: Text)
    ensures a + b + c == a + (b + c)
  {
  }

  /** The tag is a placeholder of the rendered text, so a clear match does not touch it. */
  lemma TagInRender(lit: Text, idx: nat, rest: Text)
    ensures var s := lit + Tag(idx) + rest; s[|lit|..] == Tag(idx) + rest && TokenLength(s[|lit|..]) == |Tag(idx)|
  {
    TagIsToken(idx, rest);
    hide TokenLength, Tag;
  }

  lemma ClearBehind(s: Text, front: Text, rest: Text, m: Span)
    requires s == front + rest && IsClear(s, m) && |front| <= m.pos
    ensures IsClear(rest, Span(m.pos - |front|, m.len))
  {
    hide TokenLength;
    forall p: nat | p <= |rest| && TokenLength(rest[p..]) > 0
      ensures m.pos - |front| + m.len <= p || p + TokenLength(rest[p..]) <= m.pos - |front|
    {
      assert s[|front| + p..] == rest[p..];
    }
  }

  /** A rendered front with a rendered rest. */
  lemma {:induction false} LeadsJoin(t: Text, before: seq<Placed>, u: nat, f: nat, text: Text, rest: seq<Placed>)
    requires Leads(t, before, u, f, text) && InOrder(t, rest, f)
    ensures InOrder(t, before + rest, u) && Render(t, before + rest, u) == text + Render(t, rest, f)
    decreases |before|
  {
    hide Tag, Render, InOrder;
    if before == [] {
      assert [] + rest == rest;
      RenderEarlier(t, rest, u, f);
    } else {
      var x := before[0];
      var text2 :| text == t[u..x.from] + Tag(x.idx) + text2 && Leads(t, before[1..], x.to, f, text2);
      LeadsJoin(t, before[1..], x.to, f, text2, rest);
      assert before + rest == [x] + (before[1..] + rest);
      RenderCons(t, x, before[1..] + rest, u);
      ConcatAssoc(t[u..x.from] + Tag(x.idx), text2, Render(t, rest, f));
    }
  }

  lemma RecordedSplit(t: Text, a: seq<Placed>, b: seq<Placed>, prot: seq<Text>)
    ensures Recorded(t, a + b, prot) <==> Recorded(t, a, prot) && Recorded(t, b, prot)
  {
    if Recorded(t, a + b, prot) {
      forall k | 0 <= k < |a| ensures a[k] == (a + b)[k] { }
      forall k | 0 <= k < |b| ensures b[k] == (a + b)[|a| + k] { }
    }
  }

  lemma RecordedLonger(t: Text, a: seq<Placed>, prot: seq<Text>, more: seq<Text>)
    requires Recorded(t, a, prot)
    ensures Recorded(t, a, prot + more)
  {
  }

  lemma AreClearTail(s: Text, spans: seq<Span>)
    requires spans != [] && AreMatches(s, spans) && AreClear(s, spans)
    ensures AreMatches(s, spans[1..]) && AreClear(s, spans[1..])
    ensures !Skipped(s, spans[0]) ==> IsClear(s, spans[0])
    ensures spans[0].pos + spans[0].len <= |s| && (|spans| > 1 ==> spans[0].pos + spans[0].len <= spans[1].pos)
  {
    hide IsClear, Skipped;
  }

  lemma SliceIn(s: Text, last: nat, d: nat, len: nat)
    requires last + d + len <= |s|
    ensures s[last..][..d] == s[last..last + d] && s[last..][d..d + len] == s[last + d..last + d + len]
    ensures s[last..][d + len..] == s[last + d + len..] && s == s[..last] + s[last..]
  {
  }

  /** A pass whose matches are clear leads from one rendering of the original text to another. */
  lemma {:induction false} PassRenders(t: Text, placed: seq<Placed>, u: nat, s: Text, spans: seq<Span>, last: nat, prot: seq<Text>)
    returns (placed2: seq<Placed>)
    requires InOrder(t, placed, u) && Recorded(t, placed, prot)
    requires AreMatches(s, spans) && AreClear(s, spans) && last <= |s| && (spans != [] ==> last <= spans[0].pos)
    requires s[last..] == Render(t, placed, u)
    ensures var r := Replaced(s, spans, last, prot);
            InOrder(t, placed2, u) && r.0 == Render(t, placed2, u) && Recorded(t, placed2, r.1) && prot <= r.1
    decreases |spans|
  {
    hide Render, Recorded, IsClear, Skipped, Tag, Leads;
    if spans == [] {
      return placed;
    }
    AreClearTail(s, spans);
    var m := spans[0];
    if Skipped(s, m) {
      placed2 := PassRenders(t, placed, u, s, spans[1..], last, prot);
    } else {
      placed2 := ReplaceRenders(t, placed, u, s, spans, last, prot);
    }
  }

  lemma ReplaceRenders(t: Text, placed: seq<Placed>, u: nat, s: Text, spans: seq<Span>, last: nat, prot: seq<Text>)
    returns (placed2: seq<Placed>)
    requires InOrder(t, placed, u) && Recorded(t, placed, prot)
    requires AreMatches(s, spans) && AreClear(s, spans) && spans != [] && last <= spans[0].pos <= |s|
    requires s[last..] == Render(t, placed, u) && !Skipped(s, spans[0])
    ensures var r := Replaced(s, spans, last, prot);
            InOrder(t, placed2, u) && r.0 == Render(t, placed2, u) && Recorded(t, placed2, r.1) && prot <= r.1
    decreases |spans|, 0
  {
    hide Render, Recorded, IsClear, Skipped, Tag, Leads;
    AreClearTail(s, spans);
    var m := spans[0];
    var d, e := m.pos - last, m.pos + m.len;
    var span := s[m.pos..e];
    SliceIn(s, last, d, m.len);
    ClearBehind(s, s[..last], s[last..], m);
    var before, f, after := LocateMatch(t, placed, u, d, m.len);
    RecordedSplit(t, before, after, prot);
    RecordedLonger(t, after, prot, [span]);
    var rest := PassRenders(t, after, f + m.len, s, spans[1..], e, prot + [span]);
    var r1 := Replaced(s, spans[1..], e, prot + [span]);
    var x := Placed(f, f + m.len, |prot|);
    RenderAtMatch(t, x, rest);
    LeadsJoin(t, before, u, f, s[last..m.pos], [x] + rest);
    placed2 := before + ([x] + rest);
    RecordedGrows(t, before, prot, r1.1);
    RecordedNew(t, x, span, prot, r1.1);
    RecordedSplit(t, [x], rest, r1.1);
    RecordedSplit(t, before, [x] + rest, r1.1);
    ConcatAssoc(s[last..m.pos], Tag(|prot|), r1.0);
  }

  lemma RenderAtMatch(t: Text, x: Placed, rest: seq<Placed>)
    requires x.from <= x.to <= |t| && InOrder(t, rest, x.to)
    ensures InOrder(t, [x] + rest, x.from) && Render(t, [x] + rest, x.from) == Tag(x.idx) + Render(t, rest, x.to)
  {
    RenderCons(t, x, rest, x.from);
    hide Tag, Render;
    assert t[x.from..x.from] == [];
    assert [] + Tag(x.idx) == Tag(x.idx);
  }

  lemma RecordedGrows(t: Text, a: seq<Placed>, prot: seq<Text>, prot2: seq<Text>)
    requires Recorded(t, a, prot) && prot <= prot2
    ensures Recorded(t, a, prot2)
  {
  }

  lemma RecordedNew(t: Text, x: Placed, span: Text, prot: seq<Text>, prot2: seq<Text>)
    requires prot + [span] <= prot2 && x.idx == |prot| && x.from <= x.to <= |t| && span == t[x.from..x.to]
    ensures Recorded(t, [x], prot2)
  {
    assert prot2[|prot|] == (prot + [span])[|prot|];
  }

  /** All passes. */
  lemma {:induction false} PassesRender(t: Text, placed: seq<Placed>, s: Text, matchers: seq<Matcher>, prot: seq<Text>)
    returns (placed2: seq<Placed>)
    requires AreMatchers(matchers) && AllClear(s, matchers, prot)
    requires InOrder(t, placed, 0) && Recorded(t, placed, prot) && s == Render(t, placed, 0)
    ensures var r := Protected(s, matchers, prot);
            InOrder(t, placed2, 0) && r.0 == Render(t, placed2, 0) && Recorded(t, placed2, r.1)
    decreases |matchers|
  {
    hide Render, Recorded, Replaced;
    if matchers == [] { return placed; }
    assert s[0..] == s;
    var p := PassRenders(t, placed, 0, s, matchers[0](s), 0, prot);
    var r := Replaced(s, matchers[0](s), 0, prot);
    placed2 := PassesRender(t, p, r.0, matchers[1..], r.1);
  }

  // ------------------------------------------------------------ restoring

  lemma {:induction false} NoProtInSlice(t: Text, u: nat, v: nat, q: nat)
    requires NoProt(t) && u <= v <= |t|
    ensures !ProtAt(t[u..v], q)
  {
    ProtAtChars(t[u..v], q);
    ProtAtChars(t, u + q);
  }

  /** In rendered text the letters of the prefix come first behind the start of the first tag. */
  lemma FirstProt(t: Text, placed: seq<Placed>, u: nat, q: nat)
    requires NoProt(t) && InOrder(t, placed, u) && ProtAt(Render(t, placed, u), q)
    ensures placed != [] && q >= placed[0].from - u + 3
  {
    var s := Render(t, placed, u);
    if placed == [] {
      assert s == t[u..|t|];
      NoProtInSlice(t, u, |t|, q);
    } else {
      var x := placed[0];
      var lit := t[u..x.from];
      var L := |lit|;
      NoProtInSlice(t, u, x.from, q);
      ProtAtChars(s, q);
      ProtAtChars(lit, q);
      TagChars(x.idx);
      hide Tag;
      assert forall k :: 0 <= k < |Tag(x.idx)| ==> s[L + k] == Tag(x.idx)[k];
      assert forall k :: 0 <= k < L ==> s[k] == lit[k];
      assert s[L] == s[L + 1] == s[L + 2] == UNDERSCORE;
    }
  }

  lemma TagHasProt(s: Text, q: nat, i: nat)
    requires q <= |s| && StartsWith(s[q..], Tag(i))
    ensures ProtAt(s, q + 3)
  {
    TagChars(i);
    ProtAtChars(s, q + 3);
    hide Tag;
    forall k | 3 <= k < 7 ensures s[q + k] == Tag(i)[k] { StartsWithAt(s[q..], Tag(i), k); }
  }

  /** No tag starts in the literal text in front of the first tag. */
  lemma NoTagInLiteral(t: Text, placed: seq<Placed>, u: nat, i: nat, q: nat)
    requires NoProt(t) && InOrder(t, placed, u) && q <= |Render(t, placed, u)|
    requires placed != [] ==> q < placed[0].from - u
    ensures !StartsWith(Render(t, placed, u)[q..], Tag(i))
  {
    if StartsWith(Render(t, placed, u)[q..], Tag(i)) {
      TagHasProt(Render(t, placed, u), q, i);
      FirstProt(t, placed, u, q + 3);
    }
  }

  /** No tag starts within a tag. */
  lemma NoTagInTag(t: Text, placed: seq<Placed>, u: nat, j: nat, i: nat, o: nat)
    requires NoProt(t) && InOrder(t, placed, u) && 0 < o < |Tag(j)|
    ensures !StartsWith((Tag(j) + Render(t, placed, u))[o..], Tag(i))
  {
    var rest := Render(t, placed, u);
    var s := Tag(j) + rest;
    if StartsWith(s[o..], Tag(i)) {
      TagHasProt(s, o, i);
      ProtAtChars(s, o + 3);
      TagChars(j);
      hide Tag, Render;
      var T := |Tag(j)|;
      if o + 3 < T {
        assert s[o + 3] == Tag(j)[o + 3];
        NoPInTag(j, o + 3);
      } else {
        var q := o + 3 - T;
        assert s[T + q] == rest[q] && s[T + q + 1] == rest[q + 1] && s[T + q + 2] == rest[q + 2] && s[T + q + 3] == rest[q + 3];
        ProtAtChars(rest, q);
        FirstProt(t, placed, u, q);
      }
    }
  }

  lemma NoPInTag(j: nat, k: nat)
    requires 3 < k < |Tag(j)|
    ensures Tag(j)[k] != 0x50
  {
    TagChars(j);
    var d := |Decimal(j)|;
    if 7 <= k < 7 + d { assert Tag(j)[7 + (k - 7)] == Decimal(j)[k - 7]; }
  }

  /** The tags that are left when number 'i' is restored. */
  function Without(placed: seq<Placed>, i: nat): seq<Placed> {
    if placed == [] then []
    else (if placed[0].idx == i then [] else [placed[0]]) + Without(placed[1..], i)
  }

  lemma WithoutCons(placed: seq<Placed>, i: nat)
    requires placed != []
    ensures Without(placed, i) ==
            if placed[0].idx == i then Without(placed[1..], i) else [placed[0]] + Without(placed[1..], i)
  {
    assert [] + Without(placed[1..], i) == Without(placed[1..], i);
  }

  lemma {:induction false} WithoutKeeps(t: Text, placed: seq<Placed>, u: nat, i: nat)
    requires InOrder(t, placed, u)
    ensures InOrder(t, Without(placed, i), u)
    ensures forall k :: 0 <= k < |Without(placed, i)| ==> Without(placed, i)[k] in placed && Without(placed, i)[k].idx != i
    decreases |placed|
  {
    if placed != [] {
      var x := placed[0];
      WithoutKeeps(t, placed[1..], x.to, i);
      var w := Without(placed[1..], i);
      assert forall y :: y in placed[1..] ==> y in placed;
      WithoutCons(placed, i);
      if x.idx == i { InOrderEarlier(t, w, x.to, u); } else { assert ([x] + w)[1..] == w; }
    }
  }

  lemma InOrderEarlier(t: Text, placed: seq<Placed>, u: nat, v: nat)
    requires InOrder(t, placed, u) && v <= u
    ensures InOrder(t, placed, v)
  {
  }

  /** Filling in the literal text between 'u' and 'v' in front. */
  lemma RenderEarlier(t: Text, placed: seq<Placed>, u: nat, v: nat)
    requires InOrder(t, placed, v) && u <= v
    ensures InOrder(t, placed, u) && Render(t, placed, u) == t[u..v] + Render(t, placed, v)
  {
    hide Tag, Render, InOrder, BehindLiteral;
    RenderFront(t, placed, v);
    InOrderAt(t, placed, v, u);
    RenderFront(t, placed, u);
    var w := LiteralEnd(t, placed);
    assert t[u..v] + t[v..w] == t[u..w];
    ConcatAssoc(t[u..v], t[v..w], BehindLiteral(t, placed));
  }

  /** Restoring one number takes its tags out of the rendering. */
  lemma {:induction false} RestoreRenders(t: Text, placed: seq<Placed>, u: nat, i: nat, span: Text)
    requires NoProt(t) && InOrder(t, placed, u)
    requires forall k :: 0 <= k < |placed| && placed[k].idx == i ==> placed[k].from <= placed[k].to <= |t| && span == t[placed[k].from..placed[k].to]
    ensures InOrder(t, Without(placed, i), u)
    ensures ReplaceAll(Render(t, placed, u), Tag(i), span) == Render(t, Without(placed, i), u)
    decreases |placed|
  {
    hide Tag, StartsWith, ReplaceAll, Render;
    WithoutKeeps(t, placed, u, i);
    var s := Render(t, placed, u);
    if placed == [] {
      forall q | 0 <= q < |s| ensures !StartsWith(s[q..], Tag(i)) { NoTagInLiteral(t, placed, u, i, q); }
      ReplaceAllSkip(s, Tag(i), span, |s|);
      ReplaceAllNone(s, Tag(i), span);
    } else {
      var x := placed[0];
      var lit, rest := t[u..x.from], Render(t, placed[1..], x.to);
      RenderFirst(t, placed, u, x, rest);
      ConcatAssoc(lit, Tag(x.idx), rest);
      LiteralKept(t, placed, u, i, span, Tag(x.idx) + rest);
      assert forall k :: 0 <= k < |placed[1..]| ==> placed[1..][k] == placed[k + 1];
      RestoreRenders(t, placed[1..], x.to, i, span);
      WithoutCons(placed, i);
      if x.idx == i {
        TagIsUnique(i, i, rest);
        TagReplaced(Tag(i), rest, span);
        assert span == t[x.from..x.to];
        var w := Without(placed[1..], i);
        RenderEarlier(t, w, u, x.to);
        assert lit + t[x.from..x.to] == t[u..x.to];
        ConcatAssoc(lit, span, Render(t, w, x.to));
      } else {
        TagKept(t, placed[1..], x.to, x.idx, i, span);
        RenderCons(t, x, Without(placed[1..], i), u);
        ConcatAssoc(lit, Tag(x.idx), Render(t, Without(placed[1..], i), x.to));
      }
    }
  }

  lemma ReplaceAllNone(s: Text, tag: Text, span: Text)
    requires tag != [] && ReplaceAll(s, tag, span) == s[..|s|] + ReplaceAll(s[|s|..], tag, span)
    ensures ReplaceAll(s, tag, span) == s
  {
  }

  lemma TagReplaced(tag: Text, rest: Text, span: Text)
    requires tag != [] && StartsWith(tag + rest, tag)
    ensures ReplaceAll(tag + rest, tag, span) == span + ReplaceAll(rest, tag, span)
  {
    hide StartsWith;
    assert (tag + rest)[|tag|..] == rest;
  }

  lemma LiteralKept(t: Text, placed: seq<Placed>, u: nat, i: nat, span: Text, tail: Text)
    requires NoProt(t) && InOrder(t, placed, u) && placed != []
    requires Render(t, placed, u) == t[u..placed[0].from] + tail
    ensures ReplaceAll(Render(t, placed, u), Tag(i), span) == t[u..placed[0].from] + ReplaceAll(tail, Tag(i), span)
  {
    hide Tag, StartsWith, ReplaceAll, Render;
    var s, lit := Render(t, placed, u), t[u..placed[0].from];
    forall q | 0 <= q < |lit| ensures !StartsWith(s[q..], Tag(i)) { NoTagInLiteral(t, placed, u, i, q); }
    ReplaceAllSkip(s, Tag(i), span, |lit|);
    assert s[..|lit|] == lit && s[|lit|..] == tail;
  }

  lemma TagKept(t: Text, placed: seq<Placed>, u: nat, j: nat, i: nat, span: Text)
    requires NoProt(t) && InOrder(t, placed, u) && i != j
    ensures ReplaceAll(Tag(j) + Render(t, placed, u), Tag(i), span) == Tag(j) + ReplaceAll(Render(t, placed, u), Tag(i), span)
  {
    hide Tag, StartsWith, ReplaceAll, Render;
    var rest := Render(t, placed, u);
    var s := Tag(j) + rest;
    forall q | 0 <= q < |Tag(j)| ensures !StartsWith(s[q..], Tag(i)) {
      if q == 0 {
        TagIsUnique(i, j, rest);
        assert s[0..] == s;
      } else {
        NoTagInTag(t, placed, u, j, i, q);
      }
    }
    ReplaceAllSkip(s, Tag(i), span, |Tag(j)|);
    assert s[..|Tag(j)|] == Tag(j) && s[|Tag(j)|..] == rest;
  }

  /** Restoring in the order of the numbers leads back to the original text. */
  lemma {:induction false} RestoreAll(t: Text, placed: seq<Placed>, prot: seq<Text>, i: nat)
    requires NoProt(t) && InOrder(t, placed, 0) && Recorded(t, placed, prot) && i <= |prot|
    requires forall k :: 0 <= k < |placed| ==> placed[k].idx >= i
    ensures Restored(Render(t, placed, 0), prot, i) == t
    decreases |prot| - i
  {
    hide Render, ReplaceAll, Tag;
    if i == |prot| {
      NothingPlaced(t, placed, prot);
    } else {
      RestoreRenders(t, placed, 0, i, prot[i]);
      WithoutKeeps(t, placed, 0, i);
      var w := Without(placed, i);
      forall k | 0 <= k < |w| ensures w[k].idx >= i + 1 && w[k] in placed {
        var l :| 0 <= l < |placed| && placed[l] == w[k];
      }
      RecordedSubset(t, w, placed, prot);
      RestoreAll(t, w, prot, i + 1);
    }
  }

  lemma RecordedSubset(t: Text, w: seq<Placed>, placed: seq<Placed>, prot: seq<Text>)
    requires Recorded(t, placed, prot) && forall k :: 0 <= k < |w| ==> w[k] in placed
    ensures Recorded(t, w, prot)
  {
    forall k | 0 <= k < |w|
      ensures w[k].idx < |prot| && w[k].from <= w[k].to <= |t| && prot[w[k].idx] == t[w[k].from..w[k].to]
    {
      var l :| 0 <= l < |placed| && placed[l] == w[k];
    }
  }

  lemma FirstIsRecorded(t: Text, placed: seq<Placed>, prot: seq<Text>)
    requires Recorded(t, placed, prot)
    ensures placed != [] ==> placed[0].idx < |prot|
  {
  }

  lemma NothingPlaced(t: Text, placed: seq<Placed>, prot: seq<Text>)
    requires InOrder(t, placed, 0) && Recorded(t, placed, prot) && forall k :: 0 <= k < |placed| ==> placed[k].idx >= |prot|
    ensures placed == [] && Render(t, placed, 0) == t
  {
    FirstIsRecorded(t, placed, prot);
    assert t[0..] == t;
  }

  /** Protecting and restoring undo each other, for any patterns: when the text does not hold the
      letters of the prefix, and no match that is replaced overlaps an earlier placeholder. */
  lemma RestoreUndoesProtect(t: Text, matchers: seq<Matcher>)
    requires AreMatchers(matchers) && NoProt(t) && AllClear(t, matchers, [])
    ensures var r := Protected(t, matchers, []); Restored(r.0, r.1, 0) == t
  {
    assert t[0..] == t;
    RenderNil(t, 0);
    var placed := PassesRender(t, [], t, matchers, []);
    RestoreAll(t, placed, Protected(t, matchers, []).1, 0);
  }

  // ------------------------------------------------------------ when a placeholder is swallowed

  ghost predicate Holds(s: Text, w: Text) {
    exists q: nat :: q <= |s| && StartsWith(s[q..], w)
  }

  /** The part of a tag that names it. */
  function Core(n: nat): (c: Text)
    ensures |c| == 4 + |Decimal(n)|
  {
    PROT + Decimal(n)
  }

  lemma HoldsBehind(a: Text, s: Text, w: Text)
    requires Holds(s, w)
    ensures Holds(a + s, w)
  {
    var q: nat :| q <= |s| && StartsWith(s[q..], w);
    hide StartsWith;
    assert (a + s)[|a| + q..] == s[q..];
  }

  lemma {:induction false} LongerNumber(i: nat, k: nat)
    requires i <= k
    ensures |Decimal(i)| <= |Decimal(k)|
    decreases k
  {
    if k >= 10 && i >= 10 { LongerNumber(i / 10, k / 10); }
  }

  lemma CoreChars(n: nat)
    ensures var c := Core(n);
            && c[0] == 0x50 && c[1] == 0x52 && c[2] == 0x4F && c[3] == 0x54
            && forall k :: 0 <= k < |Decimal(n)| ==> c[4 + k] == Decimal(n)[k]
    ensures forall k :: 0 <= k < |Core(n)| ==> Core(n)[k] != UNDERSCORE
  {
    var c := Core(n);
    forall k | 0 <= k < |c| ensures c[k] != UNDERSCORE {
      if k >= 4 { assert IsAsciiDigit(Decimal(n)[k - 4]); }
    }
  }

  lemma OnlyPInTag(j: nat, k: nat)
    requires k < |Tag(j)| && Tag(j)[k] == 0x50
    ensures k == 3
  {
    TagChars(j);
    if k > 3 { NoPInTag(j, k); }
  }

  lemma SameNumber(i: nat, k: nat)
    requires |Decimal(i)| <= |Decimal(k)|
    requires forall m :: 0 <= m < |Decimal(k)| && m <= |Decimal(i)| ==> Tag(i)[7 + m] == Decimal(k)[m]
    ensures i == k
  {
    TagChars(i);
    hide Tag, Decimal;
    var a, b := |Decimal(i)|, |Decimal(k)|;
    var c := if a < b then Decimal(k)[a] else 0x30;
    assert IsAsciiDigit(c);
    assert a == b;
    assert Decimal(i) == Decimal(k);
    DecimalRoundTrip(i);
    DecimalRoundTrip(k);
  }

  /** A tag does not name another number with as many digits or more. */
  lemma CoreNotInTag(s: Text, i: nat, k: nat, q: nat)
    requires i != k && |Decimal(i)| <= |Decimal(k)| && StartsWith(s, Tag(i)) && q <= |s| && StartsWith(s[q..], Core(k))
    ensures q >= |Tag(i)|
  {
    TagChars(i);
    CoreChars(k);
    hide Tag, Core;
    var T, a, b := |Tag(i)|, |Decimal(i)|, |Decimal(k)|;
    if q < T {
      StartsWithAt(s, Tag(i), q);
      StartsWithAt(s[q..], Core(k), 0);
      assert s[q..][0] == s[q] == 0x50;
      OnlyPInTag(i, q);
      forall m | 0 <= m < b && m <= a ensures Tag(i)[7 + m] == Decimal(k)[m] {
        StartsWithAt(s, Tag(i), 7 + m);
        StartsWithAt(s[q..], Core(k), 4 + m);
        assert s[q..][4 + m] == s[7 + m];
      }
      SameNumber(i, k);
    }
  }

  /** Restoring other numbers with as few digits or less leaves a name where it is. */
  lemma {:induction false} CoreStays(s: Text, i: nat, k: nat, span: Text)
    requires i != k && |Decimal(i)| <= |Decimal(k)| && Holds(s, Core(k))
    ensures Holds(ReplaceAll(s, Tag(i), span), Core(k))
    decreases |s|
  {
    CoreChars(k);
    hide Tag, Core, StartsWith;
    var q: nat :| q <= |s| && StartsWith(s[q..], Core(k));
    if s == [] {
    } else if StartsWith(s, Tag(i)) {
      CoreNotInTag(s, i, k, q);
      assert s[|Tag(i)|..][q - |Tag(i)|..] == s[q..];
      CoreStays(s[|Tag(i)|..], i, k, span);
      HoldsBehind(span, ReplaceAll(s[|Tag(i)|..], Tag(i), span), Core(k));
    } else if q == 0 {
      assert s[0..] == s;
      CoreAtFront(s, i, k, span);
    } else {
      assert s[1..][q - 1..] == s[q..];
      CoreStays(s[1..], i, k, span);
      HoldsBehind([s[0]], ReplaceAll(s[1..], Tag(i), span), Core(k));
    }
  }

  lemma CoreAtFront(s: Text, i: nat, k: nat, span: Text)
    requires StartsWith(s, Core(k))
    ensures Holds(ReplaceAll(s, Tag(i), span), Core(k))
  {
    CoreChars(k);
    TagChars(i);
    var c := Core(k);
    forall q | 0 <= q < |c| ensures !StartsWith(s[q..], Tag(i)) {
      assert s[q] == c[q];
      if StartsWith(s[q..], Tag(i)) { StartsWithAt(s[q..], Tag(i), 0); }
    }
    ReplaceAllSkip(s, Tag(i), span, |c|);
    var r := ReplaceAll(s, Tag(i), span);
    assert r[0..] == r && r[..|c|] == c;
  }

  /** Either nothing is replaced, or what is put in can be read. */
  lemma {:induction false} ReplaceShows(s: Text, tag: Text, span: Text)
    requires tag != []
    ensures ReplaceAll(s, tag, span) == s || Holds(ReplaceAll(s, tag, span), span)
    decreases |s|
  {
    if s != [] {
      if StartsWith(s, tag) {
        var r := ReplaceAll(s[|tag|..], tag, span);
        FrontHolds(span, r);
      } else {
        ReplaceShows(s[1..], tag, span);
        if Holds(ReplaceAll(s[1..], tag, span), span) { HoldsBehind([s[0]], ReplaceAll(s[1..], tag, span), span); }
      }
    }
  }

  lemma FrontHolds(w: Text, rest: Text)
    ensures Holds(w + rest, w)
  {
    assert (w + rest)[0..] == w + rest;
    assert StartsWith((w + rest)[0..], w);
  }

  lemma HoldsProt(s: Text, w: Text, p: nat)
    requires Holds(s, w) && ProtAt(w, p)
    ensures !NoProt(s)
  {
    var q: nat :| q <= |s| && StartsWith(s[q..], w);
    ProtAtChars(w, p);
    ProtAtChars(s, q + p);
    forall k | p <= k < p + 4 ensures s[q + k] == w[k] { StartsWithAt(s[q..], w, k); }
    assert ProtAt(s, q + p);
  }

  lemma {:induction false} CoreStaysInRun(s: Text, prot: seq<Text>, i: nat)
    requires i < |prot| && Holds(s, Core(|prot| - 1)) && !NoProt(prot[|prot| - 1])
    ensures !NoProt(Restored(s, prot, i))
    decreases |prot| - i
  {
    hide Tag, ReplaceAll, Core;
    var n := |prot| - 1;
    var r := ReplaceAll(s, Tag(i), prot[i]);
    if i < n {
      LongerNumber(i, n);
      CoreStays(s, i, n, prot[i]);
      CoreStaysInRun(r, prot, i + 1);
    } else {
      ReplaceShows(s, Tag(n), prot[n]);
      var p: nat :| ProtAt(prot[n], p);
      CoreHasProt(n);
      if r == s { HoldsProt(s, Core(n), 0); } else { HoldsProt(r, prot[n], p); }
      assert Restored(r, prot, i + 1) == r;
    }
  }

  lemma CoreHasProt(n: nat)
    ensures ProtAt(Core(n), 0)
  {
  }

  /** The last tag is still in the text when all passes are over. */
  lemma {:induction false} LastTagInPass(s: Text, spans: seq<Span>, last: nat, prot: seq<Text>)
    requires AreMatches(s, spans) && last <= |s| && (spans != [] ==> last <= spans[0].pos)
    ensures var r := Replaced(s, spans, last, prot);
            |r.1| >= |prot| && (|r.1| == |prot| ==> r == (s[last..], prot)) && (|r.1| > |prot| ==> Holds(r.0, Tag(|r.1| - 1)))
    decreases |spans|
  {
    hide Tag, Holds;
    if spans != [] {
      ReplacedStep(s, spans, last, prot, []);
      var m := spans[0];
      if Skipped(s, m) {
        LastTagInPass(s, spans[1..], last, prot);
      } else {
        LastTagInPass(s, spans[1..], m.pos + m.len, prot + [s[m.pos..m.pos + m.len]]);
        var r1 := Replaced(s, spans[1..], m.pos + m.len, prot + [s[m.pos..m.pos + m.len]]);
        var front := s[last..m.pos];
        if |r1.1| > |prot| + 1 {
          HoldsBehind(front + Tag(|prot|), r1.0, Tag(|r1.1| - 1));
        } else {
          FrontHolds(Tag(|prot|), r1.0);
          HoldsBehind(front, Tag(|prot|) + r1.0, Tag(|prot|));
          ConcatAssoc(front, Tag(|prot|), r1.0);
        }
      }
    }
  }

  lemma {:induction false} LastTagStays(s: Text, matchers: seq<Matcher>, prot: seq<Text>)
    requires AreMatchers(matchers)
    ensures var r := Protected(s, matchers, prot);
            |r.1| >= |prot| && (|r.1| == |prot| ==> r == (s, prot)) && (|r.1| > |prot| ==> Holds(r.0, Tag(|r.1| - 1)))
    decreases |matchers|
  {
    hide Tag, Holds, Replaced;
    if matchers != [] {
      LastTagInPass(s, matchers[0](s), 0, prot);
      assert s[0..] == s;
      var r := Replaced(s, matchers[0](s), 0, prot);
      LastTagStays(r.0, matchers[1..], r.1);
    }
  }

  lemma TagHoldsCore(s: Text, n: nat)
    requires Holds(s, Tag(n))
    ensures Holds(s, Core(n))
  {
    var q: nat :| q <= |s| && StartsWith(s[q..], Tag(n));
    TagChars(n);
    CoreChars(n);
    hide Tag, Core;
    var c, u := Core(n), s[q..];
    forall k | 0 <= k < |c| ensures u[3 + k] == c[k] {
      StartsWithAt(u, Tag(n), 3 + k);
      if k >= 4 { assert c[4 + (k - 4)] == Decimal(n)[k - 4] == Tag(n)[7 + (k - 4)]; }
    }
    assert s[q + 3..] == u[3..];
    assert u[3..][..|c|] == c;
    assert StartsWith(s[q + 3..], c);
  }

  /** A placeholder that was swallowed by the last span taken out never comes back as text. */
  lemma SwallowedTagIsLost(t: Text, matchers: seq<Matcher>)
    requires AreMatchers(matchers) && NoProt(t)
    requires var prot := Protected(t, matchers, []).1; prot != [] && !NoProt(prot[|prot| - 1])
    ensures var r := Protected(t, matchers, []); Restored(r.0, r.1, 0) != t
  {
    hide Tag, Core, Protected, Restored;
    LastTagStays(t, matchers, []);
    var r := Protected(t, matchers, []);
    TagHoldsCore(r.0, |r.1| - 1);
    CoreStaysInRun(r.0, r.1, 0);
  }

  const EXAMPLE: Text := [0x2E, 0x2E, 0x23, 0x78]

  /** The patterns for hash tags and dot tokens, as far as they match this one text. */
  function ExampleMatchers(): seq<Matcher> {
    [s => if s == EXAMPLE then [Span(2, 2)] else [],
     s => if s == EXAMPLE[..2] + Tag(0) then [Span(0, 13)] else []]
  }

  lemma ExamplePass(s: Text, pos: nat, len: nat, prot: seq<Text>)
    requires pos + len <= |s| && !Skipped(s, Span(pos, len))
    ensures AreMatches(s, [Span(pos, len)])
    ensures var r := Replaced(s, [Span(pos, len)], 0, prot);
            r.0 == s[0..pos] + Tag(|prot|) + s[pos + len..] && r.1 == prot + [s[pos..pos + len]]
  {
    hide Tag;
    var spans := [Span(pos, len)];
    assert spans[1..] == [];
    ReplacedStep(s, spans, 0, prot, []);
    ReplacedEnd(s, spans[1..], pos + len, prot + [s[pos..pos + len]]);
  }

  /** The text "..#x" does not survive: the dot token takes in the placeholder of the hash tag. */
  lemma ExampleIsLost()
    ensures AreMatchers(ExampleMatchers()) && NoProt(EXAMPLE)
    ensures var r := Protected(EXAMPLE, ExampleMatchers(), []); Restored(r.0, r.1, 0) != EXAMPLE
  {
    var ms := ExampleMatchers();
    var t1 := EXAMPLE[..2] + Tag(0);
    assert Decimal(0) == [0x30];
    assert |t1| == 13;
    TagChars(0);
    forall q: nat ensures !ProtAt(EXAMPLE, q) { ProtAtChars(EXAMPLE, q); }
    ProtAtChars(t1, 5);
    hide Tag;
    ExamplePass(EXAMPLE, 2, 2, []);
    assert EXAMPLE[4..] == [];
    assert EXAMPLE[0..2] + Tag(0) + [] == t1;
    ExamplePass(t1, 0, 13, [EXAMPLE[2..4]]);
    var r0 := Replaced(EXAMPLE, ms[0](EXAMPLE), 0, []);
    assert [] + [EXAMPLE[2..4]] == [EXAMPLE[2..4]];
    assert r0.0 == t1 && r0.1 == [EXAMPLE[2..4]];
    var r1 := Replaced(t1, ms[1](t1), 0, r0.1);
    assert r1.1 == [EXAMPLE[2..4], t1[0..13]];
    assert t1[0..13] == t1;
    assert ms[1..][1..] == [];
    assert Protected(EXAMPLE, ms, []) == r1;
    assert !NoProt(t1);
    SwallowedTagIsLost(EXAMPLE, ms);
  }
}
