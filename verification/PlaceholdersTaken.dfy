/** Which matches a pass protects, and what it copies, by the characters of the text. */
module PlaceholdersTaken {
  import opened Spaces
  import opened Placeholders

  /** A match is taken when it begins the text or stands behind no ASCII letter, digit or underscore. */
  predicate IsTaken(s: Text, m: Span)
    requires m.pos <= |s|
  {
    m.pos == 0 ||
    var c := s[m.pos - 1];
    !(0x30 <= c <= 0x39 || 0x41 <= c <= 0x5A || 0x61 <= c <= 0x7A || c == 0x5F)
  }

  /** The spans lie, in order, in the text from 'last' on. */
  ghost predicate InLine(s: Text, spans: seq<Span>, last: nat)
    decreases |spans|
  {
    if spans == [] then last <= |s|
    else last <= spans[0].pos && spans[0].pos + spans[0].len <= |s| && InLine(s, spans[1..], spans[0].pos + spans[0].len)
  }

  /** The matches that are taken, in order. */
  ghost function Taken(s: Text, spans: seq<Span>, last: nat): seq<Span>
    requires InLine(s, spans, last)
    decreases |spans|
  {
    if spans == [] then []
    else
      var rest := Taken(s, spans[1..], spans[0].pos + spans[0].len);
      if IsTaken(s, spans[0]) then [spans[0]] + rest else rest
  }

  /** What they match. */
  ghost function Texts(s: Text, spans: seq<Span>, last: nat): seq<Text>
    requires InLine(s, spans, last)
    decreases |spans|
  {
    if spans == [] then []
    else
      var m := spans[0];
      [s[m.pos..m.pos + m.len]] + Texts(s, spans[1..], m.pos + m.len)
  }

  /** The text from 'last' on, each match given way to "___PROT", a number from 'n' on, and "___". */
  ghost function Laid(s: Text, spans: seq<Span>, last: nat, n: nat): Text
    requires InLine(s, spans, last)
    decreases |spans|
  {
    if spans == [] then s[last..]
    else
      var m := spans[0];
      s[last..m.pos] + ([0x5F, 0x5F, 0x5F, 0x50, 0x52, 0x4F, 0x54] + Decimal(n) + [0x5F, 0x5F, 0x5F])
      + Laid(s, spans[1..], m.pos + m.len, n + 1)
  }

  lemma {:induction false} MatchesInLine(s: Text, spans: seq<Span>, last: nat)
    requires AreMatches(s, spans) && last <= |s| && (spans != [] ==> last <= spans[0].pos)
    ensures InLine(s, spans, last)
    decreases |spans|
  {
    if spans != [] {
      assert spans[0].pos + spans[0].len <= |s|;
      MatchesInLine(s, spans[1..], spans[0].pos + spans[0].len);
    }
  }

  lemma InLineFrom(s: Text, spans: seq<Span>, last: nat, before: nat)
    requires InLine(s, spans, last) && before <= last
    ensures InLine(s, spans, before)
  {
  }

  /** The matches that are taken are those with nothing of a word before them. */
  lemma {:induction false} TakenAre(s: Text, spans: seq<Span>, last: nat)
    requires InLine(s, spans, last)
    ensures var taken := Taken(s, spans, last);
            InLine(s, taken, last) && forall m :: m in taken <==> m in spans && m.pos <= |s| && IsTaken(s, m)
    decreases |spans|
  {
    hide IsTaken;
    if spans != [] {
      var m, rest := spans[0], spans[1..];
      TakenAre(s, rest, m.pos + m.len);
      var taken := Taken(s, rest, m.pos + m.len);
      assert spans == [m] + rest;
      if IsTaken(s, m) {
        assert ([m] + taken)[1..] == taken;
      } else {
        InLineFrom(s, taken, m.pos + m.len, last);
      }
    }
  }

  /** A pass protects exactly the matches that are taken: their texts are recorded in order, their
      places get the tags, and everything else is copied. */
  lemma {:induction false} ReplacedExactly(s: Text, spans: seq<Span>, last: nat, prot: seq<Text>)
    requires AreMatches(s, spans) && last <= |s| && (spans != [] ==> last <= spans[0].pos)
    ensures InLine(s, spans, last) && InLine(s, Taken(s, spans, last), last)
    ensures var r, taken := Replaced(s, spans, last, prot), Taken(s, spans, last);
            r.1 == prot + Texts(s, taken, last) && r.0 == Laid(s, taken, last, |prot|)
    decreases |spans|
  {
    hide Decimal, AreMatches, IsTaken, Skipped, Texts, Laid, Replaced, Tag, InLine, Taken;
    MatchesInLine(s, spans, last);
    TakenAre(s, spans, last);
    if spans == [] {
      ReplacedEnd(s, spans, last, prot);
      NothingTaken(s, spans, last, |prot|);
    } else {
      var m, rest := spans[0], spans[1..];
      ReplacedStep(s, spans, last, prot, []);
      TakenIsNotSkipped(s, m);
      var e := m.pos + m.len;
      MatchesInLine(s, rest, e);
      TakenStep(s, spans, last, |prot|);
      if IsTaken(s, m) {
        ReplacedExactly(s, rest, e, prot + [s[m.pos..e]]);
        assert [] + s[last..m.pos] == s[last..m.pos];
        OneMoreText(prot, s[m.pos..e], Texts(s, Taken(s, rest, e), e));
      } else {
        ReplacedExactly(s, rest, last, prot);
        SkippedTaken(s, rest, e, last);
      }
    }
  }

  lemma OneMoreText(prot: seq<Text>, text: Text, texts: seq<Text>)
    ensures prot + [text] + texts == prot + ([text] + texts)
  {
  }

  lemma NothingTaken(s: Text, spans: seq<Span>, last: nat, n: nat)
    requires InLine(s, spans, last) && spans == []
    ensures Taken(s, spans, last) == [] && Texts(s, [], last) == [] && Laid(s, [], last, n) == s[last..]
  {
  }

  lemma TakenStep(s: Text, spans: seq<Span>, last: nat, n: nat)
    requires InLine(s, spans, last) && spans != []
    ensures var m := spans[0];
            && m.pos + m.len <= |s| && last <= m.pos && InLine(s, spans[1..], m.pos + m.len)
            && var e, taken := m.pos + m.len, Taken(s, spans[1..], m.pos + m.len);
            && InLine(s, taken, e)
            && Taken(s, spans, last) == (if IsTaken(s, m) then [m] + taken else taken)
            && InLine(s, [m] + taken, last)
            && Texts(s, [m] + taken, last) == [s[m.pos..e]] + Texts(s, taken, e)
            && Laid(s, [m] + taken, last, n) == s[last..m.pos] + Tag(n) + Laid(s, taken, e, n + 1)
  {
    hide Decimal, IsTaken;
    var m := spans[0];
    TakenAre(s, spans[1..], m.pos + m.len);
    var taken := Taken(s, spans[1..], m.pos + m.len);
    assert ([m] + taken)[1..] == taken && ([m] + taken)[0] == m;
    TagIs(n);
    hide Tag;
  }

  lemma TakenIsNotSkipped(s: Text, m: Span)
    requires m.pos <= |s|
    ensures IsTaken(s, m) <==> !Skipped(s, m)
  {
  }

  lemma TagIs(n: nat)
    ensures Tag(n) == [0x5F, 0x5F, 0x5F, 0x50, 0x52, 0x4F, 0x54] + Decimal(n) + [0x5F, 0x5F, 0x5F]
  {
  }

  lemma SkippedTaken(s: Text, rest: seq<Span>, e: nat, last: nat)
    requires InLine(s, rest, e) && last <= e
    ensures InLine(s, rest, last) && Taken(s, rest, last) == Taken(s, rest, e)
  {
  }

  /** All passes, each protecting exactly what is taken in the text that the last one left. */
  ghost function ProtectedBy(s: Text, matchers: seq<Matcher>, prot: seq<Text>): (Text, seq<Text>)
    requires AreMatchers(matchers)
    decreases |matchers|
  {
    if matchers == [] then (s, prot)
    else
      var spans := matchers[0](s);
      MatchesInLine(s, spans, 0);
      TakenAre(s, spans, 0);
      var taken := Taken(s, spans, 0);
      ProtectedBy(Laid(s, taken, 0, |prot|), matchers[1..], prot + Texts(s, taken, 0))
  }

  lemma {:induction false} ProtectedExactly(s: Text, matchers: seq<Matcher>, prot: seq<Text>)
    requires AreMatchers(matchers)
    ensures Protected(s, matchers, prot) == ProtectedBy(s, matchers, prot)
    decreases |matchers|
  {
    hide Replaced, Laid, Texts, Taken;
    if matchers != [] {
      var spans := matchers[0](s);
      ReplacedExactly(s, spans, 0, prot);
      var r := Replaced(s, spans, 0, prot);
      ProtectedExactly(r.0, matchers[1..], r.1);
    }
  }
}
