/** When restoring gives a protected text back. */
module PlaceholdersExact {
  import opened Spaces
  import opened Placeholders
  import opened PlaceholdersRoundTrip
  import opened PlaceholderMarks
  import opened PlaceholderRegions
  import opened PlaceholdersLost

  // ------------------------------------------------------------ a match on a placeholder

  lemma {:induction false} DigitsPassed(s: Text, i: nat)
    requires i <= |s|
    ensures forall k :: i <= k < AfterDigits(s, i) ==> IsAsciiDigit(s[k])
    decreases |s| - i
  {
    if i < |s| && IsAsciiDigit(s[i]) { DigitsPassed(s, i + 1); }
  }

  /** A placeholder begins with an underscore and is one word. */
  lemma TokenIsWord(s: Text)
    requires TokenLength(s) > 0
    ensures s[0] == UNDERSCORE && forall k :: 0 <= k < TokenLength(s) ==> IsWordChar(s[k])
  {
    DigitsPassed(s, 7);
    var e := AfterDigits(s, 7);
    assert forall k :: 0 <= k < 7 ==> s[k] == PROTECT_PREFIX[k];
    forall k | e <= k < e + 3 ensures s[k] == UNDERSCORE { assert s[e..e + 3][k - e] == TAG_END[k - e]; }
  }

  /** A match that is replaced and overlaps a placeholder takes in its first underscore. */
  lemma TakesUnderscore(s: Text, m: Span)
    requires m.pos + m.len <= |s| && !Skipped(s, m) && !IsClear(s, m)
    ensures UNDERSCORE in s[m.pos..m.pos + m.len]
  {
    var p: nat :| p <= |s| && TokenLength(s[p..]) > 0 && !(m.pos + m.len <= p || p + TokenLength(s[p..]) <= m.pos);
    TokenIsWord(s[p..]);
    forall q | p <= q < p + TokenLength(s[p..]) ensures IsWordChar(s[q]) { assert s[p..][q - p] == s[q]; }
    assert s[m.pos..m.pos + m.len][p - m.pos] == s[p..][0];
  }

  lemma {:induction false} SpanRecorded(s: Text, spans: seq<Span>, last: nat, prot: seq<Text>, i: nat)
    requires AreMatches(s, spans) && last <= |s| && (spans != [] ==> last <= spans[0].pos)
    requires i < |spans| && spans[i].pos + spans[i].len <= |s| && !Skipped(s, spans[i])
    ensures s[spans[i].pos..spans[i].pos + spans[i].len] in Replaced(s, spans, last, prot).1
    decreases |spans|
  {
    hide Tag, Skipped;
    ReplacedStep(s, spans, last, prot, []);
    var m := spans[0];
    if Skipped(s, m) {
      assert spans[1..][i - 1] == spans[i];
      SpanRecorded(s, spans[1..], last, prot, i - 1);
    } else {
      var e, prot2 := m.pos + m.len, prot + [s[m.pos..m.pos + m.len]];
      if i == 0 {
        RecordsGrow(s, spans[1..], e, prot2);
        assert prot2[|prot|] == s[m.pos..e];
      } else {
        assert spans[1..][i - 1] == spans[i];
        SpanRecorded(s, spans[1..], e, prot2, i - 1);
      }
    }
  }

  lemma {:induction false} RecordsGrow(s: Text, spans: seq<Span>, last: nat, prot: seq<Text>)
    requires AreMatches(s, spans) && last <= |s| && (spans != [] ==> last <= spans[0].pos)
    ensures prot <= Replaced(s, spans, last, prot).1
    decreases |spans|
  {
    hide Tag, Skipped;
    if spans != [] {
      ReplacedStep(s, spans, last, prot, []);
      var m := spans[0];
      if Skipped(s, m) {
        RecordsGrow(s, spans[1..], last, prot);
      } else {
        RecordsGrow(s, spans[1..], m.pos + m.len, prot + [s[m.pos..m.pos + m.len]]);
      }
    }
  }

  lemma {:induction false} AllRecordsGrow(s: Text, matchers: seq<Matcher>, prot: seq<Text>)
    requires AreMatchers(matchers)
    ensures prot <= Protected(s, matchers, prot).1
    decreases |matchers|
  {
    hide Replaced;
    if matchers != [] {
      RecordsGrow(s, matchers[0](s), 0, prot);
      var r := Replaced(s, matchers[0](s), 0, prot);
      AllRecordsGrow(r.0, matchers[1..], r.1);
    }
  }

  ghost predicate HoldsUnderscore(prot: seq<Text>) {
    exists k :: 0 <= k < |prot| && UNDERSCORE in prot[k]
  }

  /** A match on a placeholder leaves an underscore in a recorded span. */
  lemma {:induction false} OverlapIsRecorded(s: Text, matchers: seq<Matcher>, prot: seq<Text>)
    requires AreMatchers(matchers) && !AllClear(s, matchers, prot)
    ensures HoldsUnderscore(Protected(s, matchers, prot).1)
    decreases |matchers|
  {
    hide Replaced, IsClear, Skipped;
    var spans := matchers[0](s);
    var r := Replaced(s, spans, 0, prot);
    if AreClear(s, spans) {
      OverlapIsRecorded(r.0, matchers[1..], r.1);
    } else {
      var i :| 0 <= i < |spans| && spans[i].pos <= |s| && !Skipped(s, spans[i]) && !IsClear(s, spans[i]);
      var m := spans[i];
      assert m.pos + m.len <= |s|;
      SpanRecorded(s, spans, 0, prot, i);
      TakesUnderscore(s, m);
      AllRecordsGrow(r.0, matchers[1..], r.1);
      var k :| 0 <= k < |r.1| && r.1[k] == s[m.pos..m.pos + m.len];
      assert UNDERSCORE in Protected(s, matchers, prot).1[k];
    }
  }

  // ------------------------------------------------------------ the stop

  lemma {:induction false} ReplaceBeforeStop(s: Text, i: nat, span: Text)
    ensures ReplaceAll(s + [STOP], Tag(i), span) == ReplaceAll(s, Tag(i), span) + [STOP]
    decreases |s|
  {
    hide Tag, StartsWith, ReplaceAll;
    var X := s + [STOP];
    ReplaceUnfold(X, Tag(i), span);
    SameReading(s, i);
    if StartsWith(s, Tag(i)) { StartsWithFits(s, Tag(i)); }
    if s == [] {
      assert X[1..] == [];
      NothingToReplace(Tag(i), span);
    } else {
      ReplaceUnfold(s, Tag(i), span);
      if StartsWith(s, Tag(i)) {
        assert X[|Tag(i)|..] == s[|Tag(i)|..] + [STOP];
        ReplaceBeforeStop(s[|Tag(i)|..], i, span);
      } else {
        assert X[1..] == s[1..] + [STOP];
        ReplaceBeforeStop(s[1..], i, span);
      }
    }
  }

  lemma NothingToReplace(tag: Text, span: Text)
    requires tag != []
    ensures ReplaceAll([], tag, span) == []
  {
  }

  lemma SameReading(s: Text, i: nat)
    ensures StartsWith(s + [STOP], Tag(i)) <==> StartsWith(s, Tag(i))
  {
    TagWord(i);
    hide Tag;
    var X, T := s + [STOP], |Tag(i)|;
    if StartsWith(X, Tag(i)) {
      if T == |X| { StartsWithAt(X, Tag(i), |s|); }
      assert X[..T] == s[..T];
    }
    if StartsWith(s, Tag(i)) { assert X[..T] == s[..T]; }
  }

  lemma {:induction false} RestoreBeforeStop(s: Text, prot: seq<Text>, i: nat)
    requires i <= |prot|
    ensures Restored(s + [STOP], prot, i) == Restored(s, prot, i) + [STOP]
    decreases |prot| - i
  {
    hide Tag, ReplaceAll;
    if i < |prot| {
      ReplaceBeforeStop(s, i, prot[i]);
      RestoreBeforeStop(ReplaceAll(s, Tag(i), prot[i]), prot, i + 1);
    }
  }

  lemma ProtBeforeStop(s: Text)
    requires !NoProt(s + [STOP])
    ensures !NoProt(s)
  {
    var q: nat :| ProtAt(s + [STOP], q);
    ProtAtChars(s + [STOP], q);
    ProtAtChars(s, q);
    assert ProtAt(s, q);
  }

  // ------------------------------------------------------------ the condition

  lemma {:induction false} LargestDirty(sp: seq<seq<Mark>>, n: nat) returns (k: nat)
    requires n <= |sp| && exists l :: 0 <= l < n && IsDirty(sp[l])
    ensures k < n && IsDirty(sp[k]) && forall l :: k < l < n ==> !IsDirty(sp[l])
    decreases n
  {
    if IsDirty(sp[n - 1]) { k := n - 1; } else { k := LargestDirty(sp, n - 1); }
  }

  lemma UnderscoreIsSign(t: Text, sp: seq<seq<Mark>>, n: nat, span: seq<Mark>)
    requires UNDERSCORE !in t && IsPiece(t, sp, n, span) && UNDERSCORE in Plain(span)
    ensures IsDirty(span)
  {
    hide Tag, Link;
    var k :| 0 <= k < |span| && Plain(span)[k] == UNDERSCORE;
    assert CharOf(span[k]) == UNDERSCORE && Fits(t, sp, n, span[k]);
  }

  /** A protected span with an underscore, of a text without any, is one that does not come back. */
  lemma UnderscoreIsLost(t: Text, matchers: seq<Matcher>)
    requires AreMatchers(matchers) && NoProt(t) && UNDERSCORE !in t
    requires HoldsUnderscore(Protected(t, matchers, []).1)
    ensures var r := Protected(t, matchers, []); !NoProt(Restored(r.0, r.1, 0))
  {
    hide Tag, Link, CharOf, Protected, Restored, Plain, NamesDiffer, AgesAgree, AllFit, Chain, NoProt;
    MarksAtStart(t);
    var ms, sp := ProtectedMarks(t, t, matchers, [], MarksOf(t), []);
    var r := Protected(t, matchers, []);
    var k :| 0 <= k < |r.1| && UNDERSCORE in r.1[k];
    assert Plain(sp[k]) == r.1[k] && IsPiece(t, sp, k, sp[k]);
    UnderscoreIsSign(t, sp, k, sp[k]);
    var n := LargestDirty(sp, |sp|);
    assert HasName(ms, n) || IsSwallowed(sp, n);
    forall l | n < l < |sp| ensures !HasName(sp[l], n) { assert !IsDirty(sp[l]); }
    Run(t, sp, r.1, ms, 0, n);
    RestoreBeforeStop(r.0, r.1, 0);
    ProtBeforeStop(Restored(r.0, r.1, 0));
  }

  /** For a text without underscores and without the letters of the prefix, and any patterns:
      restoring gives the text back if and only if no match that is replaced overlaps an earlier
      placeholder, and that is so if and only if no protected span holds an underscore. */
  lemma RestoreUndoesProtectWhen(t: Text, matchers: seq<Matcher>)
    requires AreMatchers(matchers) && NoProt(t) && UNDERSCORE !in t
    ensures var r := Protected(t, matchers, []); Restored(r.0, r.1, 0) == t <==> AllClear(t, matchers, [])
    ensures AllClear(t, matchers, []) <==> !HoldsUnderscore(Protected(t, matchers, []).1)
  {
    hide Protected, Restored, AllClear, NoProt, HoldsUnderscore;
    if AllClear(t, matchers, []) { RestoreUndoesProtect(t, matchers); } else { OverlapIsRecorded(t, matchers, []); }
    if HoldsUnderscore(Protected(t, matchers, []).1) { UnderscoreIsLost(t, matchers); }
  }
}
