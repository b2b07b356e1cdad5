/** The spacing rules of the text normalizer, on the code points of a text. */
module Spaces {

  type Text = seq<int>

  const SPACE: int := 0x20
  const TAB: int := 0x09
  const UNDERSCORE: int := 0x5F

  /** The text "___PROT" with which a placeholder begins. */
  const PROTECT_PREFIX: Text := [0x5F, 0x5F, 0x5F, 0x50, 0x52, 0x4F, 0x54]
  const TAG_END: Text := [0x5F, 0x5F, 0x5F]

  // ------------------------------------------------------------ characters

  datatype Category = Cjk | Kana | Digit | Latin | Other

  predicate IsAsciiDigit(c: int) { 0x30 <= c <= 0x39 }

  function CharCategory(c: int): Category {
    if c < 0x80 then
      if IsAsciiDigit(c) then Digit
      else if 0x41 <= c <= 0x5A || 0x61 <= c <= 0x7A then Latin
      else Other
    else if 0x4E00 <= c <= 0x9FFF || 0x3400 <= c <= 0x4DBF then Cjk
    else if 0x3040 <= c <= 0x30FF then Kana
    else if 0xFF10 <= c <= 0xFF19 then Digit
    else Other
  }

  predicate IsCk(c: int) { CharCategory(c) == Cjk || CharCategory(c) == Kana }

  predicate IsDigit(c: int) { CharCategory(c) == Digit }

  predicate IsLatin(c: int) { CharCategory(c) == Latin }

  /** Full-width punctuation that takes no space on either side. */
  predicate IsAfter(c: int) {
    c in {0xFF0C, 0x3002, 0xFF01, 0xFF1F, 0xFF1B, 0xFF1A, 0x3001, 0x201C, 0x201D, 0x300F, 0x300D, 0x3011, 0xFF09, 0x300B}
  }

  /** Opening marks, which take no space behind them. */
  predicate IsBefore(c: int) {
    c in {0xFF08, 0x3010, 0x300C, 0x300E, 0x300A, 0x201C, 0x2018}
  }

  /** What \s matches. */
  predicate IsBlank(c: int) { c == SPACE || 0x09 <= c <= 0x0D }

  /** What [,.;!?] matches. */
  predicate IsAsciiPunct(c: int) { c in {0x2C, 0x2E, 0x3B, 0x21, 0x3F} }

  // ------------------------------------------------------------ the passes as functions

  /** The first position from 'i' on that holds no space. */
  function AfterSpaces(s: Text, i: nat): (n: nat)
    requires i <= |s|
    ensures i <= n <= |s| && (n < |s| ==> s[n] != SPACE)
    decreases |s| - i
  {
    if i < |s| && s[i] == SPACE then AfterSpaces(s, i + 1) else i
  }

  /** Every run of spaces becomes one space. */
  function Collapse(s: Text): Text {
    if |s| < 2 then s
    else if s[0] == SPACE && s[1] == SPACE then Collapse(s[1..])
    else [s[0]] + Collapse(s[1..])
  }

  /** Pairs that are written without space between them: CJK or kana with each other, or, in the
      second pass, with digits. */
  predicate Tight(digits: bool, l: int, r: int) {
    if digits then (IsCk(l) && IsDigit(r)) || (IsDigit(l) && IsCk(r)) else IsCk(l) && IsCk(r)
  }

  function Join(digits: bool, s: Text): Text
    decreases |s|
  {
    if s == [] then []
    else
      var n := AfterSpaces(s, 1);
      if n < |s| && Tight(digits, s[0], s[n]) then [s[0]] + Join(digits, s[n..])
      else [s[0]] + Join(digits, s[1..])
  }

  predicate HasPrefix(s: Text) { |s| >= 7 && s[..7] == PROTECT_PREFIX }

  function AfterDigits(s: Text, i: nat): (n: nat)
    requires i <= |s|
    ensures i <= n <= |s|
    decreases |s| - i
  {
    if i < |s| && IsAsciiDigit(s[i]) then AfterDigits(s, i + 1) else i
  }

  /** Length of the placeholder at the front, 0 if there is none. */
  function TokenLength(s: Text): (n: nat)
    ensures n <= |s| && (n > 0 ==> n >= 10)
  {
    if !HasPrefix(s) then 0
    else
      var e := AfterDigits(s, 7);
      if e + 3 <= |s| && s[e..e + 3] == TAG_END then e + 3 else 0
  }

  /** CJK or kana, possibly after one space, meets a letter or a placeholder, or the other way round. */
  predicate Parted(l: int, right: Text)
  {
    right != [] &&
    ((IsCk(l) && (IsLatin(right[0]) || HasPrefix(right))) || (IsLatin(l) && IsCk(right[0])))
  }

  function OneSpaceOn(s: Text): nat
    requires s != []
  {
    if |s| > 1 && s[1] == SPACE then 2 else 1
  }

  /** One space between CJK or kana and letters or placeholders. */
  function Part(s: Text): Text
    decreases |s|
  {
    if s == [] then []
    else
      var e := TokenLength(s);
      if e > 0 then
        var a := AfterSpaces(s, e);
        if a < |s| && IsCk(s[a]) then s[..e] + [SPACE] + Part(s[a..]) else s[..e] + Part(s[e..])
      else if Parted(s[0], s[OneSpaceOn(s)..]) then [s[0], SPACE] + Part(s[AfterSpaces(s, 1)..])
      else [s[0]] + Part(s[1..])
  }

  /** The next character that is no space takes none in front of it. */
  predicate NextIsAfter(s: Text) {
    AfterSpaces(s, 0) < |s| && IsAfter(s[AfterSpaces(s, 0)])
  }

  /** No spaces around full-width punctuation. */
  function Trim(s: Text): Text
    decreases |s|
  {
    if s == [] then []
    else if IsAfter(s[0]) || IsBefore(s[0]) then [s[0]] + Trim(s[AfterSpaces(s, 1)..])
    else if s[0] == SPACE && NextIsAfter(s) then Trim(s[1..])
    else [s[0]] + Trim(s[1..])
  }

  /** Only blanks up to a punctuation mark. */
  predicate BlankToPunct(s: Text)
    decreases |s|
  {
    s != [] && (IsAsciiPunct(s[0]) || (IsBlank(s[0]) && BlankToPunct(s[1..])))
  }

  /** No blanks before ASCII punctuation. */
  function TrimAscii(s: Text): Text
    decreases |s|
  {
    if s == [] then []
    else if IsBlank(s[0]) && BlankToPunct(s) then TrimAscii(s[1..])
    else [s[0]] + TrimAscii(s[1..])
  }

  predicate IsEdge(c: int) { c == SPACE || c == TAB }

  function StripFront(s: Text): Text {
    if s != [] && IsEdge(s[0]) then StripFront(s[1..]) else s
  }

  function StripBack(s: Text): Text {
    if s != [] && IsEdge(s[|s| - 1]) then StripBack(s[..|s| - 1]) else s
  }

  function Strip(s: Text): Text { StripBack(StripFront(s)) }

  /** All passes, in the order of the source. */
  function Normalized(s: Text): Text {
    Strip(Collapse(TrimAscii(Trim(Collapse(Part(Join(true, Join(false, Collapse(s)))))))))
  }

  // ------------------------------------------------------------ the loops

  /** Skipping spaces in a text or in the rest of it is the same. */
  lemma {:induction false} SkipIn(s: Text, p: nat, i: nat)
    requires p <= i <= |s|
    ensures AfterSpaces(s[p..], i - p) == AfterSpaces(s, i) - p
    decreases |s| - i
  {
    if i < |s| && s[i] == SPACE { SkipIn(s, p, i + 1); }
  }

  lemma JoinStep(digits: bool, s: Text, p: nat)
    requires p < |s|
    ensures var n := AfterSpaces(s, p + 1);
            Join(digits, s[p..]) == [s[p]] + Join(digits, if n < |s| && Tight(digits, s[p], s[n]) then s[n..] else s[p + 1..])
  {
    hide AfterSpaces, Tight, Join;
    SkipIn(s, p, p + 1);
    JoinAt(digits, s, p, s[p..], AfterSpaces(s, p + 1));
  }

  lemma JoinAt(digits: bool, s: Text, p: nat, rest: Text, n: nat)
    requires p < n <= |s| && rest == s[p..] && n - p == AfterSpaces(rest, 1)
    ensures Join(digits, rest) == [s[p]] + Join(digits, if n < |s| && Tight(digits, s[p], s[n]) then s[n..] else s[p + 1..])
  {
    hide AfterSpaces, Tight, Join;
    JoinFront(digits, rest);
    assert rest[n - p..] == s[n..];
    assert rest[1..] == s[p + 1..];
  }

  lemma JoinFront(digits: bool, s: Text)
    requires s != []
    ensures var n := AfterSpaces(s, 1);
            Join(digits, s) == [s[0]] + Join(digits, if n < |s| && Tight(digits, s[0], s[n]) then s[n..] else s[1..])
  {
    hide AfterSpaces, Tight;
  }

  lemma DropDrop(s: Text, p: nat, k: nat)
    requires p + k <= |s|
    ensures s[p..][k..] == s[p + k..]
  {
  }

  lemma DropTake(s: Text, p: nat, k: nat)
    requires p + k <= |s|
    ensures s[p..][..k] == s[p..p + k]
  {
  }

  lemma JoinAll(digits: bool, s: Text)
    ensures s[0..] == s && Join(digits, s[|s|..]) == []
  {
  }

  /** Pass 2: no space within CJK and kana. */
  method JoinCjk(s: Text) returns (result: Text)
    ensures result == Join(false, s)
  {
    hide Join, CharCategory, AfterSpaces;
    JoinAll(false, s);
    result := [];
    var p := 0;
    while p < |s|
      invariant p <= |s| && result + Join(false, s[p..]) == Join(false, s)
    {
      JoinStep(false, s, p);
      if IsCk(s[p]) {
        var next := AfterSpaces(s, p + 1);
        if next < |s| {
          if IsCk(s[next]) {
            result := result + [s[p]];
            p := next;
            continue;
          }
        }
      }
      result := result + [s[p]];
      p := p + 1;
    }
  }

  /** Pass 3: no space between CJK or kana and digits. */
  method JoinDigits(s: Text) returns (result: Text)
    ensures result == Join(true, s)
  {
    hide Join, AfterSpaces;
    JoinAll(true, s);
    result := [];
    var p := 0;
    while p < |s|
      invariant p <= |s| && result + Join(true, s[p..]) == Join(true, s)
    {
      JoinStep(true, s, p);
      var next := AfterSpaces(s, p + 1);
      if IsCk(s[p]) {
        if next != p + 1 && next < |s| && IsDigit(s[next]) {
          result := result + [s[p]];
          p := next;
          continue;
        }
      } else if IsDigit(s[p]) {
        if next != p + 1 && next < |s| && IsCk(s[next]) {
          result := result + [s[p]];
          p := next;
          continue;
        }
      }
      result := result + [s[p]];
      p := p + 1;
    }
  }

  lemma PartTokenStep(s: Text, p: nat, e: nat, a: nat)
    requires p < |s| && p < e <= |s| && e - p == TokenLength(s[p..]) && a == AfterSpaces(s, e)
    ensures Part(s[p..]) == if a < |s| && IsCk(s[a]) then s[p..e] + [SPACE] + Part(s[a..]) else s[p..e] + Part(s[e..])
  {
    hide TokenLength, AfterSpaces, IsCk, Parted, Part;
    var rest := s[p..];
    SkipIn(s, p, e);
    PartTokenFront(rest);
    DropTake(s, p, e - p);
    if a < |s| && IsCk(s[a]) { DropDrop(s, p, a - p); } else { DropDrop(s, p, e - p); }
  }

  lemma PartTokenFront(s: Text)
    requires TokenLength(s) > 0
    ensures var e := TokenLength(s);
            var a := AfterSpaces(s, e);
            Part(s) == if a < |s| && IsCk(s[a]) then s[..e] + [SPACE] + Part(s[a..]) else s[..e] + Part(s[e..])
  {
    hide TokenLength, AfterSpaces, IsCk, Parted;
  }

  lemma PartCharFront(s: Text)
    requires s != [] && TokenLength(s) == 0
    ensures Part(s) == if Parted(s[0], s[OneSpaceOn(s)..]) then [s[0], SPACE] + Part(s[AfterSpaces(s, 1)..])
                       else [s[0]] + Part(s[1..])
  {
    hide TokenLength, AfterSpaces, IsCk, Parted;
  }

  /** The position of the character that 'p' is compared with. */
  function Next(s: Text, p: nat): (n: nat)
    requires p < |s|
    ensures p < n <= |s|
  {
    if p + 1 < |s| && s[p + 1] == SPACE then p + 2 else p + 1
  }

  lemma PartCharStep(s: Text, p: nat)
    requires p < |s| && TokenLength(s[p..]) == 0
    ensures Part(s[p..]) == if Parted(s[p], s[Next(s, p)..]) then [s[p], SPACE] + Part(s[AfterSpaces(s, p + 1)..])
                            else [s[p]] + Part(s[p + 1..])
  {
    hide TokenLength, AfterSpaces, Parted, Part;
    SkipIn(s, p, p + 1);
    PartCharAt(s, p, s[p..], AfterSpaces(s, p + 1));
  }

  lemma PartCharAt(s: Text, p: nat, rest: Text, n: nat)
    requires p < n <= |s| && rest == s[p..] && n - p == AfterSpaces(rest, 1) && TokenLength(rest) == 0
    ensures Part(rest) == if Parted(s[p], s[Next(s, p)..]) then [s[p], SPACE] + Part(s[n..]) else [s[p]] + Part(s[p + 1..])
  {
    hide TokenLength, AfterSpaces, Parted, Part;
    PartCharFront(rest);
    assert rest[n - p..] == s[n..];
    assert rest[1..] == s[p + 1..];
    assert rest[OneSpaceOn(rest)..] == s[Next(s, p)..];
  }

  lemma PartAll(s: Text)
    ensures s[0..] == s && Part(s[|s|..]) == []
  {
  }

  lemma PrefixStart(s: Text)
    requires HasPrefix(s)
    ensures s[0] == UNDERSCORE
  {
    assert s[..7][0] == s[0];
  }

  /** A placeholder starts and ends with an underscore. */
  lemma TokenEdges(s: Text)
    requires TokenLength(s) > 0
    ensures HasPrefix(s) && s[TokenLength(s) - 1] == UNDERSCORE
  {
    var e := TokenLength(s) - 3;
    assert s[e..e + 3][2] == s[e + 2];
  }

  lemma EdgesAreOther()
    ensures !IsCk(SPACE) && !IsCk(UNDERSCORE) && !IsLatin(SPACE) && !IsLatin(UNDERSCORE)
  {
  }

  /** After CJK that is not parted from what follows, no placeholder begins. */
  lemma NoTokenNext(s: Text, p: nat)
    requires p < |s| && IsCk(s[p]) && !Parted(s[p], s[Next(s, p)..])
    ensures TokenLength(s[p + 1..]) == 0
  {
    hide IsCk, IsLatin;
    if HasPrefix(s[p + 1..]) { PrefixStart(s[p + 1..]); }
  }

  /** Appends a placeholder, with one space behind it if CJK or kana follows. */
  method AppendToken(s: Text, p: nat, result0: Text) returns (result: Text, q: nat)
    requires p < |s| && TokenLength(s[p..]) > 0
    requires result0 != [] ==> !IsCk(result0[|result0| - 1])
    ensures p < q <= |s| && result + Part(s[q..]) == result0 + Part(s[p..])
    ensures result != [] && !IsCk(result[|result| - 1])
  {
    hide Part, IsCk, AfterSpaces, TokenLength;
    var end := p + TokenLength(s[p..]);
    PartTokenStep(s, p, end, AfterSpaces(s, end));
    TokenEdges(s[p..]);
    EdgesAreOther();
    assert s[p..][end - p - 1] == s[end - 1];
    result := result0;
    if result != [] && result[|result| - 1] != SPACE && IsCk(result[|result| - 1]) {
      result := result + [SPACE];
    }
    result := result + s[p..end];
    var after := AfterSpaces(s, end);
    if after < |s| && IsCk(s[after]) {
      result := result + [SPACE];
      q := after;
    } else {
      q := end;
    }
  }

  /** Pass 4: one space between CJK or kana and letters or placeholders. */
  method PartLatin(s: Text) returns (result: Text)
    ensures result == Part(s)
  {
    hide Part, IsCk, AfterSpaces, TokenLength, Parted;
    PartAll(s);
    EdgesAreOther();
    result := [];
    var p := 0;
    while p < |s|
      invariant p <= |s| && result + Part(s[p..]) == Part(s)
      invariant result != [] && IsCk(result[|result| - 1]) ==> TokenLength(s[p..]) == 0
    {
      if TokenLength(s[p..]) > 0 {
        result, p := AppendToken(s, p, result);
        continue;
      }
      PartCharStep(s, p);
      if Parted(s[p], s[Next(s, p)..]) {
        result := result + [s[p], SPACE];
        p := AfterSpaces(s, p + 1);
        continue;
      }
      if IsCk(s[p]) { NoTokenNext(s, p); }
      result := result + [s[p]];
      p := p + 1;
    }
  }

  lemma TrimStep(s: Text, p: nat)
    requires p < |s|
    ensures IsAfter(s[p]) || IsBefore(s[p]) ==> Trim(s[p..]) == [s[p]] + Trim(s[AfterSpaces(s, p + 1)..])
    ensures s[p] == SPACE && NextIsAfter(s[p..]) ==> Trim(s[p..]) == Trim(s[p + 1..])
    ensures !IsAfter(s[p]) && !IsBefore(s[p]) && !(s[p] == SPACE && NextIsAfter(s[p..])) ==>
              Trim(s[p..]) == [s[p]] + Trim(s[p + 1..])
    ensures s[p] == SPACE ==> (NextIsAfter(s[p..]) <==> NextIsAfter(s[p + 1..]))
    ensures s[p] != SPACE ==> (NextIsAfter(s[p..]) <==> IsAfter(s[p]))
  {
    hide IsAfter, IsBefore;
    var rest := s[p..];
    SkipIn(s, p, p + 1);
    SpaceIsNotTrimmed();
    var a := AfterSpaces(s, p + 1);
    assert rest[1..] == s[p + 1..] && rest[a - p..] == s[a..];
    SkipIn(rest, 1, 1);
  }

  lemma SpaceIsNotTrimmed()
    ensures !IsAfter(SPACE) && !IsBefore(SPACE)
  {
  }

  /** Without the spaces at the end. */
  function WithoutSpaces(s: Text): Text {
    if s != [] && s[|s| - 1] == SPACE then WithoutSpaces(s[..|s| - 1]) else s
  }

  /** What is left of the result when the spaces at its end are still to be removed. */
  function Kept(result: Text, rest: Text): Text {
    if NextIsAfter(rest) then WithoutSpaces(result) else result
  }

  lemma KeptAppend(result: Text, c: int, rest: Text)
    requires c != SPACE
    ensures Kept(result + [c], rest) == result + [c]
  {
  }

  lemma WithoutSpacesAppend(result: Text)
    ensures WithoutSpaces(result + [SPACE]) == WithoutSpaces(result)
  {
    assert (result + [SPACE])[..|result|] == result;
  }

  lemma TrimAll(s: Text)
    ensures s[0..] == s && Trim(s[|s|..]) == [] && Kept([], s) == []
  {
  }

  lemma KeptAtEnd(result: Text, rest: Text)
    requires rest == []
    ensures Kept(result, rest) == result && Trim(rest) == []
  {
  }

  /** Pass 6: no spaces around full-width punctuation. */
  method TrimPunct(s: Text) returns (result: Text)
    ensures result == Trim(s)
  {
    hide Trim, IsAfter, IsBefore, AfterSpaces, Kept, NextIsAfter;
    TrimAll(s);
    result := [];
    var p := 0;
    while p < |s|
      invariant p <= |s| && Kept(result, s[p..]) + Trim(s[p..]) == Trim(s)
    {
      TrimStep(s, p);
      KeptStep(s, p, result);
      var c := s[p];
      if IsAfter(c) {
        while result != [] && result[|result| - 1] == SPACE
          invariant WithoutSpaces(result) + Trim(s[p..]) == Trim(s)
        {
          result := result[..|result| - 1];
        }
        KeptAppend(result, c, s[AfterSpaces(s, p + 1)..]);
        result := result + [c];
        p := AfterSpaces(s, p + 1);
      } else if IsBefore(c) {
        KeptAppend(result, c, s[AfterSpaces(s, p + 1)..]);
        result := result + [c];
        p := AfterSpaces(s, p + 1);
      } else {
        result := result + [c];
        p := p + 1;
      }
    }
    KeptAtEnd(result, s[p..]);
  }

  /** Appending the character at 'p' keeps what the loop of TrimPunct computes. */
  lemma KeptStep(s: Text, p: nat, result: Text)
    requires p < |s|
    ensures IsAfter(s[p]) ==> Kept(result, s[p..]) == WithoutSpaces(result) && s[p] != SPACE
    ensures IsBefore(s[p]) && !IsAfter(s[p]) ==> Kept(result, s[p..]) == result && s[p] != SPACE
    ensures !IsAfter(s[p]) && !IsBefore(s[p]) ==>
              Kept(result + [s[p]], s[p + 1..]) + Trim(s[p + 1..]) == Kept(result, s[p..]) + Trim(s[p..])
  {
    hide IsAfter, IsBefore, AfterSpaces, NextIsAfter, Trim;
    TrimStep(s, p);
    SpaceIsNotTrimmed();
    if s[p] == SPACE {
      WithoutSpacesAppend(result);
    } else {
      KeptAppend(result, s[p], s[p + 1..]);
    }
  }

  /** Removes spaces and tabs at both ends. */
  method StripEdges(s: Text) returns (result: Text)
    ensures result == Strip(s)
  {
    var start := 0;
    assert s[0..] == s;
    while start < |s| && IsEdge(s[start])
      invariant start <= |s| && StripFront(s[start..]) == StripFront(s)
    {
      assert s[start..][1..] == s[start + 1..];
      start := start + 1;
    }
    var end := |s|;
    assert s[start..end] == s[start..];
    while end > start && IsEdge(s[end - 1])
      invariant start <= end <= |s| && StripBack(s[start..end]) == Strip(s)
    {
      assert s[start..end][..end - start - 1] == s[start..end - 1];
      end := end - 1;
    }
    result := s[start..end];
  }

  /** The spacing rules. The source stops at NUL, so the text may not hold one. */
  method NormalizeSpaces(text: Text) returns (s: Text)
    requires 0 !in text
    ensures s == Normalized(text)
  {
    s := Collapse(text);
    s := JoinCjk(s);
    s := JoinDigits(s);
    s := PartLatin(s);
    s := Collapse(s);
    s := TrimPunct(s);
    s := TrimAscii(s);
    s := Collapse(s);
    s := StripEdges(s);
  }
}
