/** Walking a UTF-8 text (section 3 of RFC 3629) by its leading bytes visits its characters one by one. */
module Utf8 {
  import opened Icu

  /** Code points that UTF-8 can hold. */
  predicate IsScalar(c: Label) {
    c < 0x11_0000 && !(0xD800 <= c <= 0xDFFF)
  }

  /** Length of a character by its first byte; a byte that continues one counts as one. */
  function Utf8CharLen(b: bv8): (n: nat)
    ensures 1 <= n <= 4
  {
    if b < 0x80 then 1 else if b < 0xC0 then 1 else if b < 0xE0 then 2 else if b < 0xF0 then 3 else 4
  }

  /** The six bits of a byte that continues a character. */
  function Six(b: bv8): bv32 { (b as bv32) & 0x3F }

  function Two(c: bv8, b1: bv8): Label { (((c as bv32) & 0x1F) << 6) | Six(b1) }

  function Three(c: bv8, b1: bv8, b2: bv8): Label { (((c as bv32) & 0x0F) << 12) | (Six(b1) << 6) | Six(b2) }

  function Four(c: bv8, b1: bv8, b2: bv8, b3: bv8): Label {
    (((c as bv32) & 0x07) << 18) | (Six(b1) << 12) | (Six(b2) << 6) | Six(b3)
  }

  predicate IsTwo(c: bv8) { c & 0xE0 == 0xC0 }

  predicate IsThree(c: bv8) { c & 0xF0 == 0xE0 }

  /** The code point at the front, and how many bytes it takes. */
  function DecodeUtf8(s: seq<bv8>): (Label, nat)
    requires |s| >= 4 || (s != [] && Utf8CharLen(s[0]) <= |s| && !(0x80 <= s[0] < 0xC0) && Classified(s[0]))
  {
    var c := s[0];
    if c < 0x80 then (c as bv32, 1)
    else if IsTwo(c) then (Two(c, s[1]), 2)
    else if IsThree(c) then (Three(c, s[1], s[2]), 3)
    else (Four(c, s[1], s[2], s[3]), 4)
  }

  /** The two ways in which the source reads the length of a character agree. */
  predicate Classified(c: bv8) {
    c >= 0x80 ==> (IsTwo(c) <==> Utf8CharLen(c) == 2) && (IsThree(c) <==> Utf8CharLen(c) == 3)
  }

  lemma LeadsAreClassified(c: bv8)
    requires !(0x80 <= c < 0xC0)
    ensures Classified(c)
  {
  }

  // ------------------------------------------------------------ one character

  lemma OneByte(c: Label)
    requires c < 0x80
    ensures Low(c) < 0x80 && Low(c) as bv32 == c
  {
  }

  lemma TwoBytes(c: Label)
    requires 0x80 <= c < 0x800
    ensures var b := Low((c >> 6) | 0xc0); 0xC0 <= b < 0xE0 && Two(b, Continuation(c)) == c
  {
  }

  lemma ThreeBytes(c: Label)
    requires 0x800 <= c < 0x1_0000
    ensures var b := Low((c >> 12) | 0xe0); 0xE0 <= b < 0xF0 && Three(b, Continuation(c >> 6), Continuation(c)) == c
  {
  }

  lemma FourBytes(c: Label)
    requires 0x1_0000 <= c < 0x20_0000
    ensures var b := Low((c >> 18) | 0xf0);
            0xF0 <= b && Four(b, Continuation(c >> 12), Continuation(c >> 6), Continuation(c)) == c
  {
  }

  /** A character is read back, whatever follows its bytes, and its first byte tells its length. */
  lemma CharRoundTrip(c: Label, rest: seq<bv8>)
    requires IsScalar(c)
    ensures var s, n := EncodeLabel(c) + rest, |EncodeLabel(c)|;
            Utf8CharLen(s[0]) == n <= 4 && !(0x80 <= s[0] < 0xC0) && Classified(s[0]) && DecodeUtf8(s) == (c, n)
  {
    hide Low, Continuation, Two, Three, Four, IsTwo, IsThree;
    if c < 0x80 { OneByte(c); }
    else if c < 0x800 { TwoBytes(c); }
    else if c < 0x1_0000 { ThreeBytes(c); }
    else { FourBytes(c); }
    LeadsAreClassified(EncodeLabel(c)[0]);
  }

  /** Bytes behind the first continue the character, and the first does not: stepping back over
      bytes of the form 10xxxxxx finds where a character begins. */
  lemma CharBoundary(c: Label, k: nat)
    requires IsScalar(c) && k < |EncodeLabel(c)|
    ensures IsContinuation(EncodeLabel(c)[k]) <==> k > 0
  {
    EncodeIsLeadAndTail(c);
    if k == 0 {
      LeadIsNoContinuation(c);
    } else {
      TailContinues(c, TailLength(c), k - 1);
    }
  }

  lemma LeadIsNoContinuation(c: Label)
    requires c < 0x20_0000
    ensures !IsContinuation(Lead(c))
  {
  }

  // ------------------------------------------------------------ a whole text

  /** The bytes of a text. */
  function Bytes(text: seq<Label>): seq<bv8> {
    if text == [] then [] else EncodeLabel(text[0]) + Bytes(text[1..])
  }

  ghost predicate AreScalars(text: seq<Label>) {
    forall i :: 0 <= i < |text| ==> IsScalar(text[i])
  }

  /** Chinese characters, as far as the program tells a language by them. */
  predicate IsHan(c: Label) {
    0x4E00 <= c <= 0x9FFF || 0x3400 <= c <= 0x4DBF
  }

  lemma HanRanges(c: Label)
    ensures IsHan(c) <==> 0x4E00 <= c <= 0x9FFF || 0x3400 <= c <= 0x4DBF
  {
  }

  /** Does the text hold a Chinese character? Like all passes the loop decodes at 'p' and goes on by
      the length found; it ends at a NUL. */
  method ContainsCjk(bytes: seq<bv8>, ghost text: seq<Label>) returns (r: bool)
    requires AreScalars(text) && bytes == Bytes(text) && 0 !in text
    ensures r <==> exists i :: 0 <= i < |text| && (0x4E00 <= text[i] <= 0x9FFF || 0x3400 <= text[i] <= 0x4DBF)
  {
    hide DecodeUtf8, Utf8CharLen, EncodeLabel, IsScalar, IsHan;
    var p: nat := 0;
    ghost var n: nat := 0;
    assert bytes[0..] == bytes;
    while p < |bytes| && bytes[p] != 0
      invariant p <= |bytes| && n <= |text| && bytes[p..] == Bytes(text[n..])
      invariant forall i :: 0 <= i < n ==> !(0x4E00 <= text[i] <= 0x9FFF || 0x3400 <= text[i] <= 0x4DBF)
    {
      ghost var left := text[n..];
      assert left != [] && left[0] == text[n];
      CharRoundTrip(left[0], Bytes(left[1..]));
      HanRanges(text[n]);
      HanIsLong(left[0]);
      var len := Utf8CharLen(bytes[p]);
      if len > 1 {
        var (c, k) := DecodeUtf8(bytes[p..]);
        if IsHan(c) { return true; }
        len := k;
      }
      assert bytes[p..][len..] == Bytes(left[1..]);
      assert left[1..] == text[n + 1..];
      p, n := p + len, n + 1;
    }
    BytesNonEmpty(text[n..]);
    assert p < |bytes| ==> bytes[p..][0] == bytes[p];
    if text[n..] != [] { NoZeroByte(text[n..]); }
    return false;
  }

  lemma HanIsLong(c: Label)
    requires IsScalar(c)
    ensures IsHan(c) ==> |EncodeLabel(c)| == 3
  {
  }

  /** Only the character 0 begins with a byte 0. */
  lemma NoZeroByte(text: seq<Label>)
    requires AreScalars(text) && text != [] && text[0] != 0
    ensures Bytes(text) != [] && Bytes(text)[0] != 0
  {
    LeadIsNotZero(text[0]);
  }

  lemma LeadIsNotZero(c: Label)
    requires IsScalar(c) && c != 0
    ensures EncodeLabel(c)[0] != 0
  {
  }

  lemma BytesNonEmpty(text: seq<Label>)
    ensures Bytes(text) == [] <==> text == []
  {
  }

  /** A position in the bytes starts a character iff its byte does not continue one. */
  lemma {:induction false} BoundariesAreLeads(text: seq<Label>, k: nat)
    requires AreScalars(text) && k < |Bytes(text)|
    ensures !IsContinuation(Bytes(text)[k]) <==> exists i :: 0 <= i < |text| && |Bytes(text[..i])| == k
    decreases |text|
  {
    hide EncodeLabel, IsContinuation, IsScalar;
    var b, rest := EncodeLabel(text[0]), text[1..];
    if k < |b| {
      CharBoundary(text[0], k);
      assert Bytes(text)[k] == b[k];
      assert text[..0] == [] && |Bytes(text[..0])| == 0;
      forall i | 0 < i < |text| ensures |Bytes(text[..i])| >= |b| { assert text[..i][0] == text[0]; }
    } else {
      BoundariesAreLeads(rest, k - |b|);
      assert Bytes(text)[k] == Bytes(rest)[k - |b|];
      forall i | 0 < i < |text| ensures |Bytes(text[..i])| == |b| + |Bytes(rest[..i - 1])| {
        assert text[..i][0] == text[0] && text[..i][1..] == rest[..i - 1];
      }
      assert text[..0] == [] && |Bytes(text[..0])| == 0;
      if i :| 0 <= i < |rest| && |Bytes(rest[..i])| == k - |b| {
        assert |Bytes(text[..i + 1])| == k;
      }
    }
  }
}
