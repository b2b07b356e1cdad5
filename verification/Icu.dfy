/** The byte encoding of labels: UTF-8 as first defined, with up to six bytes per label (section 2 of RFC 2279). */
module Icu {

  /** A label is a signed 32-bit number in the source; here its bits. */
  type Label = bv32

  datatype Option<T> = None | Some(value: T)

  predicate IsNegative(l: Label) { l & 0x8000_0000 != 0 }

  function Low(l: bv32): bv8 { (l & 0xff) as bv8 }

  /** A byte that continues a label, holding six of its bits. */
  function Continuation(l: bv32): bv8 { Low((l & 0x3f) | 0x80) }

  predicate IsAscii(b: bv8) { b & 0x80 == 0 }

  predicate IsContinuation(b: bv8) { b & 0xc0 == 0x80 }

  // ------------------------------------------------------------ what the bytes mean

  function EncodeLabel(code: Label): (r: seq<bv8>)
    ensures |r| > 0
  {
    if code < 0x80 then [Low(code)]
    else if code < 0x800 then [Low((code >> 6) | 0xc0), Continuation(code)]
    else if code < 0x1_0000 then [Low((code >> 12) | 0xe0), Continuation(code >> 6), Continuation(code)]
    else if code < 0x20_0000 then
      [Low((code >> 18) | 0xf0), Continuation(code >> 12), Continuation(code >> 6), Continuation(code)]
    else if code < 0x400_0000 then
      [Low((code >> 24) | 0xf8), Continuation(code >> 18), Continuation(code >> 12), Continuation(code >> 6), Continuation(code)]
    else
      [Low((code >> 30) | 0xfc), Continuation(code >> 24), Continuation(code >> 18), Continuation(code >> 12),
       Continuation(code >> 6), Continuation(code)]
  }

  /** The bytes of all labels, unless one of them is negative. */
  function Encode(labels: seq<Label>): Option<seq<bv8>> {
    if labels == [] then Some([])
    else if IsNegative(labels[0]) then None
    else
      var rest := Encode(labels[1..]);
      if rest.None? then None else Some(EncodeLabel(labels[0]) + rest.value)
  }

  /** How many bytes follow a leading byte that is not ASCII. */
  function Following(c: bv8): (n: nat)
    ensures n <= 5
  {
    (if c >= 0xc0 then 1 else 0) + (if c >= 0xe0 then 1 else 0) + (if c >= 0xf0 then 1 else 0)
    + (if c >= 0xf8 then 1 else 0) + (if c >= 0xfc then 1 else 0)
  }

  /** The bits of the label in a leading byte with 'n' bytes to follow. */
  function LeadBits(c: bv8, n: nat): bv32 {
    (c as bv32) &
    (if n == 1 then 0x1f else if n == 2 then 0x0f else if n == 3 then 0x07 else if n == 4 then 0x03 else 0x01)
  }

  /** Takes up six more bits. */
  function TakeUp(code: bv32, bits: bv32): bv32 { (code << 6) | (bits & 0x3f) }

  /** Takes up 'n' more bytes. */
  function DecodeRest(code: bv32, s: seq<bv8>, n: nat): Option<Label>
    decreases n
  {
    if n == 0 then Some(code)
    else if s == [] || !IsContinuation(s[0]) then None
    else DecodeRest(TakeUp(code, s[0] as bv32), s[1..], n - 1)
  }

  /** The first label, and the number of its bytes. */
  function DecodeOne(s: seq<bv8>): (r: Option<(Label, nat)>)
    requires s != []
    ensures r.Some? ==> 0 < r.value.1 <= |s|
  {
    if IsAscii(s[0]) then Some((s[0] as bv32, 1))
    else if IsContinuation(s[0]) then None
    else
      var n := Following(s[0]);
      DecodeRestLength(LeadBits(s[0], n), s[1..], n);
      var code := DecodeRest(LeadBits(s[0], n), s[1..], n);
      if code.None? then None else Some((code.value, n + 1))
  }

  lemma {:induction false} DecodeRestLength(code: bv32, s: seq<bv8>, n: nat)
    ensures DecodeRest(code, s, n).Some? ==> n <= |s|
    decreases n
  {
    if n > 0 && s != [] { DecodeRestLength(TakeUp(code, s[0] as bv32), s[1..], n - 1); }
  }

  function Decode(s: seq<bv8>): Option<seq<Label>>
    decreases |s|
  {
    if s == [] then Some([])
    else
      var one := DecodeOne(s);
      if one.None? then None
      else
        var rest := Decode(s[one.value.1..]);
        if rest.None? then None else Some([one.value.0] + rest.value)
  }

  // ------------------------------------------------------------ round trip

  lemma ContinuationByte(code: bv32, l: bv32, s: seq<bv8>, n: nat)
    requires n > 0 && s != [] && s[0] == Continuation(l)
    ensures DecodeRest(code, s, n) == DecodeRest(TakeUp(code, l), s[1..], n - 1)
  {
    ContinuationBits(l);
  }

  lemma ContinuationBits(l: bv32)
    ensures IsContinuation(Continuation(l))
    ensures (Continuation(l) as bv32) & 0x3f == l & 0x3f
  {
  }

  /** What a leading byte that is not ASCII says. */
  ghost predicate IsLead(c: bv8, n: nat, bits: bv32) {
    !IsAscii(c) && !IsContinuation(c) && Following(c) == n && LeadBits(c, n) == bits
  }

  lemma LeadByte(code: bv32)
    ensures code < 0x800 ==> IsLead(Low((code >> 6) | 0xc0), 1, code >> 6)
    ensures code < 0x1_0000 ==> IsLead(Low((code >> 12) | 0xe0), 2, code >> 12)
    ensures code < 0x20_0000 ==> IsLead(Low((code >> 18) | 0xf0), 3, code >> 18)
    ensures code < 0x400_0000 ==> IsLead(Low((code >> 24) | 0xf8), 4, code >> 24)
    ensures code < 0x8000_0000 ==> IsLead(Low((code >> 30) | 0xfc), 5, code >> 30)
  {
  }

  /** The bits of a label and the six below them. */
  lemma Reassemble(code: bv32)
    ensures TakeUp(code >> 6, code) == code
    ensures TakeUp(code >> 12, code >> 6) == code >> 6
    ensures TakeUp(code >> 18, code >> 12) == code >> 12
    ensures TakeUp(code >> 24, code >> 18) == code >> 18
    ensures TakeUp(code >> 30, code >> 24) == code >> 24
  {
  }

  /** Reading from the front of a list of bytes whose length is known. */
  lemma DecodeFrom(s: seq<bv8>, n: nat, code: bv32, bits: bv32)
    requires s != [] && IsLead(s[0], n, bits)
    requires DecodeRest(bits, s[1..], n) == Some(code)
    ensures DecodeOne(s) == Some((code, n + 1))
  {
  }

  /** A label without its last 'n' groups of six bits. */
  function Shifted(code: bv32, n: nat): bv32
    requires n <= 5
  {
    if n == 0 then code else if n == 1 then code >> 6 else if n == 2 then code >> 12
    else if n == 3 then code >> 18 else if n == 4 then code >> 24 else code >> 30
  }

  lemma ReassembleAt(code: bv32, n: nat)
    requires 0 < n <= 5
    ensures TakeUp(Shifted(code, n), Shifted(code, n - 1)) == Shifted(code, n - 1)
  {
    Reassemble(code);
    hide TakeUp;
  }

  /** The continuation bytes of a label, highest first. */
  function Tail(code: bv32, n: nat): (r: seq<bv8>)
    requires n <= 5
    ensures |r| == n
  {
    if n == 0 then [] else [Continuation(Shifted(code, n - 1))] + Tail(code, n - 1)
  }

  lemma {:induction false} DecodeTail(code: bv32, n: nat, rest: seq<bv8>)
    requires n <= 5
    ensures DecodeRest(Shifted(code, n), Tail(code, n) + rest, n) == Some(code)
    decreases n
  {
    if n > 0 {
      var s := Tail(code, n) + rest;
      ReassembleAt(code, n);
      hide Shifted, Continuation;
      assert s[1..] == Tail(code, n - 1) + rest;
      ContinuationByte(Shifted(code, n), Shifted(code, n - 1), s, n);
      DecodeTail(code, n - 1, rest);
    } else {
      assert Shifted(code, n) == code;
    }
  }

  /** The number of continuation bytes a label needs. */
  function TailLength(code: bv32): (n: nat)
    ensures n <= 5
  {
    if code < 0x80 then 0 else if code < 0x800 then 1 else if code < 0x1_0000 then 2
    else if code < 0x20_0000 then 3 else if code < 0x400_0000 then 4 else 5
  }

  function Lead(code: bv32): bv8 {
    if code < 0x80 then Low(code)
    else if code < 0x800 then Low((code >> 6) | 0xc0)
    else if code < 0x1_0000 then Low((code >> 12) | 0xe0)
    else if code < 0x20_0000 then Low((code >> 18) | 0xf0)
    else if code < 0x400_0000 then Low((code >> 24) | 0xf8)
    else Low((code >> 30) | 0xfc)
  }

  lemma EncodeIsLeadAndTail(code: bv32)
    ensures EncodeLabel(code) == [Lead(code)] + Tail(code, TailLength(code))
  {
    Tails(code);
    hide Continuation, Low, Tail;
  }

  lemma Tails(code: bv32)
    ensures Tail(code, 0) == []
    ensures Tail(code, 1) == [Continuation(code)]
    ensures Tail(code, 2) == [Continuation(code >> 6), Continuation(code)]
    ensures Tail(code, 3) == [Continuation(code >> 12), Continuation(code >> 6), Continuation(code)]
    ensures Tail(code, 4) ==
            [Continuation(code >> 18), Continuation(code >> 12), Continuation(code >> 6), Continuation(code)]
    ensures Tail(code, 5) ==
            [Continuation(code >> 24), Continuation(code >> 18), Continuation(code >> 12), Continuation(code >> 6), Continuation(code)]
  {
    hide Continuation;
  }

  lemma AsciiByte(code: bv32)
    requires code < 0x80
    ensures IsAscii(Low(code)) && Low(code) as bv32 == code
  {
  }

  lemma NonNegative(code: bv32)
    ensures IsNegative(code) <==> code >= 0x8000_0000
  {
  }

  /** One label is read back, whatever follows its bytes. */
  lemma LabelRoundTrip(code: Label, rest: seq<bv8>)
    requires !IsNegative(code)
    ensures DecodeOne(EncodeLabel(code) + rest) == Some((code, |EncodeLabel(code)|))
  {
    NonNegative(code);
    EncodeIsLeadAndTail(code);
    var n := TailLength(code);
    var s := EncodeLabel(code) + rest;
    assert s[0] == Lead(code) && s[1..] == Tail(code, n) + rest;
    LeadByte(code);
    DecodeTail(code, n, rest);
    hide IsLead, LeadBits, Following, Low, Continuation, DecodeRest;
    if n == 0 { AsciiByte(code); } else { DecodeFrom(s, n, code, Shifted(code, n)); }
  }

  /** Every list of labels that are not negative is written, and reads back as itself. */
  lemma {:induction false} RoundTrip(labels: seq<Label>)
    requires forall i :: 0 <= i < |labels| ==> !IsNegative(labels[i])
    ensures Encode(labels).Some? && Decode(Encode(labels).value) == Some(labels)
  {
    hide EncodeLabel, DecodeOne;
    if labels != [] {
      RoundTrip(labels[1..]);
      var b, rest := EncodeLabel(labels[0]), Encode(labels[1..]).value;
      LabelRoundTrip(labels[0], rest);
      assert (b + rest)[|b|..] == rest;
      assert [labels[0]] + labels[1..] == labels;
    }
  }

  /** Writing succeeds only on such lists. */
  lemma {:induction false} EncodeFailsWhen(labels: seq<Label>)
    ensures Encode(labels).None? <==> exists i :: 0 <= i < |labels| && IsNegative(labels[i])
  {
    if labels != [] {
      EncodeFailsWhen(labels[1..]);
      if i :| 0 <= i < |labels[1..]| && IsNegative(labels[1..][i]) { assert IsNegative(labels[i + 1]); }
      if i :| 0 <= i < |labels| && IsNegative(labels[i]) && i > 0 { assert IsNegative(labels[1..][i - 1]); }
    }
  }

  // ------------------------------------------------------------ what can be read

  /** Labels below this number can take up 'n' more bytes and stay below 2^31. */
  function Room(n: nat): bv32
    requires n <= 5
  {
    if n == 0 then 0x8000_0000 else if n == 1 then 0x200_0000 else if n == 2 then 0x8_0000
    else if n == 3 then 0x2000 else if n == 4 then 0x80 else 0x2
  }

  lemma TakeUpFits(code: bv32, bits: bv32)
    ensures code < 0x200_0000 ==> TakeUp(code, bits) < 0x8000_0000
    ensures code < 0x8_0000 ==> TakeUp(code, bits) < 0x200_0000
    ensures code < 0x2000 ==> TakeUp(code, bits) < 0x8_0000
    ensures code < 0x80 ==> TakeUp(code, bits) < 0x2000
    ensures code < 0x2 ==> TakeUp(code, bits) < 0x80
  {
  }

  lemma {:induction false} DecodeRestFits(code: bv32, s: seq<bv8>, n: nat)
    requires n <= 5 && code < Room(n) && DecodeRest(code, s, n).Some?
    ensures DecodeRest(code, s, n).value < Room(0)
    decreases n
  {
    if n > 0 {
      TakeUpFits(code, s[0] as bv32);
      hide TakeUp;
      assert TakeUp(code, s[0] as bv32) < Room(n - 1);
      hide Room;
      DecodeRestFits(TakeUp(code, s[0] as bv32), s[1..], n - 1);
    }
  }

  lemma LeadBitsFit(c: bv8)
    requires !IsAscii(c) && !IsContinuation(c)
    ensures LeadBits(c, Following(c)) < Room(Following(c))
  {
  }

  /** No label that is read is negative: the last check of the source never fails. */
  lemma DecodedIsNonNegative(s: seq<bv8>)
    requires s != [] && DecodeOne(s).Some?
    ensures !IsNegative(DecodeOne(s).value.0)
  {
    var code := DecodeOne(s).value.0;
    NonNegative(code);
    if IsAscii(s[0]) {
      AsciiIsSmall(s[0]);
    } else {
      LeadBitsFit(s[0]);
      assert Room(0) == 0x8000_0000;
      hide LeadBits, Following, Room;
      DecodeRestFits(LeadBits(s[0], Following(s[0])), s[1..], Following(s[0]));
    }
  }

  lemma AsciiIsSmall(c: bv8)
    requires IsAscii(c)
    ensures (c as bv32) < 0x80 && Low(c as bv32) == c
  {
  }

  // ------------------------------------------------------------ which bytes can be read

  /** How many bytes a first byte announces. */
  function Announced(c: bv8): (n: nat)
    ensures n <= 5
  {
    if c < 0x80 then 0 else if c < 0xe0 then 1 else if c < 0xf0 then 2 else if c < 0xf8 then 3 else if c < 0xfc then 4 else 5
  }

  /** First bytes below 0x80 or from 0xc0 on, each with as many bytes from 0x80 to 0xbf as it announces. */
  predicate IsWellFormed(s: seq<bv8>)
    decreases |s|
  {
    s == [] || (IsWellFormedAtFront(s) && IsWellFormed(s[Announced(s[0]) + 1..]))
  }

  predicate IsWellFormedAtFront(s: seq<bv8>)
    requires s != []
  {
    && (s[0] < 0x80 || s[0] >= 0xc0) && Announced(s[0]) < |s|
    && forall i :: 1 <= i <= Announced(s[0]) ==> 0x80 <= s[i] < 0xc0
  }

  lemma ByteClasses(c: bv8)
    ensures IsAscii(c) <==> c < 0x80
    ensures IsContinuation(c) <==> 0x80 <= c < 0xc0
    ensures c >= 0xc0 ==> Following(c) == Announced(c)
  {
  }

  lemma {:induction false} DecodeRestWhen(code: bv32, s: seq<bv8>, n: nat)
    ensures DecodeRest(code, s, n).Some? <==> n <= |s| && forall i :: 0 <= i < n ==> IsContinuation(s[i])
    decreases n
  {
    hide TakeUp, IsContinuation;
    if n > 0 && s != [] { DecodeRestWhen(TakeUp(code, s[0] as bv32), s[1..], n - 1); }
  }

  lemma DecodeOneWhen(s: seq<bv8>)
    requires s != []
    ensures DecodeOne(s).Some? <==> IsWellFormedAtFront(s)
    ensures DecodeOne(s).Some? ==> DecodeOne(s).value.1 == Announced(s[0]) + 1
  {
    hide TakeUp, LeadBits, Following, Announced, IsAscii, IsContinuation, DecodeRest, DecodeOne;
    ByteClasses(s[0]);
    NoneAnnounced(s[0]);
    if IsAscii(s[0]) {
      AsciiAtFront(s);
    } else {
      LeadAtFront(s);
      var n := Following(s[0]);
      DecodeRestWhen(LeadBits(s[0], n), s[1..], n);
      if !IsContinuation(s[0]) { ContinuationsFrom(s, n); }
    }
  }

  lemma NoneAnnounced(c: bv8)
    ensures c < 0x80 ==> Announced(c) == 0
  {
  }

  lemma ContinuationsFrom(s: seq<bv8>, n: nat)
    requires s != []
    ensures (n <= |s[1..]| && forall i :: 0 <= i < n ==> IsContinuation(s[1..][i]))
            <==> (n < |s| && forall i :: 1 <= i <= n ==> 0x80 <= s[i] < 0xc0)
  {
    hide IsContinuation;
    forall i | 0 <= i < |s| ensures IsContinuation(s[i]) <==> 0x80 <= s[i] < 0xc0 { ByteClasses(s[i]); }
    if n < |s| && forall i :: 0 <= i < n ==> IsContinuation(s[1..][i]) {
      forall i | 1 <= i <= n ensures 0x80 <= s[i] < 0xc0 { assert s[1..][i - 1] == s[i]; }
    }
  }

  /** Exactly the well-formed byte strings are read; overlong forms and 0xfe and 0xff are among them. */
  lemma {:induction false} DecodeSucceedsWhen(s: seq<bv8>)
    ensures Decode(s).Some? <==> IsWellFormed(s)
    decreases |s|
  {
    hide DecodeOne, IsWellFormedAtFront, Announced;
    if s != [] {
      DecodeOneWhen(s);
      if DecodeOne(s).Some? { DecodeSucceedsWhen(s[DecodeOne(s).value.1..]); }
    }
  }

  // ------------------------------------------------------------ writing back what was read

  function DropSix(code: bv32): bv32 { code >> 6 }

  lemma TakeUpBits(code: bv32, b: bv8)
    ensures code < 0x200_0000 ==> DropSix(TakeUp(code, b as bv32)) == code
    ensures IsContinuation(b) ==> Continuation(TakeUp(code, b as bv32)) == b
  {
  }

  lemma DropSixTwice(code: bv32)
    ensures DropSix(code) == code >> 6 && DropSix(code >> 6) == code >> 12 && DropSix(code >> 12) == code >> 18
    ensures DropSix(code >> 18) == code >> 24 && DropSix(code >> 24) == code >> 30
  {
  }

  lemma ShiftedNext(code: bv32, n: nat)
    requires n < 5
    ensures Shifted(code, n + 1) == DropSix(Shifted(code, n))
  {
    DropSixTwice(code);
    hide DropSix;
  }

  lemma RoomIsSmall(n: nat, code: bv32)
    requires 0 < n <= 5 && code < Room(n)
    ensures code < 0x200_0000
  {
  }

  lemma TakeUpInRoom(bits: bv32, b: bv8, n: nat)
    requires 0 < n <= 5 && bits < Room(n) && IsContinuation(b)
    ensures TakeUp(bits, b as bv32) < Room(n - 1)
    ensures DropSix(TakeUp(bits, b as bv32)) == bits && Continuation(TakeUp(bits, b as bv32)) == b
  {
    TakeUpFits(bits, b as bv32);
    RoomIsSmall(n, bits);
    TakeUpBits(bits, b);
    hide TakeUp, DropSix, Continuation;
  }

  lemma TailNext(code: bv32, n: nat)
    requires 0 < n <= 5
    ensures Tail(code, n) == [Continuation(Shifted(code, n - 1))] + Tail(code, n - 1)
  {
  }

  lemma DecodeRestNext(bits: bv32, s: seq<bv8>, n: nat)
    requires n > 0 && DecodeRest(bits, s, n).Some?
    ensures s != [] && IsContinuation(s[0])
    ensures DecodeRest(bits, s, n) == DecodeRest(TakeUp(bits, s[0] as bv32), s[1..], n - 1)
  {
  }

  /** 'bits' can take up 'n' more bytes. */
  predicate Fits(bits: bv32, n: nat)
    requires n <= 5
  {
    bits < Room(n)
  }

  /** 'bits' are what is left of the label without its last 'n' groups. */
  predicate IsFront(bits: bv32, code: bv32, n: nat)
    requires n <= 5
  {
    Shifted(code, n) == bits
  }

  lemma TakeUpKeepsFit(bits: bv32, b: bv8, n: nat)
    requires 0 < n <= 5 && Fits(bits, n)
    ensures Fits(TakeUp(bits, b as bv32), n - 1)
  {
    TakeUpFits(bits, b as bv32);
    hide TakeUp;
  }

  /** From the groups after a byte to those with it. */
  lemma FrontStep(bits: bv32, b: bv8, n: nat, code: bv32)
    requires 0 < n <= 5 && Fits(bits, n) && IsContinuation(b) && IsFront(TakeUp(bits, b as bv32), code, n - 1)
    ensures IsFront(bits, code, n) && Continuation(Shifted(code, n - 1)) == b
  {
    hide TakeUp, Room, Shifted, Continuation, DropSix, IsContinuation;
    TakeUpInRoom(bits, b, n);
    ShiftedNext(code, n - 1);
  }

  lemma TakeCons(s: seq<bv8>, n: nat)
    requires 0 < n <= |s|
    ensures s[..n] == [s[0]] + s[1..][..n - 1]
  {
  }

  lemma NoRest(bits: bv32, s: seq<bv8>, code: bv32)
    requires DecodeRest(bits, s, 0) == Some(code)
    ensures Tail(code, 0) == [] && IsFront(bits, code, 0)
  {
  }

  /** The continuation bytes are determined by the label. */
  lemma {:induction false} RestIsTail(bits: bv32, s: seq<bv8>, n: nat, code: bv32)
    requires n <= 5 && n <= |s| && Fits(bits, n) && DecodeRest(bits, s, n) == Some(code)
    ensures s[..n] == Tail(code, n) && IsFront(bits, code, n)
    decreases n
  {
    hide TakeUp, Fits, IsFront, Shifted, Continuation, IsContinuation, DecodeRest, Tail;
    if n == 0 {
      NoRest(bits, s, code);
    } else {
      DecodeRestNext(bits, s, n);
      TailNext(code, n);
      TakeUpKeepsFit(bits, s[0], n);
      RestIsTail(TakeUp(bits, s[0] as bv32), s[1..], n - 1, code);
      FrontStep(bits, s[0], n, code);
      TakeCons(s, n);
    }
  }

  /** A leading byte in shortest form is the one that is written. */
  lemma LeadIsShortest(c: bv8, code: bv32)
    requires code < 0x8000_0000
    ensures !IsAscii(c) && !IsContinuation(c) && c < 0xfe ==>
              (Following(c) == 1 && LeadBits(c, 1) == code >> 6 ==> Low((code >> 6) | 0xc0) == c)
              && (Following(c) == 2 && LeadBits(c, 2) == code >> 12 ==> Low((code >> 12) | 0xe0) == c)
              && (Following(c) == 3 && LeadBits(c, 3) == code >> 18 ==> Low((code >> 18) | 0xf0) == c)
              && (Following(c) == 4 && LeadBits(c, 4) == code >> 24 ==> Low((code >> 24) | 0xf8) == c)
              && (Following(c) == 5 && LeadBits(c, 5) == code >> 30 ==> Low((code >> 30) | 0xfc) == c)
    ensures Low((code >> 30) | 0xfc) < 0xfe
  {
  }

  lemma LeadFromBits(c: bv8, code: bv32, n: nat)
    requires !IsAscii(c) && !IsContinuation(c) && c < 0xfe && !IsNegative(code)
    requires Following(c) == n == TailLength(code) && LeadBits(c, n) == Shifted(code, n)
    ensures Lead(code) == c
  {
    NonNegative(code);
    LeadIsShortest(c, code);
    hide Low, LeadBits, Following;
  }

  /** The label at the front uses as few bytes as possible, and one of the leading bytes that are written. */
  predicate ShortestAtFront(s: seq<bv8>)
    requires s != [] && DecodeOne(s).Some?
  {
    TailLength(DecodeOne(s).value.0) + 1 == DecodeOne(s).value.1 && s[0] < 0xfe
  }

  predicate AllShortest(s: seq<bv8>)
    decreases |s|
  {
    s == [] || (DecodeOne(s).Some? && ShortestAtFront(s) && AllShortest(s[DecodeOne(s).value.1..]))
  }

  lemma AsciiIsWritten(s: seq<bv8>)
    requires s != [] && IsAscii(s[0])
    ensures EncodeLabel(s[0] as bv32) == [s[0]]
  {
    AsciiIsSmall(s[0]);
  }

  lemma ShortestIsWritten(s: seq<bv8>)
    requires s != [] && DecodeOne(s).Some? && ShortestAtFront(s)
    ensures EncodeLabel(DecodeOne(s).value.0) == s[..DecodeOne(s).value.1]
  {
    hide Room, LeadBits, Following, EncodeLabel, Lead, Tail, DecodeOne, DecodeRest, Shifted, IsAscii, IsContinuation, IsNegative, TailLength;
    var code, k := DecodeOne(s).value.0, DecodeOne(s).value.1;
    if IsAscii(s[0]) {
      AsciiAtFront(s);
      AsciiIsWritten(s);
      assert s[..1] == [s[0]];
    } else {
      LeadAtFront(s);
      EncodeIsLeadAndTail(code);
      DecodedIsNonNegative(s);
      LeadBitsFit(s[0]);
      var n := Following(s[0]);
      DecodeRestLength(LeadBits(s[0], n), s[1..], n);
      assert Fits(LeadBits(s[0], n), n);
      RestIsTail(LeadBits(s[0], n), s[1..], n, code);
      LeadFromBits(s[0], code, n);
      assert s[..k] == [s[0]] + s[1..][..n];
    }
  }

  lemma WrittenIsShortest(code: Label, rest: seq<bv8>)
    requires !IsNegative(code)
    ensures var s := EncodeLabel(code) + rest; DecodeOne(s).Some? && ShortestAtFront(s)
  {
    LabelRoundTrip(code, rest);
    EncodeIsLeadAndTail(code);
    NonNegative(code);
    LeadIsShortest(0, code);
    LeadBelow(code);
    hide DecodeOne, EncodeLabel;
  }

  lemma LeadBelow(code: bv32)
    requires code < 0x8000_0000
    ensures Lead(code) < 0xfe
  {
  }

  /** Writing back the labels that were read gives the same bytes iff every label was in shortest form. */
  lemma {:induction false} ReencodeShortest(s: seq<bv8>)
    requires Decode(s).Some?
    ensures Encode(Decode(s).value) == Some(s) <==> AllShortest(s)
    decreases |s|
  {
    hide DecodeOne, EncodeLabel, ShortestAtFront, IsNegative;
    if s != [] {
      var code, k := DecodeOne(s).value.0, DecodeOne(s).value.1;
      var labels := Decode(s[k..]).value;
      DecodedIsNonNegative(s);
      assert Decode(s).value == [code] + labels;
      assert ([code] + labels)[1..] == labels;
      ReencodeShortest(s[k..]);
      if AllShortest(s) {
        ShortestIsWritten(s);
        assert s[..k] + s[k..] == s;
      }
      if Encode([code] + labels) == Some(s) {
        var r := Encode(labels).value;
        assert s == EncodeLabel(code) + r;
        LabelRoundTrip(code, r);
        WrittenIsShortest(code, r);
        assert s[k..] == r;
      }
    }
  }

  // ------------------------------------------------------------ shortest forms, by their bytes

  /** A leading byte that is written, before a byte with which the form is not too long. */
  predicate IsShortLead(c: bv8, next: bv8) {
    && c < 0xfe && c != 0xc0 && c != 0xc1
    && (c == 0xe0 ==> next >= 0xa0) && (c == 0xf0 ==> next >= 0x90)
    && (c == 0xf8 ==> next >= 0x88) && (c == 0xfc ==> next >= 0x84)
  }

  predicate IsShortAt(s: seq<bv8>, i: nat)
    requires i < |s|
  {
    IsShortLead(s[i], if i + 1 < |s| then s[i + 1] else 0)
  }

  /** Every byte that continues no label is such a leading byte. */
  predicate HasShortLeads(s: seq<bv8>) {
    forall i :: 0 <= i < |s| && !IsContinuation(s[i]) ==> IsShortAt(s, i)
  }

  lemma ShortTwo(c: bv8, b: bv8, code: bv32)
    requires 0xc0 <= c < 0xe0 && code < 0x8000_0000 && (code >> 6) == (c as bv32) & 0x1f
    ensures 0x80 <= code < 0x800 <==> IsShortLead(c, b)
  {
  }

  lemma ShortThree(c: bv8, b: bv8, code: bv32)
    requires 0xe0 <= c < 0xf0 && code < 0x8000_0000 && (code >> 12) == (c as bv32) & 0x0f && b == Continuation(code >> 6)
    ensures 0x800 <= code < 0x1_0000 <==> IsShortLead(c, b)
  {
  }

  lemma ShortFour(c: bv8, b: bv8, code: bv32)
    requires 0xf0 <= c < 0xf8 && code < 0x8000_0000 && (code >> 18) == (c as bv32) & 0x07 && b == Continuation(code >> 12)
    ensures 0x1_0000 <= code < 0x20_0000 <==> IsShortLead(c, b)
  {
  }

  lemma ShortFive(c: bv8, b: bv8, code: bv32)
    requires 0xf8 <= c < 0xfc && code < 0x8000_0000 && (code >> 24) == (c as bv32) & 0x03 && b == Continuation(code >> 18)
    ensures 0x20_0000 <= code < 0x400_0000 <==> IsShortLead(c, b)
  {
  }

  lemma ShortSix(c: bv8, b: bv8, code: bv32)
    requires 0xfc <= c < 0xfe && code < 0x8000_0000 && (code >> 30) == (c as bv32) & 0x01 && b == Continuation(code >> 24)
    ensures 0x400_0000 <= code <==> IsShortLead(c, b)
  {
  }

  /** What the label shows of the bytes at the front. */
  lemma FrontBytes(s: seq<bv8>)
    requires s != [] && DecodeOne(s).Some? && !IsAscii(s[0])
    ensures var code, n := DecodeOne(s).value.0, Following(s[0]);
            !IsContinuation(s[0]) && n > 0 && DecodeOne(s).value.1 == n + 1 <= |s| && Shifted(code, n) == LeadBits(s[0], n)
            && s[1] == Continuation(Shifted(code, n - 1)) && forall i :: 1 <= i <= n ==> IsContinuation(s[i])
  {
    hide LeadBits, Following, DecodeOne, DecodeRest, Shifted, IsContinuation, Room, Continuation;
    LeadAtFront(s);
    LeadBitsFit(s[0]);
    var code, n := DecodeOne(s).value.0, Following(s[0]);
    DecodeRestLength(LeadBits(s[0], n), s[1..], n);
    FollowingIsSome(s[0]);
    assert Fits(LeadBits(s[0], n), n);
    RestIsTail(LeadBits(s[0], n), s[1..], n, code);
    TailNext(code, n);
    assert s[1] == s[1..][..n][0];
    forall i | 1 <= i <= n ensures IsContinuation(s[i]) {
      assert s[i] == s[1..][..n][i - 1];
      TailContinues(code, n, i - 1);
    }
  }

  lemma FollowingIsSome(c: bv8)
    requires !IsAscii(c) && !IsContinuation(c)
    ensures Following(c) > 0
  {
  }

  lemma {:induction false} TailContinues(code: Label, n: nat, k: nat)
    requires k < n <= 5
    ensures IsContinuation(Tail(code, n)[k])
    decreases n
  {
    hide IsContinuation, Continuation, Shifted;
    if k == 0 {
      ContinuationBits(Shifted(code, n - 1));
    } else {
      TailContinues(code, n - 1, k - 1);
    }
  }

  lemma ShiftedIs(code: bv32)
    ensures Shifted(code, 0) == code && Shifted(code, 1) == code >> 6 && Shifted(code, 2) == code >> 12
    ensures Shifted(code, 3) == code >> 18 && Shifted(code, 4) == code >> 24 && Shifted(code, 5) == code >> 30
  {
  }

  lemma LeadClass(c: bv8)
    requires !IsAscii(c) && !IsContinuation(c)
    ensures c >= 0xc0 && (Following(c) == 1 <==> c < 0xe0) && (Following(c) <= 2 <==> c < 0xf0)
    ensures (Following(c) <= 3 <==> c < 0xf8) && (Following(c) <= 4 <==> c < 0xfc)
    ensures LeadBits(c, 1) == (c as bv32) & 0x1f && LeadBits(c, 2) == (c as bv32) & 0x0f && LeadBits(c, 3) == (c as bv32) & 0x07
    ensures LeadBits(c, 4) == (c as bv32) & 0x03 && LeadBits(c, 5) == (c as bv32) & 0x01
  {
  }

  /** The first label is in shortest form iff its first two bytes say so. */
  lemma ShortestByBytes(s: seq<bv8>)
    requires s != [] && DecodeOne(s).Some?
    ensures ShortestAtFront(s) <==> IsShortAt(s, 0)
  {
    var code := DecodeOne(s).value.0;
    if IsAscii(s[0]) {
      AsciiAtFront(s);
      AsciiIsShort(s[0]);
    } else {
      hide DecodeOne, Shifted, LeadBits, Following, Continuation, IsShortLead, IsContinuation, IsAscii, TailLength, IsNegative;
      DecodedIsNonNegative(s);
      FrontBytes(s);
      ShortByClass(s[0], s[1], code, Following(s[0]));
    }
  }

  lemma ShortByClass(c: bv8, b: bv8, code: bv32, n: nat)
    requires !IsNegative(code) && !IsAscii(c) && !IsContinuation(c) && 0 < n <= 5 && n == Following(c)
    requires Shifted(code, n) == LeadBits(c, n) && b == Continuation(Shifted(code, n - 1))
    ensures TailLength(code) == n && c < 0xfe <==> IsShortLead(c, b)
  {
    hide Continuation, IsShortLead, IsContinuation, IsAscii, Shifted, LeadBits, Following, TailLength, IsNegative;
    NonNegative(code);
    ShiftedIs(code);
    LeadClass(c);
    LengthClass(code);
    if n == 1 { ShortTwo(c, b, code); }
    if n == 2 { ShortThree(c, b, code); }
    if n == 3 { ShortFour(c, b, code); }
    if n == 4 { ShortFive(c, b, code); }
    if n == 5 { LastClass(c, b, code); }
  }

  lemma LengthClass(code: bv32)
    ensures TailLength(code) == 1 <==> 0x80 <= code < 0x800
    ensures TailLength(code) == 2 <==> 0x800 <= code < 0x1_0000
    ensures TailLength(code) == 3 <==> 0x1_0000 <= code < 0x20_0000
    ensures TailLength(code) == 4 <==> 0x20_0000 <= code < 0x400_0000
    ensures TailLength(code) == 5 <==> 0x400_0000 <= code
  {
  }

  lemma LastClass(c: bv8, b: bv8, code: bv32)
    requires 0xfc <= c && code < 0x8000_0000 && (code >> 30) == (c as bv32) & 0x01 && b == Continuation(code >> 24)
    ensures c < 0xfe && 0x400_0000 <= code <==> IsShortLead(c, b)
  {
    if c < 0xfe { ShortSix(c, b, code); }
  }

  lemma AsciiIsShort(c: bv8)
    requires IsAscii(c)
    ensures TailLength(c as bv32) == 0 && c < 0xfe && forall b :: IsShortLead(c, b)
  {
  }

  /** All labels are in shortest form iff all leading bytes say so. */
  lemma {:induction false} AllShortestByBytes(s: seq<bv8>)
    requires Decode(s).Some?
    ensures AllShortest(s) <==> HasShortLeads(s)
    decreases |s|
  {
    hide DecodeOne, ShortestAtFront, IsShortLead, IsContinuation, IsShortAt, HasShortLeads;
    if s == [] { NoLeads(s); }
    if s != [] {
      var k := DecodeOne(s).value.1;
      ShortestByBytes(s);
      LeadsSplit(s, k);
      AllShortestByBytes(s[k..]);
    }
  }

  lemma NoLeads(s: seq<bv8>)
    requires s == []
    ensures HasShortLeads(s)
  {
  }

  lemma LeadsSplit(s: seq<bv8>, k: nat)
    requires s != [] && DecodeOne(s).Some? && k == DecodeOne(s).value.1
    ensures HasShortLeads(s) <==> IsShortAt(s, 0) && HasShortLeads(s[k..])
  {
    FirstBytes(s);
    hide DecodeOne, IsShortLead, IsContinuation, IsShortAt;
    var r := s[k..];
    forall i | 0 <= i < |r| ensures r[i] == s[k + i] && (IsShortAt(r, i) <==> IsShortAt(s, k + i)) { ShortFurther(s, k, i); }
    if IsShortAt(s, 0) && HasShortLeads(r) {
      forall i | 0 <= i < |s| && !IsContinuation(s[i]) ensures IsShortAt(s, i) {
        if i > 0 { assert r[i - k] == s[k + (i - k)]; }
      }
    }
  }

  lemma ShortFurther(s: seq<bv8>, k: nat, i: nat)
    requires k + i < |s|
    ensures IsShortAt(s[k..], i) <==> IsShortAt(s, k + i)
  {
    hide IsShortLead;
  }

  /** Only the first byte of a label does not continue it. */
  lemma FirstBytes(s: seq<bv8>)
    requires s != [] && DecodeOne(s).Some?
    ensures !IsContinuation(s[0]) && forall i :: 1 <= i < DecodeOne(s).value.1 ==> IsContinuation(s[i])
  {
    if IsAscii(s[0]) {
      AsciiAtFront(s);
      AsciiContinuesNothing(s[0]);
    } else {
      FrontBytes(s);
    }
  }

  lemma AsciiContinuesNothing(c: bv8)
    requires IsAscii(c)
    ensures !IsContinuation(c)
  {
  }

  /** Writing back the labels that were read gives the same bytes iff no leading byte begins a form
      that is too long, and none is 0xfe or 0xff. */
  lemma ReencodeIsSameWhen(s: seq<bv8>)
    requires Decode(s).Some?
    ensures Encode(Decode(s).value) == Some(s) <==> HasShortLeads(s)
  {
    hide Encode, Decode;
    ReencodeShortest(s);
    AllShortestByBytes(s);
  }

  /** The label 0 in two bytes. */
  lemma OverlongExample()
    ensures Decode([0xc0, 0x80]).Some? && Decode([0xc0, 0x80]).value == [0]
    ensures Encode([0]).Some? && Encode([0]).value == [0x00] && !HasShortLeads([0xc0, 0x80])
  {
    var s: seq<bv8> := [0xc0, 0x80];
    assert s[1..] == [0x80] && s[1..][1..] == [] && s[2..] == [];
    assert Following(0xc0) == 1;
    assert TakeUp(0, 0x80) == 0;
    assert DecodeRest(0, [0x80], 1) == DecodeRest(0, [0x80][1..], 0);
    assert DecodeOne(s) == Some((0, 2));
    assert Decode(s[2..]) == Some([]);
    assert !IsContinuation(s[0]) && !IsShortAt(s, 0);
    var zero: seq<Label> := [0];
    assert zero[1..] == [];
    assert !IsNegative(0) && EncodeLabel(0) == [Low(0)];
    assert Encode(zero[1..]) == Some([]);
    assert Encode(zero).value == EncodeLabel(0) + [];
    assert Decode(s).value == [0] + [];
  }

  // ------------------------------------------------------------ the two loops

  /** The labels before the first fault. */
  function Readable(s: seq<bv8>): (r: seq<Label>)
    ensures Decode(s).Some? ==> r == Decode(s).value
    decreases |s|
  {
    if s == [] then []
    else
      var one := DecodeOne(s);
      if one.None? then [] else [one.value.0] + Readable(s[one.value.1..])
  }

  lemma AsciiAtFront(s: seq<bv8>)
    requires s != [] && IsAscii(s[0])
    ensures DecodeOne(s) == Some((s[0] as bv32, 1))
  {
  }

  lemma LeadAtFront(s: seq<bv8>)
    requires s != [] && !IsAscii(s[0])
    ensures IsContinuation(s[0]) ==> DecodeOne(s).None?
    ensures !IsContinuation(s[0]) ==>
              var n := Following(s[0]);
              var code := DecodeRest(LeadBits(s[0], n), s[1..], n);
              DecodeOne(s) == if code.None? then None else Some((code.value, n + 1))
  {
  }

  lemma DecodeStep(s: seq<bv8>, i: nat, code: Label, k: nat)
    requires i < |s| && DecodeOne(s[i..]) == Some((code, k))
    ensures i + k <= |s|
    ensures Decode(s[i..]).Some? <==> Decode(s[i + k..]).Some?
    ensures Readable(s[i..]) == [code] + Readable(s[i + k..])
  {
    assert s[i..][k..] == s[i + k..];
  }

  lemma DecodeFault(s: seq<bv8>, i: nat)
    requires i < |s| && DecodeOne(s[i..]).None?
    ensures Decode(s[i..]).None? && Readable(s[i..]) == []
  {
  }

  lemma AllRead(s: seq<bv8>, i: nat)
    requires i == |s|
    ensures Decode(s[i..]) == Some([]) && Readable(s[i..]) == []
  {
  }

  /** Reads the bytes that follow a leading byte. */
  method ReadContinuations(str: seq<bv8>, i0: nat, code0: bv32, count0: nat) returns (ok: bool, code: bv32, i: nat)
    requires i0 <= |str|
    ensures ok <==> DecodeRest(code0, str[i0..], count0).Some?
    ensures ok ==> i == i0 + count0 <= |str| && DecodeRest(code0, str[i0..], count0) == Some(code)
  {
    hide TakeUp, IsContinuation;
    code, i := code0, i0;
    var count: nat := count0;
    while count != 0
      invariant count <= count0 && i + count == i0 + count0 && i <= |str|
      invariant DecodeRest(code, str[i..], count) == DecodeRest(code0, str[i0..], count0)
    {
      if i == |str| { return false, code, i; }
      var cb := str[i];
      assert str[i..][1..] == str[i + 1..];
      i := i + 1;
      if !IsContinuation(cb) { return false, code, i; }
      code := TakeUp(code, cb as bv32);
      count := count - 1;
    }
    return true, code, i;
  }

  /** Appends the labels of a byte string to 'labels0', up to the first fault. */
  method UTF8StringToLabels(str: seq<bv8>, labels0: seq<Label>) returns (ok: bool, labels: seq<Label>)
    ensures ok <==> Decode(str).Some?
    ensures labels == labels0 + Readable(str)
  {
    hide Decode, Readable, LeadBits, Following, DecodeOne, DecodeRest, IsAscii, IsContinuation, IsNegative;
    labels := labels0;
    var i := 0;
    assert str[0..] == str;
    while i < |str|
      invariant i <= |str|
      invariant Decode(str).Some? <==> Decode(str[i..]).Some?
      invariant labels0 + Readable(str) == labels + Readable(str[i..])
    {
      ghost var front := str[i..];
      ghost var start := i;
      var c := str[i];
      i := i + 1;
      if IsAscii(c) {
        AsciiAtFront(front);
        DecodeStep(str, start, c as bv32, 1);
        labels := labels + [c as bv32];
      } else {
        if IsContinuation(c) {
          LeadAtFront(front);
          DecodeFault(str, start);
          return false, labels;
        }
        var count := Following(c);
        var code := LeadBits(c, count);
        ghost var n := count;
        ghost var result := DecodeRest(code, str[i..], count);
        assert front[1..] == str[i..];
        LeadAtFront(front);
        var enough: bool;
        enough, code, i := ReadContinuations(str, i, code, count);
        if !enough {
          DecodeFault(str, start);
          return false, labels;
        }
        DecodedIsNonNegative(front);
        if IsNegative(code) { return false, labels; }
        DecodeStep(str, start, code, n + 1);
        labels := labels + [code];
      }
    }
    AllRead(str, i);
    return true, labels;
  }

  /** Writes the bytes of all labels; the string is left alone when one of them is negative. */
  method LabelsToUTF8String(labels: seq<Label>, str0: seq<bv8>) returns (ok: bool, str: seq<bv8>)
    ensures ok <==> Encode(labels).Some?
    ensures str == if ok then Encode(labels).value else str0
  {
    var ostr: seq<bv8> := [];
    var i := 0;
    while i < |labels|
      invariant i <= |labels|
      invariant Encode(labels).Some? <==> Encode(labels[i..]).Some?
      invariant Encode(labels).Some? ==> Encode(labels).value == ostr + Encode(labels[i..]).value
    {
      var code := labels[i];
      if IsNegative(code) { return false, str0; }
      assert labels[i..][1..] == labels[i + 1..];
      ostr := ostr + EncodeLabel(code);
      i := i + 1;
    }
    return true, ostr;
  }
}
