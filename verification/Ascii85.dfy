/**
 The ASCII85 codec.

 `Encode` and `Decode` say what the two functions compute on byte strings; the methods are the loops
 over buffers, proved against them. Compared with section 7.4.3 of ISO 32000-1 there is no end marker,
 and a zero group is shortened to `z` only while at least four more bytes follow it.
 */
module Ascii85 {
  import opened Bytes
  import opened Arithmetic

  const CHAR_Z: byte := 122
  const CHAR_U: byte := 117

  // ---------------------------------------------------------------------------------------------
  // One group
  // ---------------------------------------------------------------------------------------------

  /** Up to four bytes as the top bytes of a 32-bit word. */
  function Word(chunk: seq<byte>): (r: nat)
    requires |chunk| <= 4
    ensures r < 0x1_0000_0000
  {
    ByteAt(chunk, 0) * 0x100_0000 + ByteAt(chunk, 1) * 0x1_0000 + ByteAt(chunk, 2) * 0x100 + ByteAt(chunk, 3)
  }

  function ByteAt(chunk: seq<byte>, i: nat): (r: int)
    ensures 0 <= r < 0x100
  {
    if i < |chunk| then chunk[i] else 0
  }

  function WordBytes(x: nat): (r: seq<byte>)
    ensures |r| == 4
  {
    [x / 0x100_0000 % 0x100, x / 0x1_0000 % 0x100, x / 0x100 % 0x100, x % 0x100]
  }

  /** The five base-85 digits of a word, most significant first, as characters. */
  function Digits(x: nat): (r: seq<byte>)
    ensures |r| == 5
    ensures forall i :: 0 <= i < 5 ==> 33 <= r[i] <= 117
  {
    [x / 85 / 85 / 85 / 85 % 85 + 33, x / 85 / 85 / 85 % 85 + 33, x / 85 / 85 % 85 + 33, x / 85 % 85 + 33, x % 85 + 33]
  }

  /** One step of the decoder, in 32-bit arithmetic. */
  function AddDigit(x: nat, c: byte): (r: nat)
    ensures r < 0x1_0000_0000
  {
    (x * 85 + (c as int - 33)) % 0x1_0000_0000
  }

  function Value(group: seq<byte>): (r: nat)
    requires |group| == 5
    ensures r < 0x1_0000_0000
  {
    AddDigit(AddDigit(AddDigit(AddDigit(AddDigit(0, group[0]), group[1]), group[2]), group[3]), group[4])
  }

  lemma WordBytesOfWord(chunk: seq<byte>)
    requires |chunk| == 4
    ensures WordBytes(Word(chunk)) == chunk
  {
    var a: int, b: int, c: int, d: int := chunk[0], chunk[1], chunk[2], chunk[3];
    var x := Word(chunk);
    assert x / 0x100 == (a * 0x100 + b) * 0x100 + c;
    assert x / 0x1_0000 == a * 0x100 + b;
    assert x / 0x100_0000 == a;
  }

  /** Without overflow a step is multiplication and addition. */
  lemma AddDigitExact(x: nat, d: nat)
    requires d < 85 && x * 85 + d < 0x1_0000_0000
    ensures AddDigit(x, d + 33) == x * 85 + d
  {
  }

  /** Five digits read as a number. */
  function Horner(d: seq<int>): int
    requires |d| == 5
  {
    (((d[0] * 85 + d[1]) * 85 + d[2]) * 85 + d[3]) * 85 + d[4]
  }

  predicate AreDigits(d: seq<int>) {
    |d| == 5 && forall i :: 0 <= i < 5 ==> 0 <= d[i] < 85
  }

  function Characters(d: seq<int>): (r: seq<byte>)
    requires AreDigits(d)
    ensures |r| == 5
  {
    [d[0] + 33, d[1] + 33, d[2] + 33, d[3] + 33, d[4] + 33]
  }

  /** The characters of a word are its base-85 digits. */
  lemma DigitsAreBase85(x: nat) returns (d: seq<int>)
    requires x < 0x1_0000_0000
    ensures AreDigits(d) && Horner(d) == x && Digits(x) == Characters(d)
  {
    var q1 := x / 85;
    var q2 := q1 / 85;
    var q3 := q2 / 85;
    var q4 := q3 / 85;
    d := [q4, q3 % 85, q2 % 85, q1 % 85, x % 85];
  }

  /** Digits of a 32-bit number read back as that number. */
  lemma ValueOfCharacters(d: seq<int>)
    requires AreDigits(d) && Horner(d) < 0x1_0000_0000
    ensures Value(Characters(d)) == Horner(d)
  {
    hide AddDigit;
    var v1 := d[0];
    var v2 := v1 * 85 + d[1];
    var v3 := v2 * 85 + d[2];
    var v4 := v3 * 85 + d[3];
    AddDigitExact(0, d[0]);
    AddDigitExact(v1, d[1]);
    AddDigitExact(v2, d[2]);
    AddDigitExact(v3, d[3]);
    AddDigitExact(v4, d[4]);
  }

  /** A whole group reads back as its word. */
  lemma ValueOfDigits(x: nat)
    requires x < 0x1_0000_0000
    ensures Value(Digits(x)) == x
  {
    hide Digits, Value;
    var d := DigitsAreBase85(x);
    ValueOfCharacters(d);
  }

  function Us(n: nat): (r: seq<byte>)
    ensures |r| == n && forall i :: 0 <= i < n ==> r[i] == CHAR_U
  {
    seq(n, _ => CHAR_U)
  }

  /** `n` characters of a group completed with `u`. */
  function Completed(group: seq<byte>): (r: seq<byte>)
    requires |group| <= 5
    ensures |r| == 5
  {
    group + Us(5 - |group|)
  }

  /** Padding error: less than one unit of the bytes that are kept. */
  function PaddingUnit(n: nat): nat {
    if n == 3 then 0x100 else if n == 2 then 0x1_0000 else 0x100_0000
  }

  /**
   Dropping the last characters of a group and padding with `u` rounds the word up by less than one
   unit of the bytes that are kept, and it stays a 32-bit word: the kept bytes survive.
   */
  lemma PaddedValue(chunk: seq<byte>)
    requires 1 <= |chunk| <= 3
    ensures var v := Value(Completed(Digits(Word(chunk))[..|chunk| + 1]));
            && Word(chunk) <= v < Word(chunk) + PaddingUnit(|chunk|)
            && WordBytes(v)[..|chunk|] == chunk
  {
    hide Word, Value, Digits, WordBytes, Horner;
    var x, n := Word(chunk), |chunk|;
    var d := DigitsAreBase85(x);
    var e := d[..n + 1] + seq(4 - n, _ => 84);
    assert Completed(Digits(x)[..n + 1]) == Characters(e);
    PaddedDigits(d, e, n);
    KeptBytes(chunk, Horner(e));
    ValueOfCharacters(e);
  }

  /** Digits 84 from place `n + 1` on: the most that those places can hold. */
  lemma PaddedDigits(d: seq<int>, e: seq<int>, n: nat)
    requires 1 <= n <= 3 && AreDigits(d) && AreDigits(e) && d[..n + 1] == e[..n + 1]
    requires forall i :: n < i < 5 ==> e[i] == 84
    ensures Horner(d) <= Horner(e) < Horner(d) + PaddingUnit(n)
  {
    assert forall i :: 0 <= i <= n ==> d[i] == d[..n + 1][i] && e[i] == e[..n + 1][i];
  }

  /** A word less than a unit above a partial chunk has the bytes of the chunk on top, and 32 bits. */
  lemma KeptBytes(chunk: seq<byte>, v: nat)
    requires 1 <= |chunk| <= 3 && Word(chunk) <= v < Word(chunk) + PaddingUnit(|chunk|)
    ensures v < 0x1_0000_0000 && WordBytes(v)[..|chunk|] == chunk
  {
    var a: int := chunk[0];
    DivisionIsUnique(v, 0x100_0000, a, v - a * 0x100_0000);
    if |chunk| >= 2 {
      var b: int := chunk[1];
      var top := a * 0x100 + b;
      DivisionIsUnique(v, 0x1_0000, top, v - top * 0x1_0000);
      DivisionIsUnique(top, 0x100, a, b);
      if |chunk| == 3 {
        var c: int := chunk[2];
        DivisionIsUnique(v, 0x100, top * 0x100 + c, v - (top * 0x100 + c) * 0x100);
        DivisionIsUnique(top * 0x100 + c, 0x100, top, c);
      }
    }
  }

  // ---------------------------------------------------------------------------------------------
  // Strings
  // ---------------------------------------------------------------------------------------------

  /** The group that four bytes become, when `left` bytes follow them. */
  function Group(chunk: seq<byte>, left: nat): seq<byte>
    requires |chunk| <= 4
  {
    if Word(chunk) == 0 && left >= 4 then [CHAR_Z] else Digits(Word(chunk))
  }

  function Encode(s: seq<byte>): seq<byte> {
    if s == [] then []
    else if |s| < 4 then Digits(Word(s))[..|s| + 1]
    else Group(s[..4], |s| - 4) + Encode(s[4..])
  }

  /** No `z` inside a group: what the decoder takes for granted. */
  predicate WellGrouped(t: seq<byte>) {
    if t == [] then true
    else if t[0] == CHAR_Z then WellGrouped(t[1..])
    else if |t| < 5 then CHAR_Z !in t
    else CHAR_Z !in t[..5] && WellGrouped(t[5..])
  }

  function Decode(t: seq<byte>): seq<byte> {
    if t == [] then []
    else if t[0] == CHAR_Z then [0, 0, 0, 0] + Decode(t[1..])
    else if |t| < 5 then WordBytes(Value(Completed(t)))[..|t| - 1]
    else WordBytes(Value(t[..5])) + Decode(t[5..])
  }

  lemma DecodeGroup(group: seq<byte>, rest: seq<byte>)
    requires |group| == 5 && CHAR_Z !in group
    ensures Decode(group + rest) == WordBytes(Value(group)) + Decode(rest)
    ensures WellGrouped(rest) ==> WellGrouped(group + rest)
  {
    assert (group + rest)[..5] == group && (group + rest)[5..] == rest;
    assert (group + rest)[0] == group[0] && group[0] in group;
  }

  lemma DecodeZ(rest: seq<byte>)
    ensures Decode([CHAR_Z] + rest) == [0, 0, 0, 0] + Decode(rest)
    ensures WellGrouped(rest) ==> WellGrouped([CHAR_Z] + rest)
  {
    assert ([CHAR_Z] + rest)[1..] == rest;
  }

  lemma ZeroWord()
    ensures WordBytes(0) == [0, 0, 0, 0]
  {
  }

  /**
   Round trip: every byte string, with zero groups written either way and tails of one to three
   bytes, comes back from its encoding. The encoding is a string the decoder accepts, without NUL.
   */
  lemma {:induction false} RoundTrip(s: seq<byte>)
    ensures Decode(Encode(s)) == s
    ensures WellGrouped(Encode(s))
    ensures 0 !in Encode(s)
  {
    hide Word, Value, Digits, WordBytes;
    if s == [] {
    } else if |s| < 4 {
      var t := Digits(Word(s))[..|s| + 1];
      assert forall i :: 0 <= i < |t| ==> 33 <= t[i] <= 117;
      PaddedValue(s);
    } else {
      var head, tail := s[..4], s[4..];
      var group := Group(head, |tail|);
      RoundTrip(tail);
      WordBytesOfWord(head);
      ValueOfDigits(Word(head));
      if group == [CHAR_Z] {
        DecodeZ(Encode(tail));
        ZeroWord();
      } else {
        assert forall i :: 0 <= i < 5 ==> 33 <= group[i] <= 117;
        DecodeGroup(group, Encode(tail));
      }
    }
  }

  // ---------------------------------------------------------------------------------------------
  // Buffers
  // ---------------------------------------------------------------------------------------------

  /** The buffer holds the C string `t`: its bytes, then NUL up to the end of the buffer. */
  ghost predicate HoldsString(buf: array<byte>, t: seq<byte>)
    reads buf
  {
    |t| < buf.Length && 0 !in t && buf[..] == t + Zeros(buf.Length - |t|)
  }

  /** strlen */
  method StringLength(buf: array<byte>, ghost t: seq<byte>) returns (n: nat)
    requires HoldsString(buf, t)
    ensures n == |t|
  {
    n := 0;
    assert buf[..][|t|] == 0;
    assert forall k :: 0 <= k < |t| ==> buf[..][k] == t[k] && t[k] in t;
    while buf[n] != 0
      invariant n <= |t|
      decreases |t| - n
    {
      n := n + 1;
    }
  }

  /** The encoding before the padding characters are taken off: the last group is a whole one. */
  function EncodeWhole(s: seq<byte>): seq<byte> {
    if s == [] then []
    else if |s| < 4 then Digits(Word(s))
    else Group(s[..4], |s| - 4) + EncodeWhole(s[4..])
  }

  lemma GroupCharacters(chunk: seq<byte>, left: nat)
    requires |chunk| <= 4
    ensures 1 <= |Group(chunk, left)| <= 5 && 0 !in Group(chunk, left)
    ensures 0 !in Digits(Word(chunk))
  {
    hide Word, Digits;
    var d := Digits(Word(chunk));
    assert forall i :: 0 <= i < 5 ==> d[i] != 0;
  }

  lemma {:induction false} EncodeWholeCharacters(s: seq<byte>)
    ensures |EncodeWhole(s)| <= (|s| + 3) / 4 * 5 && 0 !in EncodeWhole(s)
  {
    hide Word, Digits, Group;
    if s == [] {
    } else if |s| < 4 {
      GroupCharacters(s, 0);
    } else {
      EncodeWholeCharacters(s[4..]);
      GroupCharacters(s[..4], |s| - 4);
    }
  }

  /** Number of bytes missing in the last group. */
  function Missing(n: nat): nat {
    if n % 4 == 0 then 0 else 4 - n % 4
  }

  lemma MissingCases(n: nat)
    ensures n == 0 ==> Missing(n) == 0
    ensures 1 <= n < 4 ==> Missing(n) == 4 - n
    ensures 4 <= n ==> Missing(n) == Missing(n - 4)
  {
  }

  lemma DropFromTail(a: seq<byte>, b: seq<byte>, n: nat)
    requires n <= |b|
    ensures (a + b)[..|a + b| - n] == a + b[..|b| - n]
  {
  }

  lemma {:induction false} EncodeWholePadded(s: seq<byte>)
    ensures |EncodeWhole(s)| >= Missing(|s|)
    ensures Encode(s) == EncodeWhole(s)[..|EncodeWhole(s)| - Missing(|s|)]
  {
    hide Word, Digits, Group, Missing;
    MissingCases(|s|);
    if 4 <= |s| {
      EncodeWholePadded(s[4..]);
      DropFromTail(Group(s[..4], |s| - 4), EncodeWhole(s[4..]), Missing(|s|));
    }
  }

  /** The digits of a word by repeated division, last digit first. */
  method WriteDigits(buf: array<byte>, at: nat, word: nat)
    requires at + 5 <= buf.Length
    modifies buf
    ensures buf[..] == old(buf[..at]) + Digits(word) + old(buf[at + 5..])
  {
    var x := word;
    buf[at + 4] := x % 85 + 33;
    x := x / 85;
    buf[at + 3] := x % 85 + 33;
    x := x / 85;
    buf[at + 2] := x % 85 + 33;
    x := x / 85;
    buf[at + 1] := x % 85 + 33;
    x := x / 85;
    buf[at] := x % 85 + 33;
  }

  function Weight(i: nat): nat
    requires i < 4
  {
    if i == 0 then 0x100_0000 else if i == 1 then 0x1_0000 else if i == 2 then 0x100 else 1
  }

  lemma WordNext(source: seq<byte>, n: nat)
    requires n < 4 && n < |source|
    ensures Word(source[..n + 1]) == Word(source[..n]) + source[n] as int * Weight(n)
  {
  }

  /** Gather up to four bytes into a word. The bytes occupy different bits, so OR is addition. */
  method Gather(source: seq<byte>) returns (x: nat, n: nat)
    ensures n == Min(4, |source|) && x == Word(source[..n])
  {
    x, n := 0, 0;
    while n < 4 && n < |source|
      invariant n <= 4 && n <= |source| && x == Word(source[..n])
    {
      WordNext(source, n);
      x := x + source[n] as int * Weight(n);
      n := n + 1;
    }
  }

  method EncodeBuffer(source: seq<byte>) returns (en: array<byte>)
    ensures fresh(en) && HoldsString(en, Encode(source))
  {
    hide Word, Digits, Group, EncodeWhole, Encode;
    var required := (|source| + 3) / 4 * 5;
    var padding := if |source| % 4 != 0 then 4 - |source| % 4 else 0;
    en := new byte[required + 1](_ => 0);
    var i, at := 0, 0;
    EncodeWholeCharacters(source);
    EncodeWholePadded(source);
    ghost var whole := EncodeWhole(source);
    while i < |source|
      invariant 0 <= i <= |source| && at <= |whole|
      invariant whole[at..] == EncodeWhole(source[i..])
      invariant en[..] == whole[..at] + Zeros(en.Length - at)
    {
      ghost var rest := source[i..];
      var x, n := Gather(source[i..]);
      EncodeWholeStep(rest);
      i := i + n;
      assert source[i..] == rest[n..];
      ghost var group := if x == 0 && |source| - i >= 4 then [CHAR_Z] else Digits(x);
      assert whole[at..][..|group|] == group && whole[at..][|group|..] == EncodeWhole(source[i..]);
      assert whole[..at + |group|] == whole[..at] + group;
      if x == 0 && |source| - i >= 4 {
        en[at] := CHAR_Z;
        at := at + 1;
      } else {
        WriteDigits(en, at, x);
        at := at + 5;
      }
    }
    EncodeWholeEmpty(source[i..]);
    assert whole[..at] == whole;
    StripLast(en, padding, whole);
  }

  lemma EncodeWholeEmpty(s: seq<byte>)
    requires s == []
    ensures EncodeWhole(s) == []
  {
  }

  lemma EncodeWholeLong(s: seq<byte>)
    requires |s| >= 4
    ensures EncodeWhole(s) == Group(s[..4], |s| - 4) + EncodeWhole(s[4..])
  {
    hide Word, Digits, Group;
  }

  lemma EncodeWholeStep(s: seq<byte>)
    requires s != []
    ensures var n := Min(4, |s|);
            var x := Word(s[..n]);
            EncodeWhole(s) == (if x == 0 && |s| - n >= 4 then [CHAR_Z] else Digits(x)) + EncodeWhole(s[n..])
  {
    hide Word, Digits;
    if |s| < 4 {
      assert s[..|s|] == s;
      EncodeWholeEmpty(s[|s|..]);
    } else {
      hide EncodeWhole;
      EncodeWholeLong(s);
    }
  }

  /** Take the last character off, `count` times. */
  method StripLast(buf: array<byte>, count: nat, ghost t: seq<byte>)
    requires HoldsString(buf, t) && count <= |t|
    modifies buf
    ensures HoldsString(buf, t[..|t| - count])
  {
    for i := 0 to count
      invariant HoldsString(buf, t[..|t| - i])
    {
      var n := StringLength(buf, t[..|t| - i]);
      buf[n - 1] := 0;
    }
  }

  function CountZ(t: seq<byte>): (r: nat)
    ensures r <= |t|
  {
    if t == [] then 0 else CountZ(t[1..]) + if t[0] == CHAR_Z then 1 else 0
  }

  /** Number of characters missing in the last group; a `z` counts as five. */
  function MissingChars(n: nat): nat {
    if n % 5 == 0 then 0 else 5 - n % 5
  }

  /** Decoding whole groups only. */
  function DecodeWhole(t: seq<byte>): seq<byte> {
    if t == [] then []
    else if t[0] == CHAR_Z then [0, 0, 0, 0] + DecodeWhole(t[1..])
    else if |t| < 5 then []
    else WordBytes(Value(t[..5])) + DecodeWhole(t[5..])
  }

  /** Made of `z` and of groups of five, from here to the end. */
  predicate Whole(t: seq<byte>) {
    if t == [] then true
    else if t[0] == CHAR_Z then Whole(t[1..])
    else |t| >= 5 && Whole(t[5..])
  }

  function Padded(t: seq<byte>): seq<byte> {
    t + Us(MissingChars(|t| + 4 * CountZ(t)))
  }

  function Required(t: seq<byte>): nat {
    (|t| - CountZ(t) + 4) / 5 * 4 + CountZ(t) * 4
  }

  lemma MissingCharsCases(n: nat)
    ensures n == 0 ==> MissingChars(n) == 0
    ensures 1 <= n < 5 ==> MissingChars(n) == 5 - n
    ensures 5 <= n ==> MissingChars(n) == MissingChars(n - 5)
  {
  }

  lemma {:induction false} NoZ(t: seq<byte>)
    requires CHAR_Z !in t
    ensures CountZ(t) == 0
  {
    if t != [] { NoZ(t[1..]); }
  }

  lemma {:induction false} CountZSplit(t: seq<byte>, n: nat)
    requires n <= |t| && CHAR_Z !in t[..n]
    ensures CountZ(t) == CountZ(t[n..])
  {
    if n > 0 {
      assert t[1..][..n - 1] == t[..n][1..] && t[1..][n - 1..] == t[n..] && t[0] == t[..n][0];
      CountZSplit(t[1..], n - 1);
    }
  }

  function MissingFrom(t: seq<byte>): nat {
    MissingChars(|t| + 4 * CountZ(t))
  }

  /** Padding to whole groups and cutting the decoded padding off again is what `Decode` does. */
  predicate PaddingLaw(t: seq<byte>) {
    && Whole(Padded(t)) && |DecodeWhole(Padded(t))| == Required(t)
    && MissingFrom(t) <= Required(t)
    && Decode(t) == DecodeWhole(Padded(t))[..Required(t) - MissingFrom(t)]
  }

  lemma AfterZ(t: seq<byte>)
    requires t != [] && t[0] == CHAR_Z
    ensures Required(t) == Required(t[1..]) + 4 && MissingFrom(t) == MissingFrom(t[1..])
    ensures Padded(t) == [CHAR_Z] + Padded(t[1..])
  {
    MissingCharsCases(|t| + 4 * CountZ(t));
  }

  lemma AfterGroup(t: seq<byte>)
    requires |t| >= 5 && CHAR_Z !in t[..5]
    ensures Required(t) == Required(t[5..]) + 4 && MissingFrom(t) == MissingFrom(t[5..])
    ensures Padded(t) == t[..5] + Padded(t[5..])
  {
    CountZSplit(t, 5);
    MissingCharsCases(|t| + 4 * CountZ(t));
  }

  lemma PaddingLawZ(t: seq<byte>)
    requires t != [] && t[0] == CHAR_Z && PaddingLaw(t[1..])
    ensures PaddingLaw(t)
  {
    hide Value, WordBytes, MissingFrom, Padded, Required;
    AfterZ(t);
    assert Padded(t)[1..] == Padded(t[1..]);
    assert DecodeWhole(Padded(t)) == [0, 0, 0, 0] + DecodeWhole(Padded(t[1..]));
    DropFromTail([0, 0, 0, 0], DecodeWhole(Padded(t[1..])), MissingFrom(t));
  }

  lemma PaddingLawGroup(t: seq<byte>)
    requires |t| >= 5 && CHAR_Z !in t[..5] && PaddingLaw(t[5..])
    ensures PaddingLaw(t)
  {
    hide Value, WordBytes, MissingFrom, Padded, Required;
    AfterGroup(t);
    assert t[0] == t[..5][0];
    assert Padded(t)[5..] == Padded(t[5..]) && Padded(t)[..5] == t[..5] && Padded(t)[0] == t[0];
    assert DecodeWhole(Padded(t)) == WordBytes(Value(t[..5])) + DecodeWhole(Padded(t[5..]));
    DropFromTail(WordBytes(Value(t[..5])), DecodeWhole(Padded(t[5..])), MissingFrom(t));
  }

  lemma PaddingLawShort(t: seq<byte>)
    requires |t| < 5 && CHAR_Z !in t
    ensures PaddingLaw(t)
  {
    hide Value, WordBytes;
    NoZ(t);
    MissingCharsCases(|t|);
    if t != [] {
      assert Padded(t) == Completed(t) && t[0] in t;
      assert Padded(t)[..5] == Completed(t) && Padded(t)[5..] == [] && Padded(t)[0] == t[0];
      assert DecodeWhole(Padded(t)[5..]) == [] && Whole(Padded(t)[5..]);
      assert DecodeWhole(Padded(t)) == WordBytes(Value(Completed(t)));
    } else {
      assert Padded(t) == [] && DecodeWhole(Padded(t)) == [];
    }
  }

  lemma {:induction false} PaddedDecode(t: seq<byte>)
    requires WellGrouped(t)
    ensures PaddingLaw(t)
    decreases |t|
  {
    hide PaddingLaw;
    if t == [] {
      PaddingLawShort(t);
    } else if t[0] == CHAR_Z {
      PaddedDecode(t[1..]);
      PaddingLawZ(t);
    } else if |t| < 5 {
      PaddingLawShort(t);
    } else {
      PaddedDecode(t[5..]);
      PaddingLawGroup(t);
    }
  }

  // ---------------------------------------------------------------------------------------------
  // A z inside a group
  // ---------------------------------------------------------------------------------------------

  /** The `z` characters that the decoder reads as digits of a group. */
  function InnerZ(t: seq<byte>): nat {
    if t == [] then 0
    else if t[0] == CHAR_Z then InnerZ(t[1..])
    else if |t| < 5 then CountZ(t)
    else CountZ(t[..5]) + InnerZ(t[5..])
  }

  /** The words that are complete, and the characters left over. */
  function FullWords(t: seq<byte>): nat {
    if t == [] then 0
    else if t[0] == CHAR_Z then 1 + FullWords(t[1..])
    else if |t| < 5 then 0
    else 1 + FullWords(t[5..])
  }

  function LeftOver(t: seq<byte>): (r: nat)
    ensures r < 5
  {
    if t == [] then 0
    else if t[0] == CHAR_Z then LeftOver(t[1..])
    else if |t| < 5 then |t|
    else LeftOver(t[5..])
  }

  lemma {:induction false} CountZConcat(a: seq<byte>, b: seq<byte>)
    ensures CountZ(a + b) == CountZ(a) + CountZ(b)
  {
    if a == [] {
      assert a + b == b;
    } else {
      assert (a + b)[1..] == a[1..] + b;
      CountZConcat(a[1..], b);
    }
  }

  lemma {:induction false} LengthIs(t: seq<byte>)
    ensures |t| + 4 * CountZ(t) == 5 * FullWords(t) + LeftOver(t) + 4 * InnerZ(t)
    ensures InnerZ(t) <= CountZ(t) && CountZ(t) - InnerZ(t) <= FullWords(t)
  {
    if t == [] {
    } else if t[0] == CHAR_Z {
      LengthIs(t[1..]);
    } else if 5 <= |t| {
      assert t == t[..5] + t[5..];
      CountZConcat(t[..5], t[5..]);
      LengthIs(t[5..]);
    }
  }

  lemma ZStep(t: seq<byte>)
    requires t != [] && t[0] == CHAR_Z
    ensures Whole(t) == Whole(t[1..]) && |DecodeWhole(t)| == 4 + |DecodeWhole(t[1..])|
    ensures LeftOver(t) == LeftOver(t[1..]) && FullWords(t) == 1 + FullWords(t[1..])
  {
  }

  lemma GroupStep(t: seq<byte>)
    requires 5 <= |t| && t[0] != CHAR_Z
    ensures Whole(t) == Whole(t[5..]) && |DecodeWhole(t)| == 4 + |DecodeWhole(t[5..])|
    ensures LeftOver(t) == LeftOver(t[5..]) && FullWords(t) == 1 + FullWords(t[5..])
  {
    hide Value, WordBytes;
  }

  /** What up to five characters behind a string make of it. */
  lemma {:induction false} WholeWith(t: seq<byte>, w: seq<byte>)
    requires |w| <= 5 && CHAR_Z !in w
    ensures Whole(t + w) <==> (LeftOver(t) + |w|) % 5 == 0
    ensures Whole(t + w) ==> |DecodeWhole(t + w)| == 4 * (FullWords(t) + (LeftOver(t) + |w|) / 5)
    decreases |t|
  {
    hide Whole, DecodeWhole, LeftOver, FullWords;
    var p := t + w;
    if t == [] {
      assert p == w;
      FewCharacters(w);
    } else if t[0] == CHAR_Z {
      assert p[1..] == t[1..] + w && p[0] == t[0];
      ZStep(t);
      ZStep(p);
      WholeWith(t[1..], w);
    } else if |t| < 5 {
      ShortTail(t);
      TailWith(t, w);
    } else {
      assert p[5..] == t[5..] + w && p[0] == t[0];
      GroupStep(t);
      GroupStep(p);
      WholeWith(t[5..], w);
    }
  }

  lemma ShortTail(t: seq<byte>)
    requires 0 < |t| < 5 && t[0] != CHAR_Z
    ensures LeftOver(t) == |t| && FullWords(t) == 0
  {
  }

  lemma FewCharacters(w: seq<byte>)
    requires |w| <= 5 && CHAR_Z !in w
    ensures LeftOver([]) == 0 && FullWords([]) == 0
    ensures Whole(w) <==> |w| % 5 == 0
    ensures Whole(w) ==> |DecodeWhole(w)| == 4 * (|w| / 5)
  {
    hide Value, WordBytes;
    if w != [] { assert w[0] in w; }
  }

  lemma TailWith(t: seq<byte>, w: seq<byte>)
    requires 0 < |t| < 5 && t[0] != CHAR_Z && |w| <= 5 && CHAR_Z !in w
    ensures Whole(t + w) <==> |t| + |w| == 5
    ensures |t| + |w| == 5 ==> |DecodeWhole(t + w)| == 4
  {
    hide Value, WordBytes;
    var p := t + w;
    assert p[0] == t[0];
    if 5 <= |p| {
      assert p[5..] == w[5 - |t|..];
      if p[5..] != [] { assert p[5] in w; }
    }
  }

  lemma Period(x: nat, y: nat)
    ensures (5 * x + y) % 5 == y % 5
  {
  }

  lemma ModFiveSmall(r: nat, c: nat)
    requires r < 5 && c < 5
    ensures var k := MissingChars(r + 4 * c); k <= 4 && (r + k) % 5 == c
  {
  }

  lemma ModFive(w: nat, r: nat, b: nat)
    requires r < 5
    ensures var k := MissingChars(5 * w + r + 4 * b); k <= 4 && (r + k) % 5 == b % 5
  {
    var q, c := b / 5, b % 5;
    ModFiveSmall(r, c);
    Period(w + 4 * q, r + 4 * c);
    assert 5 * w + r + 4 * b == 5 * (w + 4 * q) + (r + 4 * c);
  }

  /** The string that the decoder has allocated: padded, and with its terminator. */
  function Allocated(t: seq<byte>): seq<byte> {
    Padded(t) + [0]
  }

  /** The groups end with the padding, or with the terminator. */
  predicate ReadsInside(t: seq<byte>) {
    Whole(Padded(t)) || Whole(Allocated(t))
  }

  function Readable(t: seq<byte>): seq<byte> {
    if Whole(Padded(t)) then Padded(t) else Allocated(t)
  }

  lemma BothEnds(t: seq<byte>)
    ensures var k := MissingFrom(t);
            && k <= 4 && (LeftOver(t) + k) % 5 == InnerZ(t) % 5
            && (Whole(Padded(t)) <==> InnerZ(t) % 5 == 0)
            && (Whole(Allocated(t)) <==> InnerZ(t) % 5 == 4)
            && (Whole(Padded(t)) ==> |DecodeWhole(Padded(t))| == 4 * (FullWords(t) + (LeftOver(t) + k) / 5))
            && (Whole(Allocated(t)) ==> |DecodeWhole(Allocated(t))| == 4 * (FullWords(t) + (LeftOver(t) + k + 1) / 5))
  {
    hide Whole, DecodeWhole, CountZ, InnerZ, FullWords, LeftOver, MissingChars;
    LengthIs(t);
    ModFive(FullWords(t), LeftOver(t), InnerZ(t));
    var us := Us(MissingFrom(t));
    WholeWith(t, us);
    WholeWith(t, us + [0]);
    assert Allocated(t) == t + (us + [0]);
    OneMoreOf(LeftOver(t) + MissingFrom(t));
  }

  lemma OneMoreOf(m: nat)
    ensures (m + 1) % 5 == 0 <==> m % 5 == 4
  {
  }

  /**
   The decoder reads nothing behind the string that it has allocated exactly if the `z` inside groups,
   divided by five, leave 0 or 4: with 4 the last group is completed by the terminator.
   */
  lemma ReadsInsideIff(t: seq<byte>)
    ensures ReadsInside(t) <==> InnerZ(t) % 5 == 0 || InnerZ(t) % 5 == 4
  {
    BothEnds(t);
  }

  lemma ReadableIs(t: seq<byte>, text: seq<byte>)
    requires ReadsInside(t) && text == t + Us(MissingFrom(t)) + [0]
    ensures |text| == |t| + MissingFrom(t) + 1 && text[|t| + MissingFrom(t)] == 0
    ensures var n := |t| + MissingFrom(t); n <= |Readable(t)| <= n + 1 && Readable(t) == text[..|Readable(t)|]
    ensures Whole(Readable(t))
  {
    hide Whole, MissingChars;
    assert text[..|t| + MissingFrom(t)] == Padded(t);
  }

  /** Then the buffer has 16 bytes too many for every five of them, and 12 if the terminator was read. */
  lemma BufferIs(t: seq<byte>)
    requires ReadsInside(t)
    ensures Required(t) == |DecodeWhole(Readable(t))| + 16 * (InnerZ(t) / 5) + if InnerZ(t) % 5 == 4 then 12 else 0
    ensures MissingFrom(t) <= Required(t)
  {
    hide Whole, DecodeWhole, CountZ, InnerZ, FullWords, MissingChars, LeftOver;
    LengthIs(t);
    BothEnds(t);
    BufferArithmetic(|t|, CountZ(t), FullWords(t), LeftOver(t), InnerZ(t), MissingFrom(t));
  }

  lemma BufferArithmetic(n: nat, z: nat, w: nat, r: nat, b: nat, k: nat)
    requires n + 4 * z == 5 * w + r + 4 * b && b <= z && z - b <= w && z <= n && r < 5
    requires k <= 4 && (r + k) % 5 == b % 5 && (b % 5 == 0 || b % 5 == 4)
    ensures b % 5 == 0 ==> (n - z + 4) / 5 * 4 + z * 4 == 4 * (w + (r + k) / 5) + 16 * (b / 5)
    ensures b % 5 == 4 ==> (n - z + 4) / 5 * 4 + z * 4 == 4 * (w + (r + k + 1) / 5) + 16 * (b / 5) + 12
    ensures k <= (n - z + 4) / 5 * 4 + z * 4
  {
    var c := b / 5;
    var x: int := w + b - z - c;
    if b % 5 == 0 {
      assert n - z + 4 == 5 * x + (r + 4);
      Quotient(x, r + 4);
      assert (r + 4) / 5 == (r + k) / 5;
    } else {
      assert r + k == 4;
      assert n - z + 4 == 5 * x + r;
      Quotient(x, r);
    }
  }

  lemma Quotient(x: int, y: nat)
    ensures (5 * x + y) / 5 == x + y / 5
  {
  }

  /** The bytes that the decoder reports. */
  function Reported(t: seq<byte>): (r: seq<byte>)
    requires MissingFrom(t) <= Required(t)
    ensures |r| == Required(t) - MissingFrom(t)
  {
    Fit(DecodeWhole(Readable(t)), Required(t) - MissingFrom(t))
  }

  /** Without a `z` inside a group that is the decoded string. */
  lemma ReportedIsDecoded(t: seq<byte>)
    requires WellGrouped(t)
    ensures InnerZ(t) == 0 && Whole(Padded(t)) && MissingFrom(t) <= Required(t) && Reported(t) == Decode(t)
  {
    hide DecodeWhole, Decode, Whole, Padded, Required, MissingFrom;
    PaddedDecode(t);
    NoInnerZ(t);
  }

  lemma {:induction false} NoInnerZ(t: seq<byte>)
    requires WellGrouped(t)
    ensures InnerZ(t) == 0
  {
    if t == [] {
    } else if t[0] == CHAR_Z {
      NoInnerZ(t[1..]);
    } else if |t| < 5 {
      NoZ(t);
    } else {
      NoZ(t[..5]);
      NoInnerZ(t[5..]);
    }
  }

  // ---------------------------------------------------------------------------------------------

  /** Reading five characters into a word. */
  method ReadGroup(source: seq<byte>) returns (x: nat)
    requires |source| >= 5
    ensures x == Value(source[..5]) && x < 0x1_0000_0000
  {
    hide AddDigit;
    x := 0;
    for chunk := 0 to 5
      invariant x < 0x1_0000_0000
      invariant x == ReadSoFar(source, chunk)
    {
      x := AddDigit(x, source[chunk]);
    }
    assert ReadSoFar(source, 5) == AddDigit(ReadSoFar(source, 4), source[4]);
    assert ReadSoFar(source, 3) == AddDigit(ReadSoFar(source, 2), source[2]);
    assert ReadSoFar(source, 1) == AddDigit(0, source[0]);
  }

  function ReadSoFar(source: seq<byte>, n: nat): nat
    requires n <= |source|
  {
    if n == 0 then 0 else AddDigit(ReadSoFar(source, n - 1), source[n - 1])
  }

  /** Write a word, top byte first. */
  method WriteWord(buf: array<byte>, at: nat, x: nat)
    requires at + 4 <= buf.Length
    modifies buf
    ensures buf[..] == old(buf[..at]) + WordBytes(x) + old(buf[at + 4..])
  {
    for k := 0 to 4
      invariant forall j :: 0 <= j < buf.Length ==>
                  buf[j] == if at <= j < at + k then WordBytes(x)[j - at] else old(buf[j])
    {
      assert WordBytes(x)[k] == x / Weight(k) % 0x100;
      buf[at + k] := x / Weight(k) % 0x100;
    }
  }

  method CountZChars(source: seq<byte>) returns (n: nat)
    ensures n == CountZ(source)
  {
    n := 0;
    for i := |source| downto 0
      invariant n == CountZ(source[i..])
    {
      CountZNext(source, i);
      if source[i] == CHAR_Z {
        n := n + 1;
      }
    }
    assert source[0..] == source;
  }

  /**
   Decode groups into a zeroed buffer, until `length` characters have been read. The last group may
   take in the terminator behind them.
   */
  method DecodeGroups(text: seq<byte>, length: nat, en: array<byte>, ghost readable: seq<byte>)
    requires |text| == length + 1 && text[length] == 0
    requires length <= |readable| <= length + 1 && readable == text[..|readable|] && Whole(readable)
    requires |DecodeWhole(readable)| < en.Length && en[..] == Zeros(en.Length)
    modifies en
    ensures en[..] == DecodeWhole(readable) + Zeros(en.Length - |DecodeWhole(readable)|)
  {
    hide Value, WordBytes, DecodeWhole, Whole;
    var walker, at := 0, 0;
    ghost var whole := DecodeWhole(readable);
    assert readable[0..] == readable;
    while walker < length
      invariant 0 <= walker <= |readable| && at <= |whole|
      invariant Whole(readable[walker..]) && whole[at..] == DecodeWhole(readable[walker..])
      invariant en[..] == whole[..at] + Zeros(en.Length - at)
      decreases length - walker
    {
      ghost var rest := readable[walker..];
      WholeStep(rest);
      RestOf(text, readable, walker);
      var x := 0;
      if text[walker] == CHAR_Z {
        walker := walker + 1;
      } else {
        x := ReadGroup(text[walker..]);
        walker := walker + 5;
      }
      NextWord(whole, at, WordBytes(x), DecodeWhole(readable[walker..]));
      WriteWord(en, at, x);
      at := at + 4;
    }
    if walker < |readable| { TerminatorIsNotWhole(readable[walker..]); }
    WholeEmpty(readable[walker..]);
    assert whole[..at] == whole;
  }

  /** What is left to read of a prefix of the text. */
  lemma RestOf(text: seq<byte>, readable: seq<byte>, at: nat)
    requires at < |readable| <= |text| && readable == text[..|readable|]
    ensures readable[at..][0] == text[at] && readable[at..][1..] == readable[at + 1..]
    ensures at + 5 <= |readable| ==>
              readable[at..][..5] == text[at..][..5] && readable[at..][5..] == readable[at + 5..]
  {
  }

  lemma TerminatorIsNotWhole(t: seq<byte>)
    requires t == [0]
    ensures !Whole(t)
  {
  }

  lemma NextWord(whole: seq<byte>, at: nat, word: seq<byte>, rest: seq<byte>)
    requires at <= |whole| && whole[at..] == word + rest
    ensures at + |word| <= |whole| && whole[..at + |word|] == whole[..at] + word && whole[at + |word|..] == rest
  {
    assert whole[at..][..|word|] == word;
    assert whole[at..][|word|..] == rest;
  }

  /**
   Decode a string without NUL whose groups the decoder can read to the end. The result is followed by
   zeros; without a `z` inside a group it is the decoded string.
   */
  method DecodeBuffer(source: seq<byte>) returns (en: array<byte>, length: nat)
    requires (InnerZ(source) % 5 == 0 || InnerZ(source) % 5 == 4) && 0 !in source
    ensures MissingFrom(source) <= Required(source)
    ensures fresh(en) && length == |Reported(source)| < en.Length
    ensures en[..] == Reported(source) + Zeros(en.Length - length)
    ensures WellGrouped(source) ==> en[..length] == Decode(source)
  {
    hide Decode, DecodeWhole, Whole, MissingChars, CountZ, InnerZ, WellGrouped, Readable, ReadsInside, Reported;
    ReadsInsideIff(source);
    BufferIs(source);
    var zCount := CountZChars(source);
    var required := (|source| - zCount + 4) / 5 * 4 + zCount * 4;
    var padding := MissingChars(|source| + 4 * zCount);
    en := DecodePadded(source, required, padding);
    length := required - padding;
    if WellGrouped(source) {
      ReportedIsDecoded(source);
      assert en[..length] == Reported(source);
    }
  }

  /** Pad, decode the groups into a buffer of the computed size, and clear what the padding has produced. */
  method DecodePadded(source: seq<byte>, required: nat, padding: nat) returns (en: array<byte>)
    requires ReadsInside(source) && required == Required(source) && padding == MissingFrom(source)
    requires padding <= required && |DecodeWhole(Readable(source))| <= required
    ensures fresh(en) && en.Length == required + 1
    ensures en[..] == Reported(source) + Zeros(1 + padding)
  {
    var text := source + Us(padding) + [0];
    ReadableIs(source, text);
    hide DecodeWhole, Whole, Us, Readable, ReadsInside, Fit, Required, MissingFrom;
    en := new byte[required + 1](_ => 0);
    DecodeGroups(text, |source| + padding, en, Readable(source));
    ghost var whole := DecodeWhole(Readable(source));
    ClearPadding(en, required, padding, whole + Zeros(required - |whole|));
    FitIs(whole, required, required - padding);
  }

  lemma FitIs(data: seq<byte>, total: nat, n: nat)
    requires |data| <= total && n <= total
    ensures Fit(data, n) == (data + Zeros(total - |data|))[..n]
  {
  }

  /** Overwrite the bytes that padding has produced. */
  method ClearPadding(en: array<byte>, required: nat, padding: nat, ghost full: seq<byte>)
    requires en.Length == required + 1 && |full| == required && padding <= required && en[..] == full + Zeros(1)
    modifies en
    ensures en[..] == full[..required - padding] + Zeros(1 + padding)
  {
    for i := 0 to padding
      invariant en[..] == full[..required - i] + Zeros(1 + i)
    {
      en[required - (i + 1)] := 0;
    }
  }

  lemma CountZNext(t: seq<byte>, i: nat)
    requires i < |t|
    ensures CountZ(t[i..]) == CountZ(t[i + 1..]) + if t[i] == CHAR_Z then 1 else 0
  {
    assert t[i..][1..] == t[i + 1..];
  }

  lemma WholeEmpty(t: seq<byte>)
    requires t == []
    ensures DecodeWhole(t) == []
  {
  }

  lemma WholeStep(t: seq<byte>)
    requires Whole(t) && t != []
    ensures t[0] == CHAR_Z ==> Whole(t[1..]) && DecodeWhole(t) == WordBytes(0) + DecodeWhole(t[1..])
    ensures t[0] != CHAR_Z ==>
              |t| >= 5 && Whole(t[5..]) && DecodeWhole(t) == WordBytes(Value(t[..5])) + DecodeWhole(t[5..])
  {
    ZeroWord();
  }
}
