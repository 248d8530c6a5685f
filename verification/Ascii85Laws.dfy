/** What the characters of the encoding are, and what the decoder makes of any five characters. */
module Ascii85Laws {
  import opened Bytes
  import opened Arithmetic
  import opened Ascii85

  /** Four bytes as a 32-bit number, the first one on top. */
  function Big(a: int, b: int, c: int, d: int): int {
    ((a * 256 + b) * 256 + c) * 256 + d
  }

  /** Five characters as a number: base-85 digits from `!` on, the first one on top. */
  function Number85(t: seq<byte>): int
    requires |t| >= 5
  {
    var d := seq(5, i requires 0 <= i < 5 => t[i] as int - 33);
    (((d[0] * 85 + d[1]) * 85 + d[2]) * 85 + d[3]) * 85 + d[4]
  }

  /**
   The next four bytes become the single character `z` if they are zero and at least four more follow,
   and otherwise the five characters from `!` to `u` that denote their number.
   */
  lemma EncodedGroup(s: seq<byte>)
    requires |s| >= 4
    ensures var t := Encode(s);
            if s[..4] == [0, 0, 0, 0] && |s| >= 8 then t == [122] + Encode(s[4..])
            else
              && |t| >= 5 && t[5..] == Encode(s[4..])
              && (forall i :: 0 <= i < 5 ==> 33 <= t[i] <= 117)
              && Number85(t) == Big(s[0], s[1], s[2], s[3])
  {
    hide Digits;
    var x := Word(s[..4]);
    assert x == Big(s[0], s[1], s[2], s[3]);
    var d := DigitsAreBase85(x);
    assert s[..4] == [s[0], s[1], s[2], s[3]];
    assert x == 0 <==> s[..4] == [0, 0, 0, 0];
    var group := Group(s[..4], |s| - 4);
    assert Encode(s)[..|group|] == group && Encode(s)[|group|..] == Encode(s[4..]);
  }

  /** A tail of one to three bytes keeps one character more than bytes of the group that zeros complete. */
  lemma EncodedTail(s: seq<byte>)
    requires 1 <= |s| <= 3
    ensures |Encode(s)| == |s| + 1 && Encode(s) == Encode(s + Zeros(4 - |s|))[..|s| + 1]
  {
    hide Digits;
    var whole := s + Zeros(4 - |s|);
    assert whole[..4] == whole && whole[4..] == [];
    assert Word(whole) == Word(s);
    assert Encode(whole) == Digits(Word(s)) + [];
  }

  /** Any five characters become the four bytes of their number modulo 2^32, a leading `z` four zeros. */
  lemma DecodedGroup(t: seq<byte>)
    requires t != [] && (t[0] != 122 ==> |t| >= 5)
    ensures var s := Decode(t);
            && |s| >= 4
            && (t[0] == 122 ==> s == [0, 0, 0, 0] + Decode(t[1..]))
            && (t[0] != 122 ==>
                  s[4..] == Decode(t[5..]) && Big(s[0], s[1], s[2], s[3]) == Number85(t) % 0x1_0000_0000)
  {
    hide WordBytes, Value;
    if t[0] != 122 {
      ValueIsModulo(t);
      BytesOfWord(Value(t[..5]));
    }
  }

  lemma BytesOfWord(x: nat)
    requires x < 0x1_0000_0000
    ensures var s := WordBytes(x); Big(s[0], s[1], s[2], s[3]) == x
  {
    var q := x / 0x100;
    var r := q / 0x100;
    assert x / 0x1_0000 == r && x / 0x100_0000 == r / 0x100;
    assert r / 0x100 < 0x100;
  }

  /** Taking the remainder in every step or once at the end makes no difference. */
  lemma ValueIsModulo(t: seq<byte>)
    requires |t| >= 5
    ensures Value(t[..5]) == Number85(t) % 0x1_0000_0000
  {
    hide AddDigit;
    ModuloNext(0, 0, t[0]);
    var n1 := t[0] as int - 33;
    var v1 := AddDigit(0, t[0]);
    ModuloNext(v1, n1, t[1]);
    var n2 := n1 * 85 + (t[1] as int - 33);
    var v2 := AddDigit(v1, t[1]);
    ModuloNext(v2, n2, t[2]);
    var n3 := n2 * 85 + (t[2] as int - 33);
    var v3 := AddDigit(v2, t[2]);
    ModuloNext(v3, n3, t[3]);
    var n4 := n3 * 85 + (t[3] as int - 33);
    var v4 := AddDigit(v3, t[3]);
    ModuloNext(v4, n4, t[4]);
  }

  lemma ModuloNext(v: nat, n: int, c: byte)
    requires v == n % 0x1_0000_0000
    ensures AddDigit(v, c) == (n * 85 + (c as int - 33)) % 0x1_0000_0000
  {
    var q, digit := n / 0x1_0000_0000, c as int - 33;
    assert n == q * 0x1_0000_0000 + v;
    SameRemainder(v * 85 + digit, 85 * q);
    assert n * 85 + digit == (v * 85 + digit) + 85 * q * 0x1_0000_0000;
  }

  lemma SameRemainder(x: int, q: int)
    ensures (x + q * 0x1_0000_0000) % 0x1_0000_0000 == x % 0x1_0000_0000
  {
    var k, r := x / 0x1_0000_0000, x % 0x1_0000_0000;
    DivisionIsUnique(x + q * 0x1_0000_0000, 0x1_0000_0000, k + q, r);
  }
}
