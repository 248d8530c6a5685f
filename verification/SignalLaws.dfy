/**
 Signals in plain arithmetic: a payload is a number, its first byte the least significant one, and a
 signal is the `length` binary digits of that number from digit `start` on.
 */
module SignalLaws {
  import opened Bytes
  import opened Arithmetic
  import opened Bits
  import opened SignalPack

  /** The payload as a number, least significant byte first. */
  function Number(s: seq<byte>): nat {
    if s == [] then 0 else s[0] + 0x100 * Number(s[1..])
  }

  /** Bit `p` of the payload is binary digit `p` of the number. */
  lemma {:induction false} NumberBit(s: seq<byte>, p: nat)
    ensures PayloadBit(s, p) <==> Bit(Number(s), p)
  {
    if s == [] {
      BitOfZero(p);
    } else {
      ByteAndRest(s[0], Number(s[1..]), p);
      if p >= 8 {
        NumberBit(s[1..], p - 8);
        assert (p - 8) / 8 == p / 8 - 1 && (p - 8) % 8 == p % 8;
      }
    }
  }

  lemma ByteAndRest(b: byte, rest: nat, p: nat)
    ensures Bit(b + 0x100 * rest, p) <==> if p < 8 then Bit(b, p) else Bit(rest, p - 8)
  {
    var x := b + 0x100 * rest;
    Pow2Of8();
    LowIsModulo(x, 8);
    DivisionIsUnique(x, 0x100, rest, b);
    if p < 8 {
      BitLow(x, 8, p);
    } else {
      ShrIsDivision(x, 8);
      BitShr(x, 8, p - 8);
    }
  }

  lemma {:induction false} ShrIsDivision(x: nat, n: nat)
    ensures Shr(x, n) == x / Pow2(n)
  {
    if n > 0 {
      ShrIsDivision(x / 2, n - 1);
      var q, r := x / 2 / Pow2(n - 1), x / 2 % Pow2(n - 1);
      assert x == q * Pow2(n) + (2 * r + x % 2);
      DivisionIsUnique(x, Pow2(n), q, 2 * r + x % 2);
    }
  }

  /** A bit is a binary digit. */
  lemma {:induction false} BitIs(x: nat, i: nat)
    ensures Bit(x, i) <==> x / Pow2(i) % 2 == 1
  {
    BitShr(x, i, 0);
    ShrIsDivision(x, i);
  }

  /** Where the pieces behind the first byte begin within a signal: one for every byte of the payload. */
  function PieceStart(start: nat, k: nat): nat {
    (8 - start % 8) % 8 + 8 * k
  }

  /** The shifts of a signal are defined exactly if no piece of it begins at bit 64 or behind. */
  lemma ShiftsDefinedIff(start: nat, length: nat)
    ensures ShiftsDefined(start, length) <==>
            forall k: nat :: PieceStart(start, k) < length ==> PieceStart(start, k) < 64
  {
    assert PieceStart(start, 8) == 64 + Lead(start);
    forall k: nat ensures PieceStart(start, k) < PieceStart(start, 8) ==> PieceStart(start, k) < 64 {
    }
  }

  /** A field of the payload is a quotient and a remainder of its number. */
  lemma FieldIs(value: nat, s: seq<byte>, start: nat, n: nat)
    ensures IsField(value, s, start, n) <==> value == Number(s) / Pow2(start) % Pow2(n)
  {
    var digits := Low(Shr(Number(s), start), n);
    ShrIsDivision(Number(s), start);
    LowIsModulo(Shr(Number(s), start), n);
    forall j: nat ensures Bit(digits, j) <==> j < n && PayloadBit(s, start + j) {
      BitLow(Shr(Number(s), start), n, j);
      BitShr(Number(s), start, j);
      NumberBit(s, start + j);
    }
    if IsField(value, s, start, n) {
      SameBits(value, digits);
    }
  }

  /** Packing sets these digits to those of the value and keeps the digits below and above. */
  lemma PackedIs(after: seq<byte>, before: seq<byte>, start: nat, n: nat, value: nat)
    requires Packed(after, before, start, n, value) && start + n <= 8 * |before|
    ensures |after| == |before|
    ensures Number(after) / Pow2(start) % Pow2(n) == value % Pow2(n)
    ensures Number(after) % Pow2(start) == Number(before) % Pow2(start)
    ensures Number(after) / Pow2(start + n) == Number(before) / Pow2(start + n)
  {
    var x, y := Number(after), Number(before);
    FieldIs(Low(value, n), after, start, n);
    LowIsModulo(value, n);
    LowIsModulo(x, start);
    LowIsModulo(y, start);
    ShrIsDivision(x, start + n);
    ShrIsDivision(y, start + n);
    forall j: nat ensures Bit(Low(value, n), j) <==> j < n && PayloadBit(after, start + j) {
      BitLow(value, n, j);
    }
    forall j: nat ensures Bit(Low(x, start), j) <==> Bit(Low(y, start), j) {
      BitLow(x, start, j);
      BitLow(y, start, j);
      NumberBit(after, j);
      NumberBit(before, j);
    }
    SameBits(Low(x, start), Low(y, start));
    var u, v := Shr(x, start + n), Shr(y, start + n);
    forall j: nat ensures Bit(u, j) <==> Bit(v, j) {
      BitShr(x, start + n, j);
      BitShr(y, start + n, j);
      NumberBit(after, start + n + j);
      NumberBit(before, start + n + j);
    }
    SameBits(u, v);
  }
}
