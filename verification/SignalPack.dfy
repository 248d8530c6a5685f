/**
 Packing signals into payloads and unpacking them again.

 A signal occupies `length` bits of a payload from bit `start` on, counting the bits of each byte from
 the least significant one. The loops move bytes and partial bytes; the contracts speak of bits.
 */
module SignalPack {
  import opened Bytes
  import opened Bits

  /** The place of a signal: its PDU, and its bits in the payload of that PDU. */
  datatype Field = Field(pdu: nat, start: nat, length: nat)

  /** Bit `p` of a payload. */
  predicate PayloadBit(s: seq<byte>, p: nat) {
    p / 8 < |s| && Bit(s[p / 8], p % 8)
  }

  predicate Covers(f: Field, pdu: nat, p: nat) {
    f.pdu == pdu && f.start <= p < f.start + f.length
  }

  // ---------------------------------------------------------------------------------------------
  // One byte
  // ---------------------------------------------------------------------------------------------

  /** `(b & ~M_p) | V`: the low `n` bits of `value` replace the bits of `b` from `o` on. */
  function PutBits(b: byte, value: nat, o: nat, n: nat): nat
  {
    var mp := Low(Shl(Mask(n), o), 8);
    var v := Low(Shl(And(Low(value, 8), Mask(n)), o), 8);
    assert Pow2(8) == 256;
    Or(And(b, Not8(mp)), v)
  }

  lemma Pow2Of8()
    ensures Pow2(8) == 256
  {
    assert Pow2(4) == 16;
  }

  lemma PutBitsBit(b: byte, value: nat, o: nat, n: nat, i: nat)
    requires o + n <= 8
    ensures Bit(PutBits(b, value, o, n), i) <==> if o <= i < o + n then Bit(value, i - o) else Bit(b, i)
  {
    hide Bit, And, Or, Shl, Low, Pow2;
    var mp := Low(Shl(Mask(n), o), 8);
    var field := And(Low(value, 8), Mask(n));
    var v := Low(Shl(field, o), 8);
    Pow2Of8();
    BitOr(And(b, Not8(mp)), v, i);
    BitAnd(b, Not8(mp), i);
    BitLow(Shl(field, o), 8, i);
    BitShl(field, o, i);
    BitLow(Shl(Mask(n), o), 8, i);
    BitShl(Mask(n), o, i);
    if o <= i {
      BitAnd(Low(value, 8), Mask(n), i - o);
      BitLow(value, 8, i - o);
      BitMask(n, i - o);
    }
    if i < 8 {
      BitNot8(mp, 8, i);
    } else {
      SmallBits(b, 8, i);
    }
  }

  lemma PutBitsIsByte(b: byte, value: nat, o: nat, n: nat)
    requires o + n <= 8
    ensures PutBits(b, value, o, n) < 256
  {
    Pow2Of8();
    forall i: nat | 8 <= i ensures !Bit(PutBits(b, value, o, n), i) {
      PutBitsBit(b, value, o, n, i);
      SmallBits(b, 8, i);
    }
    FewBits(PutBits(b, value, o, n), 8);
  }

  /** `(b >> o) & M_v`: `n` bits of `b` from `o` on. */
  function GetBits(b: byte, o: nat, n: nat): nat {
    And(Shr(b, o), Mask(n))
  }

  lemma GetBitsBit(b: byte, o: nat, n: nat, i: nat)
    ensures Bit(GetBits(b, o, n), i) <==> i < n && Bit(b, o + i)
  {
    BitAnd(Shr(b, o), Mask(n), i);
    BitShr(b, o, i);
    BitMask(n, i);
  }

  // ---------------------------------------------------------------------------------------------
  // One signal
  // ---------------------------------------------------------------------------------------------

  /** The payload is `before` with the bits from `start` to `start + n` taken from `value`. */
  ghost predicate Packed(after: seq<byte>, before: seq<byte>, start: nat, n: nat, value: nat) {
    && |after| == |before|
    && forall p: nat :: PayloadBit(after, p) <==>
         if start <= p < start + n && p < 8 * |before| then Bit(value, p - start) else PayloadBit(before, p)
  }

  /** Replace part of one byte. */
  method WriteBits(payload: array<byte>, at: nat, value: nat, o: nat, n: nat)
    requires at < payload.Length && o + n <= 8
    modifies payload
    ensures Packed(payload[..], old(payload[..]), 8 * at + o, n, value)
  {
    ghost var before := payload[..];
    PutBitsIsByte(payload[at], value, o, n);
    payload[at] := PutBits(payload[at], value, o, n);
    forall p: nat
      ensures PayloadBit(payload[..], p) <==>
              if 8 * at + o <= p < 8 * at + o + n then Bit(value, p - (8 * at + o)) else PayloadBit(before, p)
    {
      if p / 8 == at {
        PutBitsBit(before[at], value, o, n, p % 8);
      }
    }
  }

  /** Replace one whole byte. */
  method WriteByte(payload: array<byte>, at: nat, value: nat)
    requires at < payload.Length
    modifies payload
    ensures Packed(payload[..], old(payload[..]), 8 * at, 8, value)
  {
    ghost var before := payload[..];
    Pow2Of8();
    payload[at] := Low(value, 8);
    forall p: nat
      ensures PayloadBit(payload[..], p) <==>
              if 8 * at <= p < 8 * at + 8 then Bit(value, p - 8 * at) else PayloadBit(before, p)
    {
      if p / 8 == at {
        BitLow(value, 8, p % 8);
      }
    }
  }

  /** `value` is `raw` without its `n` low bits. */
  ghost predicate Rest(value: nat, raw: nat, n: nat) {
    forall j: nat :: Bit(value, j) <==> Bit(raw, n + j)
  }

  /** Two adjacent pieces, the second one from the shifted value, are one piece. */
  lemma PackedTwice(a: seq<byte>, b: seq<byte>, c: seq<byte>, start: nat, n: nat, m: nat, raw: nat, value: nat)
    requires Packed(b, a, start, n, raw) && Packed(c, b, start + n, m, value)
    requires Rest(value, raw, n)
    ensures Packed(c, a, start, n + m, raw)
  {
  }

  lemma NothingShifted(raw: nat)
    ensures Rest(raw, raw, 0)
  {
  }

  lemma ShiftedOn(raw: nat, value: nat, done: nat, n: nat)
    requires Rest(value, raw, done)
    ensures Rest(Shr(value, n), raw, done + n)
  {
    forall j: nat ensures Bit(Shr(value, n), j) <==> Bit(raw, done + n + j) {
      BitShr(value, n, j);
      assert Bit(value, n + j) <==> Bit(raw, done + (n + j));
    }
  }

  /** Pack `length` bits of `raw` into the payload. */
  method PackSignal(payload: array<byte>, start: nat, length: nat, raw: nat)
    requires start + length <= 8 * payload.Length
    modifies payload
    ensures Packed(payload[..], old(payload[..]), start, length, raw)
  {
    hide Bit, PutBits, Packed, Rest, Shr;
    var bitCount := 0;
    var byteIdx := start / 8;
    var value := raw;
    PackedNothing(payload[..], start, raw);
    NothingShifted(raw);
    if start % 8 != 0 {
      var o := start % 8;
      var n := if 8 - o > length then length else 8 - o;
      WriteBits(payload, byteIdx, value, o, n);
      byteIdx := byteIdx + 1;
      bitCount := bitCount + n;
      value := Shr(value, n);
      ShiftedOn(raw, raw, 0, n);
    }
    while bitCount + 8 < length
      invariant bitCount <= length
      invariant bitCount < length ==> 8 * byteIdx == start + bitCount
      invariant Packed(payload[..], old(payload[..]), start, bitCount, raw)
      invariant Rest(value, raw, bitCount)
    {
      ghost var before := payload[..];
      WriteByte(payload, byteIdx, value);
      PackedTwice(old(payload[..]), before, payload[..], start, bitCount, 8, raw, value);
      ShiftedOn(raw, value, bitCount, 8);
      byteIdx := byteIdx + 1;
      bitCount := bitCount + 8;
      value := Shr(value, 8);
    }
    if bitCount < length {
      ghost var before := payload[..];
      var n := length - bitCount;
      WriteBits(payload, byteIdx, value, 0, n);
      PackedTwice(old(payload[..]), before, payload[..], start, bitCount, n, raw, value);
    }
  }

  lemma PackedNothing(s: seq<byte>, start: nat, raw: nat)
    ensures Packed(s, s, start, 0, raw)
  {
  }

  /** `value` is the `n` payload bits from `start` on. */
  ghost predicate IsField(value: nat, s: seq<byte>, start: nat, n: nat) {
    forall j: nat :: Bit(value, j) <==> j < n && PayloadBit(s, start + j)
  }

  /** The bits of a signal that share their first byte with bits before it. */
  function Lead(start: nat): nat {
    if start % 8 == 0 then 0 else 8 - start % 8
  }

  /** Every piece of the signal begins below bit 64, where shifting a 64-bit value is defined. */
  predicate ShiftsDefined(start: nat, length: nat) {
    length <= 64 + Lead(start)
  }

  /** The pieces before the last one end at bit 64 at the latest. */
  lemma PieceBelow64(start: nat, length: nat, pieces: nat)
    requires ShiftsDefined(start, length) && Min(Lead(start), length) + 8 * pieces + 8 < length
    ensures Min(Lead(start), length) + 8 * pieces + 8 < 64
  {
  }

  /** `(uint64_t)v << n`. From 64 on, the language does not say what the result is. */
  method ShiftWord(v: nat, n: nat) returns (r: nat)
    ensures n < 64 ==> r == Low(Shl(v, n), 64)
  {
    if n < 64 {
      r := Low(Shl(v, n), 64);
    } else {
      r := *;
    }
  }

  /** `value |= v << done`, with `v` the next `n` bits. */
  lemma FieldNext(value: nat, s: seq<byte>, start: nat, done: nat, v: nat, o: nat, n: nat)
    requires IsField(value, s, start, done) && done < 64
    requires o + n <= 8 && (start + done) % 8 == o && (start + done) / 8 < |s|
    requires v == GetBits(s[(start + done) / 8], o, n)
    ensures IsField(Or(value, Low(Shl(v, done), 64)), s, start, Min(done + n, 64))
  {
    var at := (start + done) / 8;
    forall j: nat
      ensures Bit(Or(value, Low(Shl(v, done), 64)), j) <==> j < Min(done + n, 64) && PayloadBit(s, start + j)
    {
      BitOr(value, Low(Shl(v, done), 64), j);
      BitLow(Shl(v, done), 64, j);
      BitShl(v, done, j);
      if done <= j {
        GetBitsBit(s[at], o, n, j - done);
        if j - done < n {
          assert (start + j) / 8 == at && (start + j) % 8 == o + (j - done);
        }
      }
    }
  }

  /** Unpack `length` bits of the payload into a 64-bit value. */
  method UnpackSignal(payload: array<byte>, start: nat, length: nat) returns (value: nat)
    requires start + length <= 8 * payload.Length
    ensures ShiftsDefined(start, length) ==>
              IsField(value, payload[..], start, Min(length, 64)) && value < Pow2(Min(length, 64))
  {
    hide PayloadBit, Bit, GetBits, IsField, Or, Shl, Low, Pow2, ShiftsDefined;
    var bitCount := 0;
    var byteIdx := start / 8;
    value := 0;
    FieldNothing(payload[..], start);
    if start % 8 != 0 {
      var o := start % 8;
      var n := if 8 - o > length then length else 8 - o;
      value := GetBits(payload[byteIdx], o, n);
      FirstPiece(value, payload[..], start, o, n);
      byteIdx := byteIdx + 1;
      bitCount := bitCount + n;
    }
    ghost var pieces := 0;
    while bitCount + 8 < length
      invariant bitCount <= length && bitCount == Min(Lead(start), length) + 8 * pieces
      invariant bitCount < length ==> 8 * byteIdx == start + bitCount
      invariant ShiftsDefined(start, length) ==> bitCount < 64 && IsField(value, payload[..], start, bitCount)
    {
      var v := GetBits(payload[byteIdx], 0, 8);
      if ShiftsDefined(start, length) {
        PieceBelow64(start, length, pieces);
        FieldNext(value, payload[..], start, bitCount, v, 0, 8);
      }
      v := ShiftWord(v, bitCount);
      value := Or(value, v);
      byteIdx := byteIdx + 1;
      bitCount := bitCount + 8;
      pieces := pieces + 1;
    }
    if bitCount < length {
      var n := length - bitCount;
      var v := GetBits(payload[byteIdx], 0, n);
      if ShiftsDefined(start, length) { FieldNext(value, payload[..], start, bitCount, v, 0, n); }
      v := ShiftWord(v, bitCount);
      value := Or(value, v);
    }
    if ShiftsDefined(start, length) { FieldIsSmall(value, payload[..], start, Min(length, 64)); }
  }

  lemma FieldNothing(s: seq<byte>, start: nat)
    ensures IsField(0, s, start, 0)
  {
    forall j: nat ensures !Bit(0, j) {
      BitOfZero(j);
    }
  }

  lemma FirstPiece(value: nat, s: seq<byte>, start: nat, o: nat, n: nat)
    requires o == start % 8 && o + n <= 8 && start / 8 < |s| && value == GetBits(s[start / 8], o, n)
    ensures IsField(value, s, start, n)
  {
    forall j: nat ensures Bit(value, j) <==> j < n && PayloadBit(s, start + j) {
      GetBitsBit(s[start / 8], o, n, j);
      if j < n {
        assert (start + j) / 8 == start / 8 && (start + j) % 8 == o + j;
      }
    }
  }

  lemma FieldIsSmall(value: nat, s: seq<byte>, start: nat, n: nat)
    requires IsField(value, s, start, n)
    ensures value < Pow2(n)
  {
    FewBits(value, n);
  }

  // ---------------------------------------------------------------------------------------------
  // All signals of a network
  // ---------------------------------------------------------------------------------------------

  /**
   Bit `p` of the payload of `pdu` after packing all signals that are not skipped: the bit of the
   last one that covers it, or the old bit.
   */
  ghost function BitAfter(before: seq<byte>, fields: seq<Field>, raw: seq<nat>, skip: seq<bool>, pdu: nat, p: nat): bool
    requires |fields| == |raw| == |skip|
  {
    if fields == [] then PayloadBit(before, p)
    else
      var k := |fields| - 1;
      if !skip[k] && Covers(fields[k], pdu, p) then Bit(raw[k], p - fields[k].start)
      else BitAfter(before, fields[..k], raw[..k], skip[..k], pdu, p)
  }

  ghost predicate AllPacked(
      after: seq<byte>, before: seq<byte>, fields: seq<Field>, raw: seq<nat>, skip: seq<bool>, pdu: nat)
    requires |fields| == |raw| == |skip|
  {
    |after| == |before| && forall p: nat :: PayloadBit(after, p) <==> BitAfter(before, fields, raw, skip, pdu, p)
  }

  /** Every field is inside the payload of its PDU, and the payloads are different buffers. */
  predicate FieldsFit(fields: seq<Field>, payloads: seq<array<byte>>) {
    && (forall i :: 0 <= i < |fields| ==>
          fields[i].pdu < |payloads| && fields[i].start + fields[i].length <= 8 * payloads[fields[i].pdu].Length)
    && (forall i, j :: 0 <= i < j < |payloads| ==> payloads[i] != payloads[j])
  }

  /** The checks on a configured signal; 0xffff stands for a missing start. */
  predicate Accepts(start: nat, length: nat, payloadLength: nat) {
    && start != 0xffff
    && length != 0
    && !(start > payloadLength * 8)
    && !(start + length > payloadLength * 8)
  }

  /** Signals pass the checks against the payloads of their PDUs exactly if they have a place and can be packed. */
  lemma AcceptedFieldsFit(fields: seq<Field>, payloads: seq<array<byte>>)
    requires forall i, j :: 0 <= i < j < |payloads| ==> payloads[i] != payloads[j]
    requires forall i :: 0 <= i < |fields| ==> fields[i].pdu < |payloads|
    ensures (forall i :: 0 <= i < |fields| ==>
               Accepts(fields[i].start, fields[i].length, payloads[fields[i].pdu].Length))
            <==> FieldsFit(fields, payloads)
                 && forall i :: 0 <= i < |fields| ==> fields[i].start != 0xffff && fields[i].length > 0
  {
    forall i | 0 <= i < |fields|
      ensures Accepts(fields[i].start, fields[i].length, payloads[fields[i].pdu].Length) <==>
              && fields[i].start != 0xffff && fields[i].length > 0
              && fields[i].start + fields[i].length <= 8 * payloads[fields[i].pdu].Length
    {
    }
  }

  /** The checks keep signals within the 64 bits of a raw value exactly for payloads of at most 8 bytes. */
  lemma AcceptedFitRawIff(payloadLength: nat)
    ensures (forall start: nat, length: nat :: Accepts(start, length, payloadLength) ==> length <= 64)
            <==> payloadLength <= 8
  {
    assert payloadLength > 8 ==> Accepts(0, 65, payloadLength);
  }

  lemma AllPackedNext(after: seq<byte>, mid: seq<byte>, before: seq<byte>,
                      fields: seq<Field>, raw: seq<nat>, skip: seq<bool>, n: nat, pdu: nat)
    requires |fields| == |raw| == |skip| && n < |fields|
    requires AllPacked(mid, before, fields[..n], raw[..n], skip[..n], pdu)
    requires fields[n].pdu == pdu ==> fields[n].start + fields[n].length <= 8 * |mid|
    requires if skip[n] || fields[n].pdu != pdu then after == mid
             else Packed(after, mid, fields[n].start, fields[n].length, raw[n])
    ensures AllPacked(after, before, fields[..n + 1], raw[..n + 1], skip[..n + 1], pdu)
  {
    assert fields[..n + 1][..n] == fields[..n] && raw[..n + 1][..n] == raw[..n] && skip[..n + 1][..n] == skip[..n];
  }

  /** Pack every signal that is not skipped. */
  method PackAll(fields: seq<Field>, raw: seq<nat>, skip: seq<bool>, payloads: seq<array<byte>>)
    requires |fields| == |raw| == |skip| && FieldsFit(fields, payloads)
    modifies payloads
    ensures forall d :: 0 <= d < |payloads| ==>
              AllPacked(payloads[d][..], old(payloads[d][..]), fields, raw, skip, d)
  {
    hide AllPacked, Packed, BitAfter, PayloadBit;
    forall d | 0 <= d < |payloads|
      ensures AllPacked(payloads[d][..], payloads[d][..], fields[..0], raw[..0], skip[..0], d)
    {
      NothingPacked(payloads[d][..], d);
    }
    for i := 0 to |fields|
      invariant forall d :: 0 <= d < |payloads| ==>
                  AllPacked(payloads[d][..], old(payloads[d][..]), fields[..i], raw[..i], skip[..i], d)
    {
      var f := fields[i];
      ghost var mid := seq(|payloads|, d requires 0 <= d < |payloads| reads payloads => payloads[d][..]);
      if !skip[i] {
        PackSignal(payloads[f.pdu], f.start, f.length, raw[i]);
      }
      forall d | 0 <= d < |payloads|
        ensures AllPacked(payloads[d][..], old(payloads[d][..]), fields[..i + 1], raw[..i + 1], skip[..i + 1], d)
      {
        AllPackedNext(payloads[d][..], mid[d], old(payloads[d][..]), fields, raw, skip, i, d);
      }
    }
    assert fields[..|fields|] == fields && raw[..|raw|] == raw && skip[..|skip|] == skip;
  }

  lemma NothingPacked(s: seq<byte>, pdu: nat)
    ensures AllPacked(s, s, [], [], [], pdu)
  {
  }

  /** The raw value of an unpacked signal. */
  ghost predicate Unpacked(value: nat, s: seq<byte>, f: Field) {
    ShiftsDefined(f.start, f.length) ==> IsField(value, s, f.start, Min(f.length, 64))
  }

  /**
   Unpack the signals of the PDUs that were received; the others keep their raw value. A signal with a
   piece beyond bit 64 gets no particular value, and does not disturb the others.
   */
  method UnpackAll(fields: seq<Field>, payloads: seq<array<byte>>, received: seq<bool>, raw: array<nat>)
    requires FieldsFit(fields, payloads) && |received| == |payloads| && raw.Length == |fields|
    modifies raw
    ensures forall i :: 0 <= i < |fields| ==>
              if received[fields[i].pdu] then Unpacked(raw[i], payloads[fields[i].pdu][..], fields[i])
              else raw[i] == old(raw[i])
  {
    for i := 0 to |fields|
      invariant forall k :: 0 <= k < |fields| ==>
                  if k < i && received[fields[k].pdu] then Unpacked(raw[k], payloads[fields[k].pdu][..], fields[k])
                  else raw[k] == old(raw[k])
    {
      var f := fields[i];
      if received[f.pdu] {
        var value := UnpackSignal(payloads[f.pdu], f.start, f.length);
        raw[i] := value;
      }
    }
  }

  /** Where two signals begin to overlap, if they do. */
  function FirstShared(f: Field, g: Field): nat {
    if f.start < g.start then g.start else f.start
  }

  /** Two signals share a payload bit. */
  predicate Overlap(f: Field, g: Field) {
    f.pdu == g.pdu && FirstShared(f, g) < f.start + f.length && FirstShared(f, g) < g.start + g.length
  }

  /** The part of a signal that fits a raw value. */
  function FirstWord(f: Field): Field {
    f.(length := Min(f.length, 64))
  }

  /** No signal packed after `i` overlaps its first 64 bits. */
  predicate Untouched(fields: seq<Field>, skip: seq<bool>, i: nat)
    requires i < |fields| == |skip|
  {
    forall k :: i < k < |fields| && !skip[k] ==> !Overlap(FirstWord(fields[i]), fields[k])
  }

  lemma {:induction false} LastWriter(
      before: seq<byte>, fields: seq<Field>, raw: seq<nat>, skip: seq<bool>, i: nat, p: nat)
    requires i < |fields| == |raw| == |skip| && !skip[i] && Covers(fields[i], fields[i].pdu, p)
    requires forall k :: i < k < |fields| && !skip[k] ==> !Covers(fields[k], fields[i].pdu, p)
    ensures BitAfter(before, fields, raw, skip, fields[i].pdu, p) <==> Bit(raw[i], p - fields[i].start)
  {
    var k := |fields| - 1;
    if i < k {
      LastWriter(before, fields[..k], raw[..k], skip[..k], i, p);
    }
  }

  /**
   Round trip: unpacking a signal after packing all signals gives its raw value modulo 2^length (or
   2^64, for a longer one), provided that no later signal overlaps its first 64 bits. (Pairwise
   disjoint signals all satisfy this.)
   */
  lemma PackThenUnpack(after: seq<byte>, before: seq<byte>, fields: seq<Field>, raw: seq<nat>, skip: seq<bool>,
                       i: nat, value: nat)
    requires i < |fields| == |raw| == |skip| && !skip[i] && Untouched(fields, skip, i)
    requires AllPacked(after, before, fields, raw, skip, fields[i].pdu)
    requires ShiftsDefined(fields[i].start, fields[i].length) && Unpacked(value, after, fields[i])
    ensures value == raw[i] % Pow2(Min(fields[i].length, 64))
  {
    var f := fields[i];
    var n := Min(f.length, 64);
    forall j: nat ensures Bit(value, j) <==> Bit(Low(raw[i], n), j) {
      BitLow(raw[i], n, j);
      if j < n {
        LastWriter(before, fields, raw, skip, i, f.start + j);
      }
    }
    SameBits(value, Low(raw[i], n));
    LowIsModulo(raw[i], n);
  }

  /** Bits that no packed signal covers keep their old value. */
  lemma {:induction false} UncoveredBit(
      before: seq<byte>, fields: seq<Field>, raw: seq<nat>, skip: seq<bool>, pdu: nat, p: nat)
    requires |fields| == |raw| == |skip|
    requires forall k :: 0 <= k < |fields| && !skip[k] ==> !Covers(fields[k], pdu, p)
    ensures BitAfter(before, fields, raw, skip, pdu, p) <==> PayloadBit(before, p)
  {
    if fields != [] {
      var k := |fields| - 1;
      UncoveredBit(before, fields[..k], raw[..k], skip[..k], pdu, p);
    }
  }

  // ---------------------------------------------------------------------------------------------
  // When a signal comes back
  // ---------------------------------------------------------------------------------------------

  /** Raw values have 64 bits. */
  predicate AreRaw(raw: seq<nat>) {
    forall k :: 0 <= k < |raw| ==> raw[k] < Pow2(64)
  }

  /** The packed signals of the PDU lie inside its payload. */
  predicate Inside(fields: seq<Field>, skip: seq<bool>, pdu: nat, length: nat)
    requires |fields| == |skip|
  {
    forall k :: 0 <= k < |fields| && !skip[k] && fields[k].pdu == pdu ==>
                  fields[k].start + fields[k].length <= 8 * length
  }

  /** Whatever is packed, what is unpacked is the raw value, as far as the signal carries it. */
  ghost predicate AlwaysReturns(before: seq<byte>, fields: seq<Field>, skip: seq<bool>, i: nat)
    requires i < |fields| == |skip|
  {
    forall raw: seq<nat>, after: seq<byte>, value: nat | |raw| == |fields| && AreRaw(raw) ::
      AllPacked(after, before, fields, raw, skip, fields[i].pdu) && Unpacked(value, after, fields[i]) ==>
        value == raw[i] % Pow2(Min(fields[i].length, 64))
  }

  /**
   A packed signal comes back for all values exactly if its shifts are defined and no signal packed
   later overlaps its first 64 bits.
   */
  lemma ReturnsIff(before: seq<byte>, fields: seq<Field>, skip: seq<bool>, i: nat)
    requires i < |fields| == |skip| && !skip[i] && Inside(fields, skip, fields[i].pdu, |before|)
    ensures AlwaysReturns(before, fields, skip, i) <==>
            ShiftsDefined(fields[i].start, fields[i].length) && Untouched(fields, skip, i)
  {
    hide AllPacked, Unpacked, Pow2, AreRaw;
    var f := fields[i];
    if !ShiftsDefined(f.start, f.length) {
      UndefinedIsAnything(before, fields, skip, i);
    } else if !Untouched(fields, skip, i) {
      OverlapLoses(before, fields, skip, i);
    } else {
      forall raw: seq<nat>, after: seq<byte>, value: nat |
        |raw| == |fields| && AreRaw(raw) && AllPacked(after, before, fields, raw, skip, f.pdu)
        && Unpacked(value, after, f)
        ensures value == raw[i] % Pow2(Min(f.length, 64))
      {
        PackThenUnpack(after, before, fields, raw, skip, i, value);
      }
    }
  }

  /** The number with the given bits. */
  function FromBits(f: nat -> bool, start: nat, n: nat): (r: nat)
    ensures r < Pow2(n)
    decreases n
  {
    if n == 0 then 0 else (if f(start) then 1 else 0) + 2 * FromBits(f, start + 1, n - 1)
  }

  lemma {:induction false} FromBitsBit(f: nat -> bool, start: nat, n: nat, j: nat)
    ensures Bit(FromBits(f, start, n), j) <==> j < n && f(start + j)
    decreases n
  {
    if n == 0 {
      BitOfZero(j);
    } else {
      BitOfDigit(if f(start) then 1 else 0, FromBits(f, start + 1, n - 1), j);
      if j > 0 { FromBitsBit(f, start + 1, n - 1, j - 1); }
    }
  }

  function ByteFromBits(f: nat -> bool, start: nat): byte {
    Pow2Of8();
    FromBits(f, start, 8)
  }

  /** The payload after packing. */
  ghost function PayloadAfter(before: seq<byte>, fields: seq<Field>, raw: seq<nat>, skip: seq<bool>, pdu: nat)
    : seq<byte>
    requires |fields| == |raw| == |skip|
  {
    var bits := (p: nat) => BitAfter(before, fields, raw, skip, pdu, p);
    seq(|before|, b requires 0 <= b < |before| => ByteFromBits(bits, 8 * b))
  }

  lemma {:induction false} NothingBehind(
      before: seq<byte>, fields: seq<Field>, raw: seq<nat>, skip: seq<bool>, pdu: nat, p: nat)
    requires |fields| == |raw| == |skip| && Inside(fields, skip, pdu, |before|) && 8 * |before| <= p
    ensures !BitAfter(before, fields, raw, skip, pdu, p)
  {
    if fields != [] {
      var k := |fields| - 1;
      NothingBehind(before, fields[..k], raw[..k], skip[..k], pdu, p);
    }
  }

  lemma PayloadAfterIsPacked(before: seq<byte>, fields: seq<Field>, raw: seq<nat>, skip: seq<bool>, pdu: nat)
    requires |fields| == |raw| == |skip| && Inside(fields, skip, pdu, |before|)
    ensures AllPacked(PayloadAfter(before, fields, raw, skip, pdu), before, fields, raw, skip, pdu)
  {
    hide BitAfter, Bit;
    var after := PayloadAfter(before, fields, raw, skip, pdu);
    var bits := (p: nat) => BitAfter(before, fields, raw, skip, pdu, p);
    forall p: nat ensures PayloadBit(after, p) <==> BitAfter(before, fields, raw, skip, pdu, p) {
      if p < 8 * |before| {
        FromBitsBit(bits, 8 * (p / 8), 8, p % 8);
      } else {
        NothingBehind(before, fields, raw, skip, pdu, p);
      }
    }
  }

  lemma Pow2Grows(a: nat, b: nat)
    requires a < b
    ensures Pow2(a) < Pow2(b)
  {
    if a + 1 < b { Pow2Grows(a, b - 1); }
  }

  /** An undefined shift can give anything. */
  lemma UndefinedIsAnything(before: seq<byte>, fields: seq<Field>, skip: seq<bool>, i: nat)
    requires i < |fields| == |skip| && Inside(fields, skip, fields[i].pdu, |before|)
    requires !ShiftsDefined(fields[i].start, fields[i].length)
    ensures !AlwaysReturns(before, fields, skip, i)
  {
    hide AllPacked, Pow2;
    var raw := seq(|fields|, n => 0);
    assert AreRaw(raw) by { Pow2Positive(); }
    PayloadAfterIsPacked(before, fields, raw, skip, fields[i].pdu);
    var after := PayloadAfter(before, fields, raw, skip, fields[i].pdu);
    var wrong := raw[i] % Pow2(Min(fields[i].length, 64)) + 1;
    assert Unpacked(wrong, after, fields[i]);
  }

  lemma Pow2Positive()
    ensures 0 < Pow2(64)
  {
  }

  /** Packing a single set bit at a place that a later signal covers with zeros loses it. */
  lemma OverlapLoses(before: seq<byte>, fields: seq<Field>, skip: seq<bool>, i: nat)
    requires i < |fields| == |skip| && !skip[i] && Inside(fields, skip, fields[i].pdu, |before|)
    requires !Untouched(fields, skip, i)
    ensures !AlwaysReturns(before, fields, skip, i)
  {
    hide AllPacked, Pow2, Bit, BitAfter, AlwaysReturns;
    var f := fields[i];
    var n := Min(f.length, 64);
    var k :| i < k < |fields| && !skip[k] && Overlap(FirstWord(f), fields[k]);
    var p := FirstShared(f, fields[k]);
    var j := p - f.start;
    var raw := seq(|fields|, m => if m == i then Shl(1, j) else 0);
    OneBit(j);
    assert AreRaw(raw);
    ZeroAfter(before, fields, raw, skip, i, f.pdu, p, k);
    PayloadAfterIsPacked(before, fields, raw, skip, f.pdu);
    var after := PayloadAfter(before, fields, raw, skip, f.pdu);
    var value := Reads(after, f.start, n);
    LostBit(after, before, fields, raw, skip, i, j);
    assert Unpacked(value, after, f) by { ReadsField(after, f.start, n); }
    NotAlways(before, fields, skip, i, raw, after, value);
  }

  lemma OneBit(j: nat)
    requires j < 64
    ensures Shl(1, j) < Pow2(64) && Bit(Shl(1, j), j) && 0 < Pow2(64)
  {
    Pow2Grows(j, 64);
    BitShl(1, j, j);
    assert Bit(1, 0);
  }

  /** The field as a number. */
  function Reads(s: seq<byte>, start: nat, n: nat): nat {
    FromBits((j: nat) => PayloadBit(s, start + j), 0, n)
  }

  lemma ReadsField(s: seq<byte>, start: nat, n: nat)
    ensures IsField(Reads(s, start, n), s, start, n)
  {
    hide Bit, PayloadBit;
    forall j: nat ensures Bit(Reads(s, start, n), j) <==> j < n && PayloadBit(s, start + j) {
      FromBitsBit((j: nat) => PayloadBit(s, start + j), 0, n, j);
    }
  }

  /** A bit that is set in the raw value and not in the payload makes a difference. */
  lemma LostBit(after: seq<byte>, before: seq<byte>, fields: seq<Field>, raw: seq<nat>, skip: seq<bool>, i: nat, j: nat)
    requires i < |fields| == |raw| == |skip| && AllPacked(after, before, fields, raw, skip, fields[i].pdu)
    requires j < Min(fields[i].length, 64) && Bit(raw[i], j)
    requires !BitAfter(before, fields, raw, skip, fields[i].pdu, fields[i].start + j)
    ensures var n := Min(fields[i].length, 64); Reads(after, fields[i].start, n) != raw[i] % Pow2(n)
  {
    hide BitAfter, Bit, PayloadBit;
    var n := Min(fields[i].length, 64);
    ReadsField(after, fields[i].start, n);
    LowIsModulo(raw[i], n);
    BitLow(raw[i], n, j);
  }

  lemma NotAlways(before: seq<byte>, fields: seq<Field>, skip: seq<bool>, i: nat,
                  raw: seq<nat>, after: seq<byte>, value: nat)
    requires i < |fields| == |skip| == |raw| && AreRaw(raw)
    requires AllPacked(after, before, fields, raw, skip, fields[i].pdu) && Unpacked(value, after, fields[i])
    requires value != raw[i] % Pow2(Min(fields[i].length, 64))
    ensures !AlwaysReturns(before, fields, skip, i)
  {
    hide AllPacked, Unpacked, Pow2, AreRaw;
  }

  lemma {:induction false} ZeroAfter(before: seq<byte>, fields: seq<Field>, raw: seq<nat>, skip: seq<bool>,
                                     i: nat, pdu: nat, p: nat, k: nat)
    requires i < k < |fields| == |raw| == |skip| && !skip[k] && Covers(fields[k], pdu, p)
    requires forall n :: 0 <= n < |raw| && n != i ==> raw[n] == 0
    ensures !BitAfter(before, fields, raw, skip, pdu, p)
  {
    var last := |fields| - 1;
    if !skip[last] && Covers(fields[last], pdu, p) {
      BitOfZero(p - fields[last].start);
    } else {
      ZeroAfter(before, fields[..last], raw[..last], skip[..last], i, pdu, p, k);
    }
  }
}
