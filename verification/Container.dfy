/**
 Container PDUs: several I-PDUs, each behind a short or a full header, in the payload of one L-PDU.

 The functions here say what the bytes and flags are; the loops over the PDU objects of a network
 that are proved against them are in `ContainerObjects`.
 */
module Container {
  import opened Bytes

  datatype HeaderFormat = HeaderNone | HeaderStatic | HeaderShort | HeaderFull

  function HeaderLength(h: HeaderFormat): nat {
    match h
    case HeaderNone | HeaderStatic => 0
    case HeaderShort => 4
    case HeaderFull => 8
  }

  /** The `n` low bytes of `x`, most significant first. */
  function BigEndian(x: nat, n: nat): (r: seq<byte>)
    ensures |r| == n
  {
    if n == 0 then [] else BigEndian(x / 256, n - 1) + [x % 256]
  }

  function ReadBigEndian(s: seq<byte>): nat {
    if s == [] then 0 else ReadBigEndian(s[..|s| - 1]) * 256 + s[|s| - 1]
  }

  function Pow256(n: nat): (r: nat)
    ensures 0 < r
  {
    if n == 0 then 1 else 256 * Pow256(n - 1)
  }

  lemma {:induction false} BigEndianRoundTrip(x: nat, n: nat)
    requires x < Pow256(n)
    ensures ReadBigEndian(BigEndian(x, n)) == x
  {
    if n > 0 {
      BigEndianRoundTrip(x / 256, n - 1);
      assert BigEndian(x, n)[..n - 1] == BigEndian(x / 256, n - 1);
    }
  }

  lemma {:induction false} ReadZeros(n: nat)
    ensures ReadBigEndian(Zeros(n)) == 0
  {
    if n > 0 {
      ReadZeros(n - 1);
      assert Zeros(n)[..n - 1] == Zeros(n - 1);
    }
  }

  /** The header bytes of an I-PDU, id first. The static format has none. */
  function Header(h: HeaderFormat, id: nat, length: nat): (r: seq<byte>)
    ensures |r| == HeaderLength(h)
  {
    match h
    case HeaderNone | HeaderStatic => []
    case HeaderShort => BigEndian(id, 3) + BigEndian(length, 1)
    case HeaderFull => BigEndian(id, 4) + BigEndian(length, 4)
  }

  /** The length that a header can carry. */
  function CarriedLength(h: HeaderFormat, length: nat): nat {
    match h
    case HeaderNone | HeaderStatic => length
    case HeaderShort => length % 0x100
    case HeaderFull => length % 0x1_0000_0000
  }

  // ---------------------------------------------------------------------------------------------
  // Sending
  // ---------------------------------------------------------------------------------------------

  /** An I-PDU on the sending side. */
  datatype TxItem = TxItem(id: nat, bytes: seq<byte>, needsTx: bool, checksum: nat)

  /** An I-PDU with its header, as placed in the container. */
  function Frame(h: HeaderFormat, id: nat, bytes: seq<byte>): seq<byte> {
    Header(h, id, |bytes|) + bytes[..Min(|bytes|, CarriedLength(h, |bytes|))]
  }

  /** The bytes placed so far, and which I-PDUs they are. */
  datatype Placed = Placed(bytes: seq<byte>, mapped: seq<bool>)

  /** The I-PDU finds room behind what was placed before it. */
  predicate Fits(h: HeaderFormat, size: nat, placed: nat, length: nat) {
    length + HeaderLength(h) <= size - placed
  }

  /** Place the first `n` I-PDUs in order: each pending one that still fits. */
  function PlaceFirst(h: HeaderFormat, size: nat, items: seq<TxItem>, n: nat): (r: Placed)
    requires n <= |items|
    ensures |r.mapped| == n && |r.bytes| <= size
  {
    if n == 0 then Placed([], [])
    else
      var before := PlaceFirst(h, size, items, n - 1);
      var it := items[n - 1];
      if it.needsTx && Fits(h, size, |before.bytes|, |it.bytes|) then
        Placed(before.bytes + Frame(h, it.id, it.bytes), before.mapped + [true])
      else
        Placed(before.bytes, before.mapped + [false])
  }

  function PlaceAll(h: HeaderFormat, size: nat, items: seq<TxItem>): Placed {
    PlaceFirst(h, size, items, |items|)
  }

  /** The container payload: the frames, then zeros. */
  function ContainerBytes(h: HeaderFormat, size: nat, items: seq<TxItem>): (r: seq<byte>)
    ensures |r| == size
  {
    var placed := PlaceAll(h, size, items).bytes;
    placed + Zeros(size - |placed|)
  }

  /** A mapped I-PDU remembers what it sent; a delayed one forgets its checksum and is raised again. */
  function ItemAfter(hash: seq<byte> -> nat, it: TxItem, mapped: bool): TxItem {
    if !it.needsTx then it
    else it.(needsTx := false, checksum := if mapped then hash(it.bytes) else 0)
  }

  function ItemsAfter(h: HeaderFormat, size: nat, hash: seq<byte> -> nat, items: seq<TxItem>): (r: seq<TxItem>)
    ensures |r| == |items|
  {
    seq(|items|, i requires 0 <= i < |items| => ItemAfter(hash, items[i], PlaceAll(h, size, items).mapped[i]))
  }

  /** Something was placed, so the container itself is to be sent. */
  predicate AnyMapped(mapped: seq<bool>) {
    exists i :: 0 <= i < |mapped| && mapped[i]
  }

  // ---------------------------------------------------------------------------------------------
  // Receiving
  // ---------------------------------------------------------------------------------------------

  /** An I-PDU on the receiving side. */
  datatype RxItem = RxItem(id: nat, bytes: seq<byte>, updated: bool)

  /** Copy the received bytes over the head of the payload. */
  function Overwritten(bytes: seq<byte>, data: seq<byte>): (r: seq<byte>)
    ensures |r| == |bytes|
  {
    var n := Min(|bytes|, |data|);
    data[..n] + bytes[n..]
  }

  /** The first I-PDU with the id takes the data. */
  function Deliver(items: seq<RxItem>, id: nat, data: seq<byte>): (r: seq<RxItem>)
    ensures |r| == |items|
  {
    if items == [] then []
    else if items[0].id == id then
      [items[0].(bytes := Overwritten(items[0].bytes, data), updated := true)] + items[1..]
    else [items[0]] + Deliver(items[1..], id, data)
  }

  /** What a header at the start of `s` says; id 0 when there is no whole header. */
  function ParseId(h: HeaderFormat, s: seq<byte>): nat {
    if |s| < HeaderLength(h) then 0
    else
      match h
      case HeaderNone | HeaderStatic => 0
      case HeaderShort => ReadBigEndian(s[..3])
      case HeaderFull => ReadBigEndian(s[..4])
  }

  function ParseLength(h: HeaderFormat, s: seq<byte>): nat {
    if |s| < HeaderLength(h) then 0
    else
      match h
      case HeaderNone | HeaderStatic => 0
      case HeaderShort => ReadBigEndian(s[3..4])
      case HeaderFull => ReadBigEndian(s[4..8])
  }

  /** Parse the container from `s` on: up to the first id 0 or the first length that goes past the end. */
  function MapFrom(h: HeaderFormat, s: seq<byte>, items: seq<RxItem>): (r: seq<RxItem>)
    ensures |r| == |items|
    decreases |s|
  {
    var id, length := ParseId(h, s), ParseLength(h, s);
    if id == 0 then items
    else
      var rest := s[HeaderLength(h)..];
      if length > |rest| then items
      else MapFrom(h, rest[length..], Deliver(items, id, rest[..length]))
  }

  // ---------------------------------------------------------------------------------------------
  // Round trip
  // ---------------------------------------------------------------------------------------------

  datatype Frames = Frames(id: nat, bytes: seq<byte>)

  /** The id and the length fit the header. */
  predicate Addressable(h: HeaderFormat, id: nat, length: nat) {
    match h
    case HeaderNone | HeaderStatic => false
    case HeaderShort => 0 < id < 0x100_0000 && length < 0x100
    case HeaderFull => 0 < id < 0x1_0000_0000 && length < 0x8000_0000
  }

  function MappedItems(items: seq<TxItem>, mapped: seq<bool>): seq<Frames>
    requires |mapped| <= |items|
  {
    if mapped == [] then []
    else
      var n := |mapped| - 1;
      MappedItems(items, mapped[..n]) + if mapped[n] then [Frames(items[n].id, items[n].bytes)] else []
  }

  function FrameBytes(h: HeaderFormat, frames: seq<Frames>): seq<byte> {
    if frames == [] then [] else Frame(h, frames[0].id, frames[0].bytes) + FrameBytes(h, frames[1..])
  }

  function DeliverAll(items: seq<RxItem>, frames: seq<Frames>): (r: seq<RxItem>)
    ensures |r| == |items|
    decreases |frames|
  {
    if frames == [] then items else DeliverAll(Deliver(items, frames[0].id, frames[0].bytes), frames[1..])
  }

  lemma {:induction false} FrameBytesAppend(h: HeaderFormat, a: seq<Frames>, b: seq<Frames>)
    ensures FrameBytes(h, a + b) == FrameBytes(h, a) + FrameBytes(h, b)
  {
    if a == [] {
      assert a + b == b;
    } else {
      assert (a + b)[1..] == a[1..] + b;
      FrameBytesAppend(h, a[1..], b);
    }
  }

  lemma {:induction false} PlacedAreFrames(h: HeaderFormat, size: nat, items: seq<TxItem>, n: nat)
    requires n <= |items|
    ensures var p := PlaceFirst(h, size, items, n); p.bytes == FrameBytes(h, MappedItems(items, p.mapped))
  {
    hide Frame, FrameBytes, MappedItems;
    if n == 0 {
      NothingMapped(h, items);
    } else {
      PlacedAreFrames(h, size, items, n - 1);
      var p, before := PlaceFirst(h, size, items, n), PlaceFirst(h, size, items, n - 1);
      assert p.mapped == before.mapped + [p.mapped[n - 1]];
      OneMoreMapped(h, items, before.mapped, p.mapped[n - 1]);
    }
  }

  lemma NothingMapped(h: HeaderFormat, items: seq<TxItem>)
    ensures FrameBytes(h, MappedItems(items, [])) == []
  {
  }

  lemma OneMoreMapped(h: HeaderFormat, items: seq<TxItem>, mapped: seq<bool>, more: bool)
    requires |mapped| < |items|
    ensures var it := items[|mapped|];
            FrameBytes(h, MappedItems(items, mapped + [more])) ==
            FrameBytes(h, MappedItems(items, mapped)) + if more then Frame(h, it.id, it.bytes) else []
  {
    hide Frame;
    var f := Frames(items[|mapped|].id, items[|mapped|].bytes);
    assert (mapped + [more])[..|mapped|] == mapped;
    if more {
      assert MappedItems(items, mapped + [more]) == MappedItems(items, mapped) + [f];
      FrameBytesAppend(h, MappedItems(items, mapped), [f]);
      assert [f][1..] == [] && FrameBytes(h, [f][1..]) == [];
      assert FrameBytes(h, [f]) == Frame(h, f.id, f.bytes);
    } else {
      assert MappedItems(items, mapped + [more]) == MappedItems(items, mapped);
    }
  }

  lemma HeaderParses(h: HeaderFormat, id: nat, length: nat, tail: seq<byte>)
    requires Addressable(h, id, length)
    ensures var s := Header(h, id, length) + tail; ParseId(h, s) == id && ParseLength(h, s) == length
  {
    var s := Header(h, id, length) + tail;
    assert Pow256(3) == 0x100_0000 && Pow256(4) == 0x1_0000_0000 && Pow256(1) == 0x100;
    if h.HeaderShort? {
      assert s[..3] == BigEndian(id, 3) && s[3..4] == BigEndian(length, 1);
      BigEndianRoundTrip(id, 3);
      BigEndianRoundTrip(length, 1);
    } else {
      assert s[..4] == BigEndian(id, 4) && s[4..8] == BigEndian(length, 4);
      BigEndianRoundTrip(id, 4);
      BigEndianRoundTrip(length, 4);
    }
  }

  lemma PaddingEnds(h: HeaderFormat, n: nat, items: seq<RxItem>)
    ensures MapFrom(h, Zeros(n), items) == items
  {
    if HeaderLength(h) <= n {
      if 4 <= n {
        assert Zeros(n)[..3] == Zeros(3) && Zeros(n)[..4] == Zeros(4);
      }
      ReadZeros(3);
      ReadZeros(4);
    }
  }

  /** What the parse sees at the start of a frame. */
  lemma FrameAtHead(h: HeaderFormat, f: Frames, rest: seq<byte>)
    requires Addressable(h, f.id, |f.bytes|)
    ensures var s := Frame(h, f.id, f.bytes) + rest;
            && |s| >= HeaderLength(h)
            && ParseId(h, s) == f.id && ParseLength(h, s) == |f.bytes|
            && s[HeaderLength(h)..] == f.bytes + rest
    ensures (f.bytes + rest)[..|f.bytes|] == f.bytes && (f.bytes + rest)[|f.bytes|..] == rest
  {
    hide ParseId, ParseLength;
    assert CarriedLength(h, |f.bytes|) == |f.bytes|;
    assert Frame(h, f.id, f.bytes) + rest == Header(h, f.id, |f.bytes|) + (f.bytes + rest);
    HeaderParses(h, f.id, |f.bytes|, f.bytes + rest);
  }

  lemma FirstFrame(h: HeaderFormat, frames: seq<Frames>, tail: seq<byte>)
    requires frames != []
    ensures FrameBytes(h, frames) + tail ==
            Frame(h, frames[0].id, frames[0].bytes) + (FrameBytes(h, frames[1..]) + tail)
  {
  }

  lemma NoFrames(h: HeaderFormat, padding: nat)
    ensures FrameBytes(h, []) + Zeros(padding) == Zeros(padding)
  {
  }

  /** Parsing frames followed by zero padding delivers exactly the frames, in order. */
  lemma {:induction false} ParseFrames(h: HeaderFormat, frames: seq<Frames>, padding: nat, items: seq<RxItem>)
    requires forall i :: 0 <= i < |frames| ==> Addressable(h, frames[i].id, |frames[i].bytes|)
    ensures MapFrom(h, FrameBytes(h, frames) + Zeros(padding), items) == DeliverAll(items, frames)
    decreases |frames|
  {
    hide ParseId, ParseLength, Deliver, FrameBytes, Frame;
    if frames == [] {
      NoFrames(h, padding);
      PaddingEnds(h, padding, items);
    } else {
      FirstFrame(h, frames, Zeros(padding));
      FrameAtHead(h, frames[0], FrameBytes(h, frames[1..]) + Zeros(padding));
      ParseFrames(h, frames[1..], padding, Deliver(items, frames[0].id, frames[0].bytes));
    }
  }

  predicate DistinctRx(items: seq<RxItem>) {
    forall i, j :: 0 <= i < j < |items| ==> items[i].id != items[j].id
  }

  predicate DistinctFrames(frames: seq<Frames>) {
    forall i, j :: 0 <= i < j < |frames| ==> frames[i].id != frames[j].id
  }

  function Received(it: RxItem, data: seq<byte>): RxItem {
    it.(bytes := Overwritten(it.bytes, data), updated := true)
  }

  lemma {:induction false} DeliverAt(items: seq<RxItem>, id: nat, data: seq<byte>, j: nat)
    requires DistinctRx(items) && j < |items|
    ensures Deliver(items, id, data)[j] == if items[j].id == id then Received(items[j], data) else items[j]
  {
    if items[0].id != id && j > 0 {
      assert DistinctRx(items[1..]);
      DeliverAt(items[1..], id, data, j - 1);
    }
  }

  lemma {:induction false} DeliverAllAt(items: seq<RxItem>, frames: seq<Frames>, j: nat)
    requires DistinctRx(items) && DistinctFrames(frames) && j < |items|
    ensures forall k :: 0 <= k < |frames| && frames[k].id == items[j].id ==>
              DeliverAll(items, frames)[j] == Received(items[j], frames[k].bytes)
    ensures (forall k :: 0 <= k < |frames| ==> frames[k].id != items[j].id) ==>
              DeliverAll(items, frames)[j] == items[j]
    decreases |frames|
  {
    if frames != [] {
      var next := Deliver(items, frames[0].id, frames[0].bytes);
      DeliverKeepsIds(items, frames[0].id, frames[0].bytes);
      DeliverAt(items, frames[0].id, frames[0].bytes, j);
      assert forall k :: 0 <= k < |frames[1..]| ==> frames[1..][k] == frames[k + 1];
      DeliverAllAt(next, frames[1..], j);
    }
  }

  lemma DeliverKeepsIds(items: seq<RxItem>, id: nat, data: seq<byte>)
    requires DistinctRx(items)
    ensures forall j :: 0 <= j < |items| ==> Deliver(items, id, data)[j].id == items[j].id
    ensures DistinctRx(Deliver(items, id, data))
  {
    forall j | 0 <= j < |items| ensures Deliver(items, id, data)[j].id == items[j].id {
      DeliverAt(items, id, data, j);
    }
  }

  predicate IsMapped(items: seq<TxItem>, mapped: seq<bool>, f: Frames)
    requires |mapped| <= |items|
  {
    exists i :: 0 <= i < |mapped| && mapped[i] && f == Frames(items[i].id, items[i].bytes)
  }

  /** What the mapped list holds: the mapped I-PDUs, and nothing else. */
  lemma {:induction false} MappedItemsAre(items: seq<TxItem>, mapped: seq<bool>)
    requires |mapped| <= |items|
    requires forall i, j :: 0 <= i < j < |items| ==> items[i].id != items[j].id
    ensures var frames := MappedItems(items, mapped);
            && DistinctFrames(frames)
            && (forall k :: 0 <= k < |frames| ==> IsMapped(items, mapped, frames[k]))
            && (forall i :: 0 <= i < |mapped| && mapped[i] ==> Frames(items[i].id, items[i].bytes) in frames)
  {
    if mapped != [] {
      var n := |mapped| - 1;
      var before := MappedItems(items, mapped[..n]);
      MappedItemsAre(items, mapped[..n]);
      var frames := MappedItems(items, mapped);
      forall k | 0 <= k < |frames| ensures IsMapped(items, mapped, frames[k]) {
        if k < |before| {
          assert IsMapped(items, mapped[..n], before[k]);
          var i :| 0 <= i < n && mapped[..n][i] && before[k] == Frames(items[i].id, items[i].bytes);
          assert mapped[i] && frames[k] == before[k];
        } else {
          assert mapped[n];
        }
      }
      forall i | 0 <= i < |mapped| && mapped[i] ensures Frames(items[i].id, items[i].bytes) in frames {
        if i < n { assert mapped[..n][i]; }
      }
    }
  }

  /**
   Round trip. What the receiver reads out of the container that the sender has built: every I-PDU
   that was placed is marked and takes the sent bytes, and no other I-PDU changes.
   */
  lemma ContainerRoundTrip(h: HeaderFormat, size: nat, items: seq<TxItem>, rx: seq<RxItem>, j: nat)
    requires forall i, k :: 0 <= i < k < |items| ==> items[i].id != items[k].id
    requires forall i :: 0 <= i < |items| && items[i].needsTx ==> Addressable(h, items[i].id, |items[i].bytes|)
    requires DistinctRx(rx) && j < |rx|
    ensures var mapped := PlaceAll(h, size, items).mapped;
            var result := MapFrom(h, ContainerBytes(h, size, items), rx)[j];
            && (forall i :: 0 <= i < |items| && mapped[i] && items[i].id == rx[j].id ==>
                  result == Received(rx[j], items[i].bytes)
                  && (|rx[j].bytes| == |items[i].bytes| ==> result.bytes == items[i].bytes))
            && ((forall i :: 0 <= i < |items| && mapped[i] ==> items[i].id != rx[j].id) ==> result == rx[j])
  {
    hide MapFrom, DeliverAll, PlaceFirst, MappedItems, FrameBytes;
    var placed := PlaceAll(h, size, items);
    var frames := MappedItems(items, placed.mapped);
    PlacedAreFrames(h, size, items, |items|);
    MappedItemsAre(items, placed.mapped);
    PlacedWerePending(h, size, items, |items|);
    ParseFrames(h, frames, size - |placed.bytes|, rx);
    DeliverAllAt(rx, frames, j);
    forall i | 0 <= i < |items| && placed.mapped[i] && items[i].id == rx[j].id
      ensures MapFrom(h, ContainerBytes(h, size, items), rx)[j] == Received(rx[j], items[i].bytes)
    {
      var k :| 0 <= k < |frames| && frames[k] == Frames(items[i].id, items[i].bytes);
    }
  }

  lemma {:induction false} PlacedWerePending(h: HeaderFormat, size: nat, items: seq<TxItem>, n: nat)
    requires n <= |items|
    ensures forall i :: 0 <= i < n && PlaceFirst(h, size, items, n).mapped[i] ==> items[i].needsTx
  {
    if n > 0 { PlacedWerePending(h, size, items, n - 1); }
  }

  // ---------------------------------------------------------------------------------------------
  // Lengths that C reads as negative
  // ---------------------------------------------------------------------------------------------

  /** A full header's length field is assembled in a 32-bit int and widened to 64 bits with its sign. */
  function Widened(field: nat): nat {
    if field < 0x8000_0000 then field else field + 0xFFFF_FFFF_0000_0000
  }

  /** Where the parse of a payload of `size` bytes goes on after a frame at `offset`, if the frame is accepted. */
  function NextOffset(h: HeaderFormat, size: nat, offset: nat, field: nat): Option<nat> {
    var next := (offset + HeaderLength(h) + Widened(field)) % 0x1_0000_0000_0000_0000;
    if next > size then None else Some(next)
  }

  /**
   An accepted frame moves the parse forward exactly if its length field is below 2^31 or within 8 of
   2^32; with 2^32 - 8 the parse reads the same frame for ever. A one byte field always moves forward.
   */
  lemma ParseMovesOn(h: HeaderFormat, size: nat, offset: nat, field: nat)
    requires (h.HeaderShort? && field < 0x100) || (h.HeaderFull? && field < 0x1_0000_0000)
    requires offset <= size < 0x8000_0000 && NextOffset(h, size, offset, field).Some?
    ensures offset < NextOffset(h, size, offset, field).value <==> field < 0x8000_0000 || field > 0x1_0000_0000 - 8
    ensures field == 0x1_0000_0000 - 8 ==> NextOffset(h, size, offset, field).value == offset
    ensures field < 0x8000_0000 ==> NextOffset(h, size, offset, field).value == offset + HeaderLength(h) + field
  {
    var next := offset + HeaderLength(h) + Widened(field);
    if field < 0x8000_0000 {
      assert next < 0x1_0000_0000_0000_0000;
    } else if next >= 0x1_0000_0000_0000_0000 {
      assert next - 0x1_0000_0000_0000_0000 == offset + 8 + field - 0x1_0000_0000;
      assert next % 0x1_0000_0000_0000_0000 == next - 0x1_0000_0000_0000_0000;
    }
  }

  /** Every length field that the parse meets is below 2^31. */
  predicate SmallLengths(h: HeaderFormat, s: seq<byte>)
    decreases |s|
  {
    var length := ParseLength(h, s);
    ParseId(h, s) == 0 || (
      && length < 0x8000_0000
      && var rest := s[HeaderLength(h)..];
         (length <= |rest| ==> SmallLengths(h, rest[length..])))
  }

  /** The first I-PDU with the id, if any, takes at most `room` bytes. */
  predicate TakesAtMost(items: seq<RxItem>, id: nat, room: nat) {
    items != [] ==>
      if items[0].id == id then |items[0].bytes| <= room else TakesAtMost(items[1..], id, room)
  }

  /** The bytes behind a header, up to the length that it claims or the end of the payload. */
  function DataAt(s: seq<byte>, body: nat, length: nat): seq<byte>
    requires body <= |s|
  {
    s[body..body + Min(length, |s| - body)]
  }

  /**
   The parse from `offset` on ends within `n` frames and reads nothing behind the payload: what the
   code needs of a payload, with the lengths as it widens them.
   */
  predicate Parses(h: HeaderFormat, s: seq<byte>, offset: nat, items: seq<RxItem>, n: nat)
    requires offset <= |s|
    decreases n
  {
    var id, field := ParseId(h, s[offset..]), ParseLength(h, s[offset..]);
    id == 0 || NextOffset(h, |s|, offset, field).None? || (
      && n > 0
      && var body, length := offset + HeaderLength(h), Widened(field);
         && (length <= |s| - body || TakesAtMost(items, id, |s| - body))
         && Parses(h, s, NextOffset(h, |s|, offset, field).value, Deliver(items, id, DataAt(s, body, length)), n - 1))
  }

  /** What it delivers. */
  function Parsed(h: HeaderFormat, s: seq<byte>, offset: nat, items: seq<RxItem>, n: nat): seq<RxItem>
    requires offset <= |s| && Parses(h, s, offset, items, n)
    decreases n
  {
    var id, field := ParseId(h, s[offset..]), ParseLength(h, s[offset..]);
    if id == 0 || NextOffset(h, |s|, offset, field).None? then items
    else
      var data := DataAt(s, offset + HeaderLength(h), Widened(field));
      Parsed(h, s, NextOffset(h, |s|, offset, field).value, Deliver(items, id, data), n - 1)
  }

  /** With lengths below 2^31 the parse ends within the payload and is the plain one. */
  lemma {:induction false} SmallIsParsed(h: HeaderFormat, s: seq<byte>, offset: nat, items: seq<RxItem>, n: nat)
    requires offset <= |s| < 0x8000_0000 && SmallLengths(h, s[offset..]) && |s| - offset <= n
    ensures Parses(h, s, offset, items, n)
    ensures Parsed(h, s, offset, items, n) == MapFrom(h, s[offset..], items)
    decreases n
  {
    hide Deliver, ParseId, ParseLength, MapFrom, SmallLengths, NextOffset, Widened, TakesAtMost;
    SmallStep(h, s, offset, items);
    var id, length := ParseId(h, s[offset..]), ParseLength(h, s[offset..]);
    var body := offset + HeaderLength(h);
    if id != 0 && body + length <= |s| {
      SmallIsParsed(h, s, body + length, Deliver(items, id, s[body..body + length]), n - 1);
    }
  }

  /** One frame of the plain parse, at an offset. */
  lemma SmallStep(h: HeaderFormat, s: seq<byte>, offset: nat, items: seq<RxItem>)
    requires offset <= |s| < 0x8000_0000 && SmallLengths(h, s[offset..])
    ensures var id, length := ParseId(h, s[offset..]), ParseLength(h, s[offset..]);
            var body := offset + HeaderLength(h);
            && (id == 0 ==> MapFrom(h, s[offset..], items) == items)
            && (id != 0 ==>
                  && offset < body <= |s| && length < 0x8000_0000 && Widened(length) == length
                  && NextOffset(h, |s|, offset, length) == (if body + length > |s| then None else Some(body + length))
                  && (body + length > |s| ==> MapFrom(h, s[offset..], items) == items)
                  && (body + length <= |s| ==>
                        && SmallLengths(h, s[body + length..])
                        && MapFrom(h, s[offset..], items) ==
                           MapFrom(h, s[body + length..], Deliver(items, id, s[body..body + length]))))
  {
    hide Deliver, ParseId, ParseLength, MapFrom, SmallLengths, NextOffset, Widened;
    var t := s[offset..];
    TailStep(h, t, items);
    var id, length := ParseId(h, t), ParseLength(h, t);
    var body := offset + HeaderLength(h);
    if id != 0 {
      SmallNext(h, |s|, offset, length);
      assert t[HeaderLength(h)..] == s[body..];
      if body + length <= |s| {
        assert s[body..][length..] == s[body + length..] && s[body..][..length] == s[body..body + length];
      }
    }
  }

  lemma SmallNext(h: HeaderFormat, size: nat, offset: nat, field: nat)
    requires size < 0x8000_0000 && field < 0x8000_0000 && offset + HeaderLength(h) <= size
    ensures Widened(field) == field
    ensures var next := offset + HeaderLength(h) + field;
            NextOffset(h, size, offset, field) == if next > size then None else Some(next)
  {
  }

  lemma TailStep(h: HeaderFormat, t: seq<byte>, items: seq<RxItem>)
    requires SmallLengths(h, t)
    ensures var id, length := ParseId(h, t), ParseLength(h, t);
            && (id == 0 ==> MapFrom(h, t, items) == items)
            && (id != 0 ==>
                  && 0 < HeaderLength(h) <= |t| && length < 0x8000_0000
                  && var rest := t[HeaderLength(h)..];
                     if length > |rest| then MapFrom(h, t, items) == items
                     else SmallLengths(h, rest[length..])
                          && MapFrom(h, t, items) == MapFrom(h, rest[length..], Deliver(items, id, rest[..length])))
  {
    hide Deliver, ReadBigEndian;
  }

  /** A frame whose length field is 2^32 - 8 is read again and again. */
  lemma {:induction false} StuckForEver(s: seq<byte>, offset: nat, items: seq<RxItem>, n: nat)
    requires offset <= |s| < 0x8000_0000
    requires ParseId(HeaderFull, s[offset..]) != 0 && ParseLength(HeaderFull, s[offset..]) == 0x1_0000_0000 - 8
    ensures !Parses(HeaderFull, s, offset, items, n)
    decreases n
  {
    ParseMovesOn(HeaderFull, |s|, offset, 0x1_0000_0000 - 8);
    if n > 0 {
      var data := DataAt(s, offset + 8, Widened(0x1_0000_0000 - 8));
      StuckForEver(s, offset, Deliver(items, ParseId(HeaderFull, s[offset..]), data), n - 1);
    }
  }

  /** An id, and the length field that leads back to the start of its own header. */
  function StuckPayload(size: nat): (s: seq<byte>)
    requires 8 <= size
    ensures |s| == size
  {
    BigEndian(1, 4) + BigEndian(0x1_0000_0000 - 8, 4) + Zeros(size - 8)
  }

  lemma StuckPayloadReads(size: nat)
    requires 8 <= size
    ensures ParseId(HeaderFull, StuckPayload(size)) == 1
    ensures ParseLength(HeaderFull, StuckPayload(size)) == 0x1_0000_0000 - 8
  {
    var s := StuckPayload(size);
    assert Pow256(2) == 0x1_0000 && Pow256(4) == 0x1_0000_0000;
    assert s[..4] == BigEndian(1, 4) && s[4..8] == BigEndian(0x1_0000_0000 - 8, 4);
    BigEndianRoundTrip(1, 4);
    BigEndianRoundTrip(0x1_0000_0000 - 8, 4);
  }

  /** Some bound on the frames makes the parse of `s` end. */
  ghost predicate Ends(h: HeaderFormat, s: seq<byte>) {
    exists n: nat :: Parses(h, s, 0, [], n)
  }

  /**
   The parse of a container with full headers ends for every content exactly if the payload is too
   small for a header.
   */
  lemma FullEndsIff(size: nat)
    requires size < 0x8000_0000
    ensures (forall s: seq<byte> :: |s| == size ==> Ends(HeaderFull, s)) <==> size < 8
  {
    if size < 8 {
      forall s: seq<byte> | |s| == size ensures Ends(HeaderFull, s) {
        assert Parses(HeaderFull, s, 0, [], 0);
      }
    } else {
      var s := StuckPayload(size);
      assert s[0..] == s;
      StuckPayloadReads(size);
      forall n: nat ensures !Parses(HeaderFull, s, 0, [], n) {
        StuckForEver(s, 0, [], n);
      }
      assert !Ends(HeaderFull, s);
    }
  }

  /** With short headers it always ends. */
  lemma ShortEnds(s: seq<byte>)
    requires |s| < 0x8000_0000
    ensures Ends(HeaderShort, s)
  {
    assert s[0..] == s;
    ShortIsSmall(s);
    SmallIsParsed(HeaderShort, s, 0, [], |s|);
  }

  lemma {:induction false} ShortIsSmall(s: seq<byte>)
    ensures SmallLengths(HeaderShort, s)
    decreases |s|
  {
    var length := ParseLength(HeaderShort, s);
    if ParseId(HeaderShort, s) != 0 {
      assert ReadBigEndian(s[3..4][..0]) == 0;
      if length <= |s| - 4 { ShortIsSmall(s[4..][length..]); }
    }
  }

  /** The containers built by a sender never meet the widening. */
  lemma {:induction false} FramesAreSmall(h: HeaderFormat, frames: seq<Frames>, padding: nat)
    requires forall i :: 0 <= i < |frames| ==> Addressable(h, frames[i].id, |frames[i].bytes|)
    ensures SmallLengths(h, FrameBytes(h, frames) + Zeros(padding))
    decreases |frames|
  {
    hide ParseId, ParseLength, FrameBytes, Frame;
    if frames == [] {
      NoFrames(h, padding);
      ZerosAreSmall(h, padding);
    } else {
      FirstFrame(h, frames, Zeros(padding));
      FrameAtHead(h, frames[0], FrameBytes(h, frames[1..]) + Zeros(padding));
      FramesAreSmall(h, frames[1..], padding);
    }
  }

  lemma ZerosAreSmall(h: HeaderFormat, n: nat)
    ensures SmallLengths(h, Zeros(n))
  {
    if 4 <= n {
      assert Zeros(n)[..3] == Zeros(3) && Zeros(n)[..4] == Zeros(4);
    }
    ReadZeros(3);
    ReadZeros(4);
  }

  // ---------------------------------------------------------------------------------------------
  // Delay
  // ---------------------------------------------------------------------------------------------

  /** The room that the I-PDUs placed among the first `n` take. */
  function RoomTaken(h: HeaderFormat, items: seq<TxItem>, mapped: seq<bool>, n: nat): nat
    requires n <= |items| && n <= |mapped|
  {
    if n == 0 then 0
    else
      var room := if mapped[n - 1] then HeaderLength(h) + CarriedLength(h, |items[n - 1].bytes|) else 0;
      RoomTaken(h, items, mapped, n - 1) + room
  }

  /**
   An I-PDU is placed exactly if it is pending and finds room after the placed I-PDUs in front of it;
   so a pending I-PDU waits only for lack of that room.
   */
  lemma {:induction false} PlacedIff(h: HeaderFormat, size: nat, items: seq<TxItem>, i: nat, n: nat)
    requires i < n <= |items|
    ensures var mapped := PlaceFirst(h, size, items, n).mapped;
            mapped[i] == (items[i].needsTx &&
                          RoomTaken(h, items, mapped, i) + HeaderLength(h) + |items[i].bytes| <= size)
    decreases n
  {
    hide RoomTaken, Frame;
    var mapped, before := PlaceFirst(h, size, items, n).mapped, PlaceFirst(h, size, items, n - 1).mapped;
    assert mapped[..n - 1] == before;
    assert mapped[..i] == before[..i];
    RoomTakenPrefix(h, items, mapped, before, i);
    if i < n - 1 {
      PlacedIff(h, size, items, i, n - 1);
    } else {
      RoomIsTaken(h, size, items, i);
    }
  }

  /** An I-PDU that waits is overtaken only by shorter ones. */
  lemma Overtaking(h: HeaderFormat, size: nat, items: seq<TxItem>, i: nat, k: nat)
    requires i < k < |items| && items[i].needsTx
    requires var mapped := PlaceAll(h, size, items).mapped; !mapped[i] && mapped[k]
    ensures |items[k].bytes| < |items[i].bytes|
  {
    hide PlaceFirst;
    PlacedIff(h, size, items, i, |items|);
    PlacedIff(h, size, items, k, |items|);
    RoomGrows(h, items, PlaceAll(h, size, items).mapped, i, k);
  }

  lemma {:induction false} RoomGrows(h: HeaderFormat, items: seq<TxItem>, mapped: seq<bool>, i: nat, k: nat)
    requires i <= k <= |items| && k <= |mapped|
    ensures RoomTaken(h, items, mapped, i) <= RoomTaken(h, items, mapped, k)
  {
    if i < k { RoomGrows(h, items, mapped, i, k - 1); }
  }

  lemma {:induction false} RoomIsTaken(h: HeaderFormat, size: nat, items: seq<TxItem>, n: nat)
    requires n <= |items|
    ensures var p := PlaceFirst(h, size, items, n); RoomTaken(h, items, p.mapped, n) == |p.bytes|
  {
    hide RoomTaken, Frame, CarriedLength, HeaderLength;
    if n == 0 {
      NoRoomTaken(h, items, []);
    } else {
      var p, before := PlaceFirst(h, size, items, n), PlaceFirst(h, size, items, n - 1);
      assert p.mapped[..n - 1] == before.mapped[..n - 1];
      RoomTakenPrefix(h, items, p.mapped, before.mapped, n - 1);
      RoomIsTaken(h, size, items, n - 1);
      FrameLength(h, items[n - 1].id, items[n - 1].bytes);
      NextRoomTaken(h, items, p.mapped, n);
    }
  }

  lemma NoRoomTaken(h: HeaderFormat, items: seq<TxItem>, mapped: seq<bool>)
    ensures RoomTaken(h, items, mapped, 0) == 0
  {
  }

  lemma NextRoomTaken(h: HeaderFormat, items: seq<TxItem>, mapped: seq<bool>, n: nat)
    requires 0 < n <= |items| && n <= |mapped|
    ensures RoomTaken(h, items, mapped, n) == RoomTaken(h, items, mapped, n - 1) +
              if mapped[n - 1] then HeaderLength(h) + CarriedLength(h, |items[n - 1].bytes|) else 0
  {
  }

  lemma FrameLength(h: HeaderFormat, id: nat, bytes: seq<byte>)
    ensures |Frame(h, id, bytes)| == HeaderLength(h) + CarriedLength(h, |bytes|)
  {
    CarriedIsLess(h, |bytes|);
  }

  lemma CarriedIsLess(h: HeaderFormat, length: nat)
    ensures CarriedLength(h, length) <= length
  {
  }

  lemma {:induction false} RoomTakenPrefix(h: HeaderFormat, items: seq<TxItem>, a: seq<bool>, b: seq<bool>, n: nat)
    requires n <= |items| && n <= |a| && n <= |b| && a[..n] == b[..n]
    ensures RoomTaken(h, items, a, n) == RoomTaken(h, items, b, n)
  {
    if n > 0 {
      assert a[..n][n - 1] == b[..n][n - 1];
      assert a[..n - 1] == a[..n][..n - 1];
      RoomTakenPrefix(h, items, a, b, n - 1);
    }
  }

  lemma StaticIsNotParsed(s: seq<byte>, items: seq<RxItem>)
    ensures MapFrom(HeaderStatic, s, items) == items
  {
  }

  /** The I-PDU is among those that the sender has placed, and will not send again. */
  predicate IsPlaced(items: seq<TxItem>, mapped: seq<bool>, id: nat)
    requires |mapped| <= |items|
  {
    exists i :: 0 <= i < |mapped| && mapped[i] && items[i].id == id
  }

  /**
   The receiver learns of an I-PDU exactly if the sender placed it and the container has headers: a
   static one carries no ids, so what is placed in it counts as sent and is never read.
   */
  lemma MarkedIff(h: HeaderFormat, size: nat, items: seq<TxItem>, rx: seq<RxItem>, j: nat)
    requires !h.HeaderNone? && forall i, k :: 0 <= i < k < |items| ==> items[i].id != items[k].id
    requires forall i :: 0 <= i < |items| && items[i].needsTx ==>
               h.HeaderStatic? || Addressable(h, items[i].id, |items[i].bytes|)
    requires DistinctRx(rx) && j < |rx| && !rx[j].updated
    ensures MapFrom(h, ContainerBytes(h, size, items), rx)[j].updated <==>
            !h.HeaderStatic? && IsPlaced(items, PlaceAll(h, size, items).mapped, rx[j].id)
  {
    hide MapFrom, PlaceFirst, ContainerBytes;
    if h.HeaderStatic? {
      StaticIsNotParsed(ContainerBytes(h, size, items), rx);
    } else {
      ContainerRoundTrip(h, size, items, rx, j);
    }
  }

  // ---------------------------------------------------------------------------------------------
  // Runs of transmission steps
  // ---------------------------------------------------------------------------------------------

  /** An I-PDU together with the payload it last had in a sent container (initially its first payload). */
  datatype Member = Member(item: TxItem, sent: seq<byte>)

  /** What a step brings: new payloads, forced transmissions of periodic I-PDUs, and whether the container is due. */
  datatype StepInput = StepInput(payloads: seq<seq<byte>>, forced: seq<bool>, due: bool)

  predicate InputFor(x: StepInput, n: nat) {
    |x.payloads| == |x.forced| == n
  }

  /** The schedule may reset the checksum, then the payload is packed, then the flag is computed. */
  function Prepared(hash: seq<byte> -> nat, it: TxItem, payload: seq<byte>, forced: bool): TxItem {
    var checksum := if forced then 0 else it.checksum;
    TxItem(it.id, payload, hash(payload) != checksum, checksum)
  }

  function PreparedItems(hash: seq<byte> -> nat, ms: seq<Member>, x: StepInput): (r: seq<TxItem>)
    requires InputFor(x, |ms|)
    ensures |r| == |ms|
  {
    seq(|ms|, i requires 0 <= i < |ms| => Prepared(hash, ms[i].item, x.payloads[i], x.forced[i]))
  }

  function TxStep(h: HeaderFormat, size: nat, hash: seq<byte> -> nat, ms: seq<Member>, x: StepInput): (r: seq<Member>)
    requires InputFor(x, |ms|)
    ensures |r| == |ms|
  {
    var items := PreparedItems(hash, ms, x);
    var mapped := PlaceAll(h, size, items).mapped;
    seq(|ms|, i requires 0 <= i < |ms| =>
      if !x.due then Member(items[i], ms[i].sent)
      else Member(ItemAfter(hash, items[i], mapped[i]), if mapped[i] then items[i].bytes else ms[i].sent))
  }

  function TxRun(h: HeaderFormat, size: nat, hash: seq<byte> -> nat, ms: seq<Member>, run: seq<StepInput>)
    : (r: seq<Member>)
    requires forall k :: 0 <= k < |run| ==> InputFor(run[k], |ms|)
    ensures |r| == |ms|
  {
    if run == [] then ms else TxStep(h, size, hash, TxRun(h, size, hash, ms, run[..|run| - 1]), run[|run| - 1])
  }

  /** A checksum is either forced or that of the payload last sent. */
  predicate ChecksumsTell(hash: seq<byte> -> nat, ms: seq<Member>) {
    forall i :: 0 <= i < |ms| ==> ms[i].item.checksum == 0 || ms[i].item.checksum == hash(ms[i].sent)
  }

  lemma TxStepTells(h: HeaderFormat, size: nat, hash: seq<byte> -> nat, ms: seq<Member>, x: StepInput)
    requires InputFor(x, |ms|) && ChecksumsTell(hash, ms)
    ensures ChecksumsTell(hash, TxStep(h, size, hash, ms, x))
  {
    PlacedWerePending(h, size, PreparedItems(hash, ms, x), |ms|);
  }

  /** The payload would be raised for transmission in the next step. */
  predicate Stale(hash: seq<byte> -> nat, m: Member) {
    hash(m.item.bytes) != m.item.checksum
  }

  /**
   No update is lost. After any run, an I-PDU is either raised again in the next step, or its payload
   hashes like the payload it last had in a sent container. This needs the payload's own hash to
   differ from the sentinel 0.
   */
  lemma {:induction false} NoLostUpdate(
      h: HeaderFormat, size: nat, hash: seq<byte> -> nat, ms: seq<Member>, run: seq<StepInput>)
    requires forall k :: 0 <= k < |run| ==> InputFor(run[k], |ms|)
    requires ChecksumsTell(hash, ms)
    ensures ChecksumsTell(hash, TxRun(h, size, hash, ms, run))
    ensures forall i :: 0 <= i < |ms| ==>
              var m := TxRun(h, size, hash, ms, run)[i];
              hash(m.item.bytes) != 0 ==> Stale(hash, m) || hash(m.item.bytes) == hash(m.sent)
  {
    if run != [] {
      var init := run[..|run| - 1];
      NoLostUpdate(h, size, hash, ms, init);
      TxStepTells(h, size, hash, TxRun(h, size, hash, ms, init), run[|run| - 1]);
    }
  }

  /** An I-PDU that had to wait is raised in the next step exactly if its payload does not hash to the sentinel. */
  lemma DelayedIsRaised(hash: seq<byte> -> nat, it: TxItem)
    requires it.needsTx
    ensures var waiting := ItemAfter(hash, it, false);
            Prepared(hash, waiting, waiting.bytes, false).needsTx <==> hash(it.bytes) != 0
  {
  }

  // ---------------------------------------------------------------------------------------------
  // Everything is sent in the end
  // ---------------------------------------------------------------------------------------------

  function CountStale(hash: seq<byte> -> nat, ms: seq<Member>): nat {
    if ms == [] then 0 else CountStale(hash, ms[..|ms| - 1]) + if Stale(hash, ms[|ms| - 1]) then 1 else 0
  }

  lemma {:induction false} FewerStale(hash: seq<byte> -> nat, a: seq<Member>, b: seq<Member>, k: nat)
    requires |a| == |b| && k < |a|
    requires forall i :: 0 <= i < |a| && Stale(hash, b[i]) ==> Stale(hash, a[i])
    requires Stale(hash, a[k]) && !Stale(hash, b[k])
    ensures CountStale(hash, b) < CountStale(hash, a)
  {
    var n := |a| - 1;
    if k == n {
      NoMoreStale(hash, a[..n], b[..n]);
    } else {
      FewerStale(hash, a[..n], b[..n], k);
    }
  }

  lemma {:induction false} NoMoreStale(hash: seq<byte> -> nat, a: seq<Member>, b: seq<Member>)
    requires |a| == |b|
    requires forall i :: 0 <= i < |a| && Stale(hash, b[i]) ==> Stale(hash, a[i])
    ensures CountStale(hash, b) <= CountStale(hash, a)
  {
    if a != [] {
      var n := |a| - 1;
      NoMoreStale(hash, a[..n], b[..n]);
    }
  }

  /** The input of a due step in which nothing changes. */
  function Idle(ms: seq<Member>): (r: StepInput)
    ensures InputFor(r, |ms|)
  {
    StepInput(seq(|ms|, i requires 0 <= i < |ms| => ms[i].item.bytes), seq(|ms|, _ => false), true)
  }

  /** Every I-PDU fits an empty container, and no payload hashes to the sentinel. */
  predicate Sendable(h: HeaderFormat, size: nat, hash: seq<byte> -> nat, ms: seq<Member>) {
    forall i :: 0 <= i < |ms| ==> Fits(h, size, 0, |ms[i].item.bytes|) && hash(ms[i].item.bytes) != 0
  }

  lemma {:induction false} FirstPending(hash: seq<byte> -> nat, ms: seq<Member>) returns (k: nat)
    requires CountStale(hash, ms) > 0
    ensures k < |ms| && Stale(hash, ms[k]) && forall i :: 0 <= i < k ==> !Stale(hash, ms[i])
  {
    k := 0;
    if !Stale(hash, ms[0]) {
      StaleTail(hash, ms);
      var rest := FirstPending(hash, ms[1..]);
      k := rest + 1;
    }
  }

  lemma {:induction false} StaleTail(hash: seq<byte> -> nat, ms: seq<Member>)
    requires ms != []
    ensures CountStale(hash, ms) == CountStale(hash, ms[1..]) + if Stale(hash, ms[0]) then 1 else 0
  {
    if |ms| > 1 {
      StaleTail(hash, ms[..|ms| - 1]);
      assert ms[..|ms| - 1][1..] == ms[1..][..|ms| - 2];
    }
  }

  lemma {:induction false} NothingPlacedBefore(h: HeaderFormat, size: nat, items: seq<TxItem>, k: nat, n: nat)
    requires k < n <= |items| && items[k].needsTx && Fits(h, size, 0, |items[k].bytes|)
    requires forall i :: 0 <= i < k ==> !items[i].needsTx
    ensures PlaceFirst(h, size, items, k).bytes == []
    ensures PlaceFirst(h, size, items, n).mapped[k]
    decreases n
  {
    EmptySoFar(h, size, items, k);
    if n > k + 1 {
      NothingPlacedBefore(h, size, items, k, n - 1);
    }
  }

  lemma {:induction false} EmptySoFar(h: HeaderFormat, size: nat, items: seq<TxItem>, n: nat)
    requires n <= |items| && forall i :: 0 <= i < n ==> !items[i].needsTx
    ensures PlaceFirst(h, size, items, n).bytes == []
  {
    if n > 0 { EmptySoFar(h, size, items, n - 1); }
  }

  /** Each due step sends at least the first stale I-PDU and makes none stale. */
  lemma IdleStepProgress(h: HeaderFormat, size: nat, hash: seq<byte> -> nat, ms: seq<Member>)
    requires Sendable(h, size, hash, ms) && CountStale(hash, ms) > 0
    ensures CountStale(hash, TxStep(h, size, hash, ms, Idle(ms))) < CountStale(hash, ms)
  {
    var k := FirstPending(hash, ms);
    var x := Idle(ms);
    var items := PreparedItems(hash, ms, x);
    assert forall i :: 0 <= i < |ms| ==> items[i].needsTx == Stale(hash, ms[i]);
    NothingPlacedBefore(h, size, items, k, |ms|);
    FewerStale(hash, ms, TxStep(h, size, hash, ms, x), k);
  }

  function IdleSteps(h: HeaderFormat, size: nat, hash: seq<byte> -> nat, ms: seq<Member>, n: nat): (r: seq<Member>)
    ensures |r| == |ms|
    decreases n
  {
    if n == 0 then ms else IdleSteps(h, size, hash, TxStep(h, size, hash, ms, Idle(ms)), n - 1)
  }

  /** An idle step keeps the payloads, and does not make anything stale. */
  lemma IdleStep(h: HeaderFormat, size: nat, hash: seq<byte> -> nat, ms: seq<Member>)
    requires Sendable(h, size, hash, ms) && ChecksumsTell(hash, ms)
    ensures var next := TxStep(h, size, hash, ms, Idle(ms));
            && (forall i :: 0 <= i < |ms| ==> next[i].item.bytes == ms[i].item.bytes)
            && Sendable(h, size, hash, next) && ChecksumsTell(hash, next)
            && (CountStale(hash, next) == 0 || CountStale(hash, next) < CountStale(hash, ms))
  {
    var next := TxStep(h, size, hash, ms, Idle(ms));
    TxStepTells(h, size, hash, ms, Idle(ms));
    if CountStale(hash, ms) > 0 {
      IdleStepProgress(h, size, hash, ms);
    } else {
      NoneStale(hash, ms);
      PlacedWerePending(h, size, PreparedItems(hash, ms, Idle(ms)), |ms|);
      NoMoreStale(hash, ms, next);
    }
  }

  /**
   Nothing waits for ever: if the payloads stay as they are, after as many due steps as there are
   stale I-PDUs every I-PDU has been sent.
   */
  lemma {:induction false} AllSentInTheEnd(h: HeaderFormat, size: nat, hash: seq<byte> -> nat, ms: seq<Member>, n: nat)
    requires Sendable(h, size, hash, ms) && ChecksumsTell(hash, ms) && CountStale(hash, ms) <= n
    ensures forall i :: 0 <= i < |ms| ==>
              var m := IdleSteps(h, size, hash, ms, n)[i];
              !Stale(hash, m) && m.item.bytes == ms[i].item.bytes && hash(m.item.bytes) == hash(m.sent)
    decreases n
  {
    hide TxStep;
    if n == 0 {
      NoneStale(hash, ms);
    } else {
      IdleStep(h, size, hash, ms);
      AllSentInTheEnd(h, size, hash, TxStep(h, size, hash, ms, Idle(ms)), n - 1);
    }
  }

  lemma {:induction false} NoneStale(hash: seq<byte> -> nat, ms: seq<Member>)
    requires CountStale(hash, ms) == 0
    ensures forall i :: 0 <= i < |ms| ==> !Stale(hash, ms[i])
  {
    if ms != [] {
      NoneStale(hash, ms[..|ms| - 1]);
      forall i | 0 <= i < |ms| ensures !Stale(hash, ms[i]) {
        if i < |ms| - 1 { assert ms[..|ms| - 1][i] == ms[i]; }
      }
    }
  }

  // ---------------------------------------------------------------------------------------------
  // The sentinel
  // ---------------------------------------------------------------------------------------------

  /** As long as the payloads stay as they are, an I-PDU that is not stale is not sent. */
  lemma {:induction false} NotStaleIsNotSent(
      h: HeaderFormat, size: nat, hash: seq<byte> -> nat, ms: seq<Member>, n: nat, i: nat)
    requires i < |ms| && !Stale(hash, ms[i])
    ensures var m := IdleSteps(h, size, hash, ms, n)[i]; m.sent == ms[i].sent && !Stale(hash, m)
    decreases n
  {
    hide PlaceFirst;
    if n > 0 {
      PlacedWerePending(h, size, PreparedItems(hash, ms, Idle(ms)), |ms|);
      NotStaleIsNotSent(h, size, hash, TxStep(h, size, hash, ms, Idle(ms)), n - 1, i);
    }
  }

  /** A payload that hashes to the sentinel, and whose update does not find room, is never sent. */
  ghost predicate IsLost(size: nat, hash: seq<byte> -> nat, ms: seq<Member>, x: StepInput, i: nat)
    requires InputFor(x, |ms|) && i < |ms|
  {
    forall n: nat ::
      var m := IdleSteps(HeaderShort, size, hash, TxStep(HeaderShort, size, hash, ms, x), n)[i];
      m.sent == ms[i].sent && hash(m.sent) != hash(x.payloads[i])
  }

  /**
   With a payload that hashes to the sentinel a delayed update is lost: two I-PDUs that each fit the
   empty container are updated at once, the second has to wait, and no later step sends it.
   */
  lemma SentinelLosesUpdate()
    ensures exists size: nat, hash: seq<byte> -> nat, ms: seq<Member>, x: StepInput ::
              && |ms| == 2 && InputFor(x, 2) && x.due && ChecksumsTell(hash, ms)
              && (forall i :: 0 <= i < 2 ==> Fits(HeaderShort, size, 0, |x.payloads[i]|))
              && hash(x.payloads[1]) == 0 && IsLost(size, hash, ms, x, 1)
  {
    var hash := (s: seq<byte>) => if s == [2] then 0 else 1;
    var ms := [Member(TxItem(5, [1], false, 0), [1]), Member(TxItem(6, [3], false, 1), [3])];
    var x := StepInput([[4], [2]], [false, false], true);
    var items := PreparedItems(hash, ms, x);
    assert [3] != [2] && [4] != [2] by { assert [3][0] != [2][0] && [4][0] != [2][0]; }
    assert items == [TxItem(5, [4], true, 0), TxItem(6, [2], true, 1)];
    SecondWaits(items);
    var after := TxStep(HeaderShort, 5, hash, ms, x);
    assert after[1].item.checksum == 0 && after[1].item.bytes == [2] && after[1].sent == [3];
    forall n: nat
      ensures IdleSteps(HeaderShort, 5, hash, after, n)[1].sent == ms[1].sent
    {
      NotStaleIsNotSent(HeaderShort, 5, hash, after, n, 1);
    }
    assert IsLost(5, hash, ms, x, 1);
  }

  lemma SecondWaits(items: seq<TxItem>)
    requires |items| == 2 && items[0].needsTx && |items[0].bytes| == |items[1].bytes| == 1
    ensures PlaceAll(HeaderShort, 5, items).mapped == [true, false]
  {
    assert PlaceFirst(HeaderShort, 5, items, 0) == Placed([], []);
    assert |Frame(HeaderShort, items[0].id, items[0].bytes)| == 5;
    assert PlaceFirst(HeaderShort, 5, items, 1).mapped == [] + [true];
  }
}
