/**
 What the container functions mean, byte by byte and flag by flag: where each I-PDU lies in the
 payload, what its header bytes are, whom a received frame changes, and what a step leaves behind.
 */
module ContainerLaws {
  import opened Bytes
  import opened Container
  import opened ContainerObjects

  /** The header bytes: the id in three or four bytes, then the length in one or four, high bytes first. */
  lemma HeaderBytes(id: nat, length: nat)
    ensures Header(HeaderShort, id, length) ==
            [id / 0x1_0000 % 0x100, id / 0x100 % 0x100, id % 0x100, length % 0x100]
    ensures Header(HeaderFull, id, length) ==
            [id / 0x100_0000 % 0x100, id / 0x1_0000 % 0x100, id / 0x100 % 0x100, id % 0x100,
             length / 0x100_0000 % 0x100, length / 0x1_0000 % 0x100, length / 0x100 % 0x100, length % 0x100]
    ensures Header(HeaderStatic, id, length) == []
  {
    hide BigEndian;
    BigEndianBytes(id);
    BigEndianBytes(length);
  }

  /** What the receiver reads in them. */
  lemma HeaderRead(s: seq<byte>)
    ensures |s| >= 4 ==> ParseId(HeaderShort, s) == (s[0] as nat * 0x100 + s[1]) * 0x100 + s[2]
                         && ParseLength(HeaderShort, s) == s[3]
    ensures |s| >= 8 ==> ParseId(HeaderFull, s) == ((s[0] as nat * 0x100 + s[1]) * 0x100 + s[2]) * 0x100 + s[3]
                         && ParseLength(HeaderFull, s) ==
                            ((s[4] as nat * 0x100 + s[5]) * 0x100 + s[6]) * 0x100 + s[7]
    ensures |s| < 4 ==> ParseId(HeaderShort, s) == 0
    ensures |s| < 8 ==> ParseId(HeaderFull, s) == 0
    ensures ParseId(HeaderStatic, s) == 0
  {
    if |s| >= 4 {
      ReadWord(s[..3]);
      ReadWord(s[..4]);
      ReadWord(s[3..4]);
    }
    if |s| >= 8 {
      ReadWord(s[4..8]);
    }
  }

  lemma ReadWord(s: seq<byte>)
    ensures |s| == 1 ==> ReadBigEndian(s) == s[0]
    ensures |s| == 3 ==> ReadBigEndian(s) == (s[0] as nat * 0x100 + s[1]) * 0x100 + s[2]
    ensures |s| == 4 ==> ReadBigEndian(s) == ((s[0] as nat * 0x100 + s[1]) * 0x100 + s[2]) * 0x100 + s[3]
  {
    if |s| > 0 {
      assert ReadBigEndian(s) == ReadBigEndian(s[..|s| - 1]) * 0x100 + s[|s| - 1];
    }
    if |s| > 1 {
      assert s[..|s| - 1][..|s| - 2] == s[..|s| - 2];
    }
    if |s| > 2 {
      assert s[..|s| - 2][..|s| - 3] == s[..|s| - 3];
    }
    if |s| > 3 {
      assert s[..|s| - 3][..|s| - 4] == s[..|s| - 4];
    }
  }

  /**
   Each placed I-PDU lies behind those placed in front of it: its header, then its bytes. The payload
   ends in zeros.
   */
  lemma PlacedAt(h: HeaderFormat, size: nat, items: seq<TxItem>, i: nat)
    requires i < |items| && PlaceAll(h, size, items).mapped[i]
    requires |items[i].bytes| < 0x100 || (!h.HeaderShort? && |items[i].bytes| < 0x1_0000_0000)
    ensures var at, bytes := RoomTaken(h, items, PlaceAll(h, size, items).mapped, i), ContainerBytes(h, size, items);
            var body := at + HeaderLength(h);
            && body + |items[i].bytes| <= size
            && bytes[at..body] == Header(h, items[i].id, |items[i].bytes|)
            && bytes[body..body + |items[i].bytes|] == items[i].bytes
  {
    hide RoomTaken, ContainerBytes, PlaceFirst, Frame, Header, HeaderLength, CarriedLength;
    var placed, before := PlaceAll(h, size, items), PlaceFirst(h, size, items, i);
    FramePlaced(h, size, items, i, |items|);
    RoomIsTaken(h, size, items, i);
    RoomTakenPrefix(h, items, placed.mapped, before.mapped, i);
    EndsInZeros(h, size, items);
    WholeFrame(h, items[i].id, items[i].bytes);
    FrameInside(ContainerBytes(h, size, items), placed.bytes, |before.bytes|,
                Header(h, items[i].id, |items[i].bytes|), items[i].bytes);
  }

  lemma FrameInside(s: seq<byte>, placed: seq<byte>, at: nat, header: seq<byte>, body: seq<byte>)
    requires |placed| <= |s| && s[..|placed|] == placed
    requires at + |header + body| <= |placed| && placed[at..at + |header + body|] == header + body
    ensures s[at..at + |header|] == header && s[at + |header|..at + |header| + |body|] == body
  {
    var end := at + |header + body|;
    SameSlice(placed, s, at, end);
    assert (header + body)[..|header|] == header && (header + body)[|header|..] == body;
    assert s[at..end][..|header|] == s[at..at + |header|];
    assert s[at..end][|header|..] == s[at + |header|..end];
  }

  lemma WholeFrame(h: HeaderFormat, id: nat, bytes: seq<byte>)
    requires |bytes| < 0x100 || (!h.HeaderShort? && |bytes| < 0x1_0000_0000)
    ensures Frame(h, id, bytes) == Header(h, id, |bytes|) + bytes
  {
    FrameIs(h, id, bytes);
    assert CarriedLength(h, |bytes|) == |bytes|;
  }

  lemma SameSlice(head: seq<byte>, s: seq<byte>, i: nat, j: nat)
    requires i <= j <= |head| <= |s| && s[..|head|] == head
    ensures s[i..j] == head[i..j]
  {
    assert forall k :: i <= k < j ==> s[k] == s[..|head|][k];
  }

  lemma EndsInZeros(h: HeaderFormat, size: nat, items: seq<TxItem>)
    ensures var bytes, n := ContainerBytes(h, size, items), |PlaceAll(h, size, items).bytes|;
            && n == RoomTaken(h, items, PlaceAll(h, size, items).mapped, |items|)
            && bytes[..n] == PlaceAll(h, size, items).bytes
            && forall k :: n <= k < size ==> bytes[k] == 0
  {
    hide PlaceFirst;
    RoomIsTaken(h, size, items, |items|);
  }

  /** What was placed stays where it is. */
  lemma {:induction false} FramePlaced(h: HeaderFormat, size: nat, items: seq<TxItem>, i: nat, n: nat)
    requires i < n <= |items| && PlaceFirst(h, size, items, n).mapped[i]
    ensures var p, at := PlaceFirst(h, size, items, n), |PlaceFirst(h, size, items, i).bytes|;
            var frame := Frame(h, items[i].id, items[i].bytes);
            && p.mapped[..i] == PlaceFirst(h, size, items, i).mapped
            && at + |frame| <= |p.bytes| && p.bytes[at..at + |frame|] == frame
    decreases n
  {
    hide Frame;
    if i < n - 1 {
      var p, before := PlaceFirst(h, size, items, n), PlaceFirst(h, size, items, n - 1);
      FramePlaced(h, size, items, i, n - 1);
      assert p.mapped[..n - 1] == before.mapped && p.bytes[..|before.bytes|] == before.bytes;
      assert p.mapped[..i] == p.mapped[..n - 1][..i];
      var at, length := |PlaceFirst(h, size, items, i).bytes|, |Frame(h, items[i].id, items[i].bytes)|;
      SameSlice(before.bytes, p.bytes, at, at + length);
    }
  }

  /**
   A received frame changes the first I-PDU with its id, and no other: the I-PDU is marked, and its
   bytes are the data as far as both reach and its own behind that.
   */
  lemma DeliveredTo(items: seq<RxItem>, id: nat, data: seq<byte>, j: nat)
    requires j < |items| && forall k :: 0 <= k < j ==> items[k].id != id
    ensures var r := Deliver(items, id, data);
            && (items[j].id != id ==> r[j] == items[j])
            && (items[j].id == id ==>
                  && r[j].id == id && r[j].updated && |r[j].bytes| == |items[j].bytes|
                  && (forall k :: 0 <= k < |items[j].bytes| ==>
                        r[j].bytes[k] == if k < |data| then data[k] else items[j].bytes[k])
                  && forall i :: 0 <= i < |items| && i != j ==> r[i] == items[i])
  {
    DeliverSkips(items, id, data, j);
    var tail := items[j..];
    assert Deliver(items, id, data)[j] == Deliver(tail, id, data)[0];
    if items[j].id == id {
      assert Deliver(tail, id, data)[1..] == tail[1..];
    }
  }

  /** A parse that the contract of `MapFrom` admits copies nothing from behind the payload. */
  lemma ReadsInside(h: HeaderFormat, s: seq<byte>, offset: nat, items: seq<RxItem>, n: nat, j: nat)
    requires offset <= |s| && Parses(h, s, offset, items, n) && ParseId(h, s[offset..]) != 0
    requires NextOffset(h, |s|, offset, ParseLength(h, s[offset..])).Some?
    requires j < |items| && items[j].id == ParseId(h, s[offset..])
    requires forall k :: 0 <= k < j ==> items[k].id != items[j].id
    ensures var body := offset + HeaderLength(h);
            body + Min(|items[j].bytes|, Widened(ParseLength(h, s[offset..]))) <= |s|
  {
    var body := offset + HeaderLength(h);
    if Widened(ParseLength(h, s[offset..])) > |s| - body {
      FirstTakes(items, items[j].id, |s| - body, j);
    }
  }

  lemma {:induction false} FirstTakes(items: seq<RxItem>, id: nat, room: nat, j: nat)
    requires j < |items| && items[j].id == id && forall k :: 0 <= k < j ==> items[k].id != id
    ensures TakesAtMost(items, id, room) <==> |items[j].bytes| <= room
  {
    if j > 0 { FirstTakes(items[1..], id, room, j - 1); }
  }

  /**
   After a container was built nothing in it is pending: what was placed has the checksum of its bytes,
   what had to wait has none, and what was not pending keeps its own.
   */
  lemma AfterMapping(h: HeaderFormat, size: nat, hash: seq<byte> -> nat, items: seq<TxItem>, i: nat)
    requires i < |items|
    ensures var it, now := items[i], ItemsAfter(h, size, hash, items)[i];
            && now.id == it.id && now.bytes == it.bytes && !now.needsTx
            && (it.needsTx && PlaceAll(h, size, items).mapped[i] ==> now.checksum == hash(it.bytes))
            && (it.needsTx && !PlaceAll(h, size, items).mapped[i] ==> now.checksum == 0)
            && (!it.needsTx ==> now.checksum == it.checksum)
  {
    hide PlaceFirst;
  }

  /** The room that the I-PDU needs is there, behind the I-PDUs that were placed in front of it. */
  predicate HasRoom(h: HeaderFormat, size: nat, items: seq<TxItem>, i: nat)
    requires i < |items|
  {
    var header := match h case HeaderShort => 4 case HeaderFull => 8 case _ => 0;
    RoomTaken(h, items, PlaceAll(h, size, items).mapped, i) + header + |items[i].bytes| <= size
  }

  /**
   One step for one I-PDU. It is pending if its new payload does not hash to its checksum, which the
   schedule may have taken away; a due container takes it if there is room, and it waits otherwise.
   */
  lemma StepIs(h: HeaderFormat, size: nat, hash: seq<byte> -> nat, ms: seq<Member>, x: StepInput, i: nat)
    requires InputFor(x, |ms|) && i < |ms|
    ensures var now, payload := TxStep(h, size, hash, ms, x)[i], x.payloads[i];
            var checksum := if x.forced[i] then 0 else ms[i].item.checksum;
            var room := HasRoom(h, size, PreparedItems(hash, ms, x), i);
            && now.item.id == ms[i].item.id && now.item.bytes == payload
            && (now.item.needsTx <==> !x.due && hash(payload) != checksum)
            && now.sent == (if x.due && hash(payload) != checksum && room then payload else ms[i].sent)
            && now.item.checksum == (if !x.due || hash(payload) == checksum then checksum
                                     else if room then hash(payload) else 0)
  {
    hide PlaceFirst, RoomTaken;
    PlacedIff(h, size, PreparedItems(hash, ms, x), i, |ms|);
  }
}
