/**
 Container mapping on the PDU objects of a network: the loops that build a container payload in place
 and take it apart again.
 */
module ContainerObjects {
  import opened Bytes
  import opened Container
  import opened Matrix
  import opened PduObjects

  /** Different objects with buffers of their own. */
  predicate Distinct(pdus: seq<PduObject>) {
    forall i, j :: 0 <= i < j < |pdus| ==> pdus[i] != pdus[j] && pdus[i].payload != pdus[j].payload
  }

  /** The I-PDUs of a container; none is the container or shares its buffer. */
  predicate Members(c: PduObject, pdus: seq<PduObject>) {
    && Distinct(pdus)
    && (forall i :: 0 <= i < |pdus| ==> pdus[i] != c && pdus[i].payload != c.payload)
  }

  ghost predicate TxAre(pdus: seq<PduObject>, items: seq<TxItem>)
    reads pdus, set p | p in pdus :: p.payload
  {
    |pdus| == |items| && forall i :: 0 <= i < |pdus| ==> pdus[i].Tx() == items[i]
  }

  function FlagsOf(it: TxItem): (bool, nat) {
    (it.needsTx, it.checksum)
  }

  ghost predicate RxAre(pdus: seq<PduObject>, items: seq<RxItem>)
    reads pdus, set p | p in pdus :: p.payload
  {
    |pdus| == |items| && forall i :: 0 <= i < |pdus| ==> pdus[i].Rx() == items[i]
  }

  /** memcpy to a buffer. */
  method Store(buf: array<byte>, at: nat, data: seq<byte>)
    requires at + |data| <= buf.Length
    modifies buf
    ensures buf[..] == old(buf[..at]) + data + old(buf[at + |data|..])
  {
    forall i | 0 <= i < |data| {
      buf[at + i] := data[i];
    }
  }

  /** Write a header field by field, most significant byte first. */
  method StoreHeader(h: HeaderFormat, buf: array<byte>, at: nat, id: nat, length: nat)
    requires at + HeaderLength(h) <= buf.Length
    modifies buf
    ensures buf[..] == old(buf[..at]) + Header(h, id, length) + old(buf[at + HeaderLength(h)..])
  {
    hide BigEndian;
    ghost var end := at + HeaderLength(h);
    if h.HeaderShort? {
      StoreShort(buf, at, id, length);
    } else if h.HeaderFull? {
      StoreWord(buf, at, id);
      StoreWord(buf, at + 4, length);
    }
    assert buf[..at] == old(buf[..at]) && buf[end..] == old(buf[end..]);
    assert buf[at..end] == Header(h, id, length);
    assert buf[..] == buf[..at] + buf[at..end] + buf[end..];
  }

  method StoreShort(buf: array<byte>, at: nat, id: nat, length: nat)
    requires at + 4 <= buf.Length
    modifies buf
    ensures buf[at..at + 4] == BigEndian(id, 3) + BigEndian(length, 1)
    ensures forall i :: 0 <= i < buf.Length && !(at <= i < at + 4) ==> buf[i] == old(buf[i])
  {
    hide BigEndian;
    BigEndianBytes(id);
    BigEndianBytes(length);
    buf[at] := id / 0x1_0000 % 0x100;
    buf[at + 1] := id / 0x100 % 0x100;
    buf[at + 2] := id % 0x100;
    buf[at + 3] := length % 0x100;
  }

  method StoreWord(buf: array<byte>, at: nat, x: nat)
    requires at + 4 <= buf.Length
    modifies buf
    ensures buf[at..at + 4] == BigEndian(x, 4)
    ensures forall i :: 0 <= i < buf.Length && !(at <= i < at + 4) ==> buf[i] == old(buf[i])
  {
    hide BigEndian;
    BigEndianBytes(x);
    buf[at] := x / 0x100_0000 % 0x100;
    buf[at + 1] := x / 0x1_0000 % 0x100;
    buf[at + 2] := x / 0x100 % 0x100;
    buf[at + 3] := x % 0x100;
  }

  /** The bytes of a number, by shifting and truncating. */
  lemma BigEndianBytes(x: nat)
    ensures BigEndian(x, 1) == [x % 0x100]
    ensures BigEndian(x, 3) == [x / 0x1_0000 % 0x100, x / 0x100 % 0x100, x % 0x100]
    ensures BigEndian(x, 4) == [x / 0x100_0000 % 0x100, x / 0x1_0000 % 0x100, x / 0x100 % 0x100, x % 0x100]
  {
    hide BigEndian;
    Shifts(x);
    BigEndianOne(x);
    BigEndianThree(x);
    BigEndianThree(x / 0x100);
    BigEndianNext(x, 4);
  }

  lemma Shifts(x: nat)
    ensures x / 0x100 / 0x100 == x / 0x1_0000 && x / 0x100 / 0x1_0000 == x / 0x100_0000
  {
  }

  lemma BigEndianNext(x: nat, n: nat)
    requires 0 < n
    ensures BigEndian(x, n) == BigEndian(x / 0x100, n - 1) + [x % 0x100]
  {
  }

  lemma BigEndianOne(x: nat)
    ensures BigEndian(x, 1) == [x % 0x100]
  {
    assert BigEndian(x / 0x100, 0) == [];
  }

  lemma BigEndianThree(x: nat)
    ensures BigEndian(x, 3) == [x / 0x1_0000 % 0x100, x / 0x100 % 0x100, x % 0x100]
  {
    hide BigEndian;
    Shifts(x);
    BigEndianNext(x, 3);
    BigEndianNext(x / 0x100, 2);
    BigEndianOne(x / 0x1_0000);
  }

  predicate SendsFrames(c: PduObject) {
    c.config.dir == DirTx && !c.config.header.HeaderNone?
  }

  /**
   Build the container payload from the pending I-PDUs, in the order of the list, and raise the
   container if something was placed. A container that is not due is left alone.
   */
  method MapTo(c: PduObject, pdus: seq<PduObject>, hash: seq<byte> -> nat, ghost items: seq<TxItem>)
    requires Members(c, pdus) && TxAre(pdus, items)
    modifies c, c.payload, pdus
    ensures c.config.dir != DirTx || c.config.header == HeaderNone || !old(c.needsTx) ==>
              TxAre(pdus, items) && c.Tx() == old(c.Tx())
    ensures c.config.dir == DirTx && c.config.header != HeaderNone && old(c.needsTx) ==>
              var h, mapped := c.config.header, PlaceAll(c.config.header, c.payload.Length, items).mapped;
              && c.payload[..] == ContainerBytes(h, c.payload.Length, items)
              && (c.needsTx <==> exists i :: 0 <= i < |mapped| && mapped[i])
              && TxAre(pdus, ItemsAfter(h, c.payload.Length, hash, items))
  {
    if !SendsFrames(c) || !c.needsTx {
      return;
    }
    MapPending(c.config.header, c, pdus, hash, items);
  }

  method MapPending(
      h: HeaderFormat, c: PduObject, pdus: seq<PduObject>, hash: seq<byte> -> nat, ghost items: seq<TxItem>)
    requires Members(c, pdus) && TxAre(pdus, items) && !h.HeaderNone?
    modifies c, c.payload, pdus
    ensures c.payload[..] == ContainerBytes(h, c.payload.Length, items)
    ensures c.needsTx == AnyMapped(PlaceAll(h, c.payload.Length, items).mapped)
    ensures TxAre(pdus, ItemsAfter(h, c.payload.Length, hash, items))
  {
    hide PlaceFirst, ContainerBytes, AnyMapped, Frame, ItemAfter, Fits, ItemsAfter, Members;
    var size, offset := c.payload.Length, 0;
    ghost var bytes: seq<byte>, mapped: seq<bool> := [], [];
    PlaceNone(h, size, items);
    MembersApart(c, pdus);
    Store(c.payload, 0, Zeros(size));
    c.needsTx := false;
    for i := 0 to |pdus|
      invariant Placed(bytes, mapped) == PlaceFirst(h, size, items, i)
      invariant offset == |bytes| <= size && |mapped| == i
      invariant c.payload[..] == bytes + Zeros(size - offset)
      invariant c.needsTx == AnyMapped(mapped)
      invariant forall k :: 0 <= k < i ==> pdus[k].Flags() == FlagsOf(ItemAfter(hash, items[k], mapped[k]))
      invariant forall k :: i <= k < |pdus| ==> pdus[k].Flags() == FlagsOf(items[k])
    {
      PlaceNext(h, size, items, i);
      MemberAt(c, pdus, i);
      var p := pdus[i];
      assert p.Tx() == items[i];
      ghost var fits := items[i].needsTx && Fits(h, size, offset, |items[i].bytes|);
      if p.needsTx {
        offset := MapOne(h, c, p, hash, offset, bytes);
      } else {
        NotPending(hash, items[i]);
      }
      bytes := if fits then bytes + Frame(h, items[i].id, items[i].bytes) else bytes;
      mapped := mapped + [fits];
    }
    MappedAll(h, size, hash, items, bytes, mapped);
    forall k | 0 <= k < |pdus| ensures pdus[k].Tx() == ItemAfter(hash, items[k], mapped[k]) {
      OnlyFlagsChange(hash, items[k], mapped[k]);
    }
  }

  lemma OnlyFlagsChange(hash: seq<byte> -> nat, it: TxItem, mapped: bool)
    ensures ItemAfter(hash, it, mapped).id == it.id && ItemAfter(hash, it, mapped).bytes == it.bytes
  {
  }

  /** An I-PDU is neither the container nor another I-PDU of the list. */
  lemma MemberAt(c: PduObject, pdus: seq<PduObject>, i: nat)
    requires Members(c, pdus) && i < |pdus|
    ensures pdus[i] != c && pdus[i].payload != c.payload
    ensures forall k :: 0 <= k < |pdus| && k != i ==> pdus[k] != pdus[i]
  {
  }

  lemma MembersApart(c: PduObject, pdus: seq<PduObject>)
    requires Members(c, pdus)
    ensures forall k :: 0 <= k < |pdus| ==> pdus[k] != c && pdus[k].payload != c.payload
  {
  }

  lemma PlaceNone(h: HeaderFormat, size: nat, items: seq<TxItem>)
    ensures PlaceFirst(h, size, items, 0) == Placed([], []) && !AnyMapped([])
  {
  }

  /** One more I-PDU. */
  lemma PlaceNext(h: HeaderFormat, size: nat, items: seq<TxItem>, i: nat)
    requires i < |items|
    ensures var p := PlaceFirst(h, size, items, i);
            var it := items[i];
            var fits := it.needsTx && Fits(h, size, |p.bytes|, |it.bytes|);
            && PlaceFirst(h, size, items, i + 1) ==
               Placed(if fits then p.bytes + Frame(h, it.id, it.bytes) else p.bytes, p.mapped + [fits])
            && AnyMapped(p.mapped + [fits]) == (AnyMapped(p.mapped) || fits)
  {
    var p := PlaceFirst(h, size, items, i);
    var fits := items[i].needsTx && Fits(h, size, |p.bytes|, |items[i].bytes|);
    AnyMappedNext(p.mapped, p.mapped + [fits]);
  }

  lemma NotPending(hash: seq<byte> -> nat, it: TxItem)
    requires !it.needsTx
    ensures ItemAfter(hash, it, false) == it
  {
  }

  lemma MappedAll(
      h: HeaderFormat, size: nat, hash: seq<byte> -> nat, items: seq<TxItem>, bytes: seq<byte>, mapped: seq<bool>)
    requires Placed(bytes, mapped) == PlaceAll(h, size, items)
    ensures |bytes| <= size && ContainerBytes(h, size, items) == bytes + Zeros(size - |bytes|)
    ensures |mapped| == |items| && ItemsAfter(h, size, hash, items) ==
            seq(|items|, i requires 0 <= i < |items| => ItemAfter(hash, items[i], mapped[i]))
  {
    hide PlaceFirst, ItemAfter;
  }

  lemma AnyMappedNext(a: seq<bool>, b: seq<bool>)
    requires |b| == |a| + 1 && b[..|a|] == a
    ensures AnyMapped(b) <==> AnyMapped(a) || b[|a|]
  {
    if AnyMapped(a) {
      var i :| 0 <= i < |a| && a[i];
      assert b[i];
    }
  }

  /** Header, then as much of the payload as the header's length says. */
  method StoreFrame(h: HeaderFormat, buf: array<byte>, at: nat, id: nat, data: array<byte>) returns (end: nat)
    requires data != buf && at + HeaderLength(h) + data.Length <= buf.Length
    modifies buf
    ensures end == at + |Frame(h, id, data[..])| <= buf.Length
    ensures buf[..] == old(buf[..at]) + Frame(h, id, data[..]) + old(buf[end..])
  {
    hide Header, Frame, CarriedLength;
    ghost var was := buf[..];
    FrameIs(h, id, data[..]);
    StoreHeader(h, buf, at, id, data.Length);
    var length := CarriedLength(h, data.Length);
    var body := at + HeaderLength(h);
    end := body + length;
    ghost var header, mid := Header(h, id, data.Length), buf[..];
    Store(buf, body, data[..length]);
    Spliced(was, at, header, data[..length], mid, buf[..]);
  }

  /** Two adjacent stores are one. */
  lemma Spliced(was: seq<byte>, at: nat, a: seq<byte>, b: seq<byte>, mid: seq<byte>, now: seq<byte>)
    requires at + |a| + |b| <= |was| && mid == was[..at] + a + was[at + |a|..]
    requires now == mid[..at + |a|] + b + mid[at + |a| + |b|..]
    ensures now == was[..at] + (a + b) + was[at + |a| + |b|..]
  {
    assert mid[..at + |a|] == was[..at] + a;
    assert mid[at + |a| + |b|..] == was[at + |a| + |b|..];
  }

  lemma FrameIs(h: HeaderFormat, id: nat, bytes: seq<byte>)
    ensures CarriedLength(h, |bytes|) <= |bytes|
    ensures Frame(h, id, bytes) == Header(h, id, |bytes|) + bytes[..CarriedLength(h, |bytes|)]
  {
    CarriedIsLess(h, |bytes|);
  }

  /** One pending I-PDU: delay it, or place it at the offset. */
  method MapOne(
      h: HeaderFormat, c: PduObject, p: PduObject, hash: seq<byte> -> nat, offset: nat, ghost placed: seq<byte>)
    returns (offset': nat)
    requires p != c && p.payload != c.payload && p.needsTx && !h.HeaderNone?
    requires offset == |placed| <= c.payload.Length && c.payload[..] == placed + Zeros(c.payload.Length - offset)
    modifies c`needsTx, c.payload, p`needsTx, p`checksum
    ensures var fits := Fits(h, c.payload.Length, offset, p.payload.Length);
            var placed' := if fits then placed + Frame(h, p.config.id, p.payload[..]) else placed;
            && offset' == |placed'| <= c.payload.Length
            && c.payload[..] == placed' + Zeros(c.payload.Length - offset')
            && c.needsTx == (old(c.needsTx) || fits)
            && p.Flags() == FlagsOf(ItemAfter(hash, old(p.Tx()), fits))
  {
    var length := p.payload.Length;
    if length + HeaderLength(h) > c.payload.Length - offset {
      p.needsTx := false;
      p.checksum := 0;
      return offset;
    }
    p.checksum := hash(p.payload[..]);
    offset' := StoreFrame(h, c.payload, offset, p.config.id, p.payload);
    assert c.payload[..] == placed + Frame(h, p.config.id, p.payload[..]) + Zeros(c.payload.Length - offset');
    c.needsTx := true;
    p.needsTx := false;
  }

  // ---------------------------------------------------------------------------------------------
  // The I-PDUs of a container
  // ---------------------------------------------------------------------------------------------

  predicate BelongsTo(p: PduObject, c: PduObject) {
    p.config.dir == c.config.dir && p.config.containerId == c.config.id
  }

  predicate SortedByPriority(pdus: seq<PduObject>) {
    forall i, j :: 0 <= i < j < |pdus| ==> pdus[i].config.priority <= pdus[j].config.priority
  }

  /** Collect the PDUs of the network that belong to the container, by priority. */
  method SetupContainer(c: PduObject, network: seq<PduObject>) returns (pdus: seq<PduObject>)
    requires Distinct(network)
    ensures forall i, j :: 0 <= i < j < |pdus| ==>
              pdus[i].config.priority <= pdus[j].config.priority && pdus[i] != pdus[j]
    ensures forall p :: p in pdus <==>
              p in network && p.config.dir == c.config.dir && p.config.containerId == c.config.id
    ensures Distinct(pdus)
  {
    pdus := [];
    for i := 0 to |network|
      invariant SortedByPriority(pdus) && Distinct(pdus)
      invariant forall p :: p in pdus <==> p in network[..i] && BelongsTo(p, c)
    {
      if BelongsTo(network[i], c) {
        pdus := InsertByPriority(pdus, network[i]);
      }
    }
  }

  method InsertByPriority(pdus: seq<PduObject>, p: PduObject) returns (r: seq<PduObject>)
    requires SortedByPriority(pdus) && Distinct(pdus)
    requires forall q :: q in pdus ==> q != p && q.payload != p.payload
    ensures SortedByPriority(r) && Distinct(r)
    ensures forall q :: q in r <==> q in pdus || q == p
  {
    hide SortedByPriority, Distinct;
    var at := 0;
    while at < |pdus| && pdus[at].config.priority <= p.config.priority
      invariant at <= |pdus|
      invariant forall j :: 0 <= j < at ==> pdus[j].config.priority <= p.config.priority
    {
      at := at + 1;
    }
    r := pdus[..at] + [p] + pdus[at..];
    InsertedIsSorted(pdus, at, p);
    InsertedIsDistinct(pdus, at, p);
    assert pdus == pdus[..at] + pdus[at..];
  }

  /** The element of a list with `p` inserted at `at`. */
  lemma InsertedAt(pdus: seq<PduObject>, at: nat, p: PduObject, i: nat)
    requires at <= |pdus| && i <= |pdus|
    ensures (pdus[..at] + [p] + pdus[at..])[i] == if i < at then pdus[i] else if i == at then p else pdus[i - 1]
  {
  }

  lemma InsertedIsSorted(pdus: seq<PduObject>, at: nat, p: PduObject)
    requires SortedByPriority(pdus) && at <= |pdus|
    requires forall j :: 0 <= j < at ==> pdus[j].config.priority <= p.config.priority
    requires at < |pdus| ==> p.config.priority <= pdus[at].config.priority
    ensures SortedByPriority(pdus[..at] + [p] + pdus[at..])
  {
    var r := pdus[..at] + [p] + pdus[at..];
    forall i, j | 0 <= i < j < |r| ensures r[i].config.priority <= r[j].config.priority {
      InsertedAt(pdus, at, p, i);
      InsertedAt(pdus, at, p, j);
    }
  }

  lemma InsertedIsDistinct(pdus: seq<PduObject>, at: nat, p: PduObject)
    requires Distinct(pdus) && at <= |pdus|
    requires forall q :: q in pdus ==> q != p && q.payload != p.payload
    ensures Distinct(pdus[..at] + [p] + pdus[at..])
  {
    var r := pdus[..at] + [p] + pdus[at..];
    forall i, j | 0 <= i < j < |r| ensures r[i] != r[j] && r[i].payload != r[j].payload {
      InsertedAt(pdus, at, p, i);
      InsertedAt(pdus, at, p, j);
      assert (i != at ==> r[i] in pdus) && (j != at ==> r[j] in pdus);
    }
  }

  // ---------------------------------------------------------------------------------------------
  // A transmission step
  // ---------------------------------------------------------------------------------------------

  /** What the visitor makes of the flags of a PDU whose payload has this hash. */
  function FlagsVisited(c: PduConfig, hash: nat, flags: (bool, nat)): (bool, nat) {
    if c.dir != DirTx then (false, flags.1)
    else if !c.header.HeaderNone? then flags
    else (hash != flags.1, if c.containerId == 0 then hash else flags.1)
  }

  /**
   Raise a PDU whose payload differs from the checksum. A container keeps what the schedule decided;
   the checksum of a container's I-PDU is left for the mapping.
   */
  method VisitNeedsTx(p: PduObject, hash: seq<byte> -> nat)
    modifies p`needsTx, p`checksum
    ensures p.Flags() == FlagsVisited(p.config, hash(p.payload[..]), old(p.Flags()))
    ensures p.config.dir != DirTx ==> !p.needsTx && p.checksum == old(p.checksum)
    ensures p.config.dir == DirTx && p.config.header != HeaderNone ==>
              p.needsTx == old(p.needsTx) && p.checksum == old(p.checksum)
    ensures p.config.dir == DirTx && p.config.header == HeaderNone ==>
              && (p.needsTx <==> hash(p.payload[..]) != old(p.checksum))
              && p.checksum == if p.config.containerId == 0 then hash(p.payload[..]) else old(p.checksum)
  {
    if p.config.dir != DirTx {
      p.needsTx := false;
    } else if p.config.header.HeaderNone? {
      var checksum := hash(p.payload[..]);
      if checksum != p.checksum {
        p.needsTx := true;
        if p.config.containerId == 0 {
          p.checksum := checksum;
        }
      } else {
        p.needsTx := false;
      }
    }
  }

  /** An I-PDU that travels in a container. */
  predicate IsCarried(p: PduObject) {
    p.config.dir == DirTx && p.config.header.HeaderNone? && p.config.containerId != 0
  }

  /** The schedule forces an I-PDU, its signals are packed, and the visitor raises it if it has changed. */
  method Prepare(p: PduObject, hash: seq<byte> -> nat, payload: seq<byte>, forced: bool)
    requires IsCarried(p) && |payload| == p.payload.Length
    modifies p`needsTx, p`checksum, p.payload
    ensures p.Tx() == Prepared(hash, old(p.Tx()), payload, forced)
  {
    if forced {
      p.checksum := 0;
    }
    Store(p.payload, 0, payload);
    assert p.payload[..] == payload;
    VisitNeedsTx(p, hash);
  }

  method PrepareAll(pdus: seq<PduObject>, hash: seq<byte> -> nat, x: StepInput, ghost ms: seq<Member>)
    requires Distinct(pdus) && InputFor(x, |pdus|) && |ms| == |pdus| && TxAre(pdus, ItemsOf(ms))
    requires forall i :: 0 <= i < |pdus| ==> IsCarried(pdus[i]) && |x.payloads[i]| == pdus[i].payload.Length
    modifies pdus, set p | p in pdus :: p.payload
    ensures TxAre(pdus, PreparedItems(hash, ms, x))
  {
    hide Prepared;
    for i := 0 to |pdus|
      invariant forall k :: 0 <= k < i ==> pdus[k].Tx() == Prepared(hash, ms[k].item, x.payloads[k], x.forced[k])
      invariant forall k :: i <= k < |pdus| ==> pdus[k].Tx() == ms[k].item
    {
      Prepare(pdus[i], hash, x.payloads[i], x.forced[i]);
    }
  }

  function ItemsOf(ms: seq<Member>): (r: seq<TxItem>)
    ensures |r| == |ms|
  {
    seq(|ms|, i requires 0 <= i < |ms| => ms[i].item)
  }

  /** The whole step on the objects does what `TxStep` says. */
  method Transmit(c: PduObject, pdus: seq<PduObject>, hash: seq<byte> -> nat, x: StepInput, ghost ms: seq<Member>)
    requires Members(c, pdus) && SendsFrames(c)
    requires InputFor(x, |pdus|) && |ms| == |pdus| && TxAre(pdus, ItemsOf(ms))
    requires forall i :: 0 <= i < |pdus| ==> IsCarried(pdus[i]) && |x.payloads[i]| == pdus[i].payload.Length
    modifies c, c.payload, pdus, set p | p in pdus :: p.payload
    ensures TxAre(pdus, ItemsOf(TxStep(c.config.header, c.payload.Length, hash, ms, x)))
    ensures x.due ==> c.payload[..] == ContainerBytes(c.config.header, c.payload.Length, PreparedItems(hash, ms, x))
    ensures c.needsTx ==
            (x.due && AnyMapped(PlaceAll(c.config.header, c.payload.Length, PreparedItems(hash, ms, x)).mapped))
  {
    c.needsTx := x.due;
    PrepareAll(pdus, hash, x, ms);
    MapTo(c, pdus, hash, PreparedItems(hash, ms, x));
    StepItems(c.config.header, c.payload.Length, hash, ms, x);
  }

  lemma StepItems(h: HeaderFormat, size: nat, hash: seq<byte> -> nat, ms: seq<Member>, x: StepInput)
    requires InputFor(x, |ms|)
    ensures var items := PreparedItems(hash, ms, x);
            ItemsOf(TxStep(h, size, hash, ms, x)) == if x.due then ItemsAfter(h, size, hash, items) else items
  {
  }

  // ---------------------------------------------------------------------------------------------
  // Receiving
  // ---------------------------------------------------------------------------------------------

  /** Until the id is found the list stays as it is. */
  lemma {:induction false} DeliverSkips(items: seq<RxItem>, id: nat, data: seq<byte>, i: nat)
    requires i <= |items| && forall k :: 0 <= k < i ==> items[k].id != id
    ensures Deliver(items, id, data) == items[..i] + Deliver(items[i..], id, data)
    decreases i
  {
    if i > 0 {
      assert items[1..][..i - 1] == items[1..i] && items[1..][i - 1..] == items[i..];
      DeliverSkips(items[1..], id, data, i - 1);
    }
  }

  lemma DeliverHere(items: seq<RxItem>, id: nat, data: seq<byte>, i: nat)
    requires i < |items| && items[i].id == id && forall k :: 0 <= k < i ==> items[k].id != id
    ensures Deliver(items, id, data) == items[i := Received(items[i], data)]
  {
    DeliverSkips(items, id, data, i);
  }

  /** Find the I-PDU and overwrite the head of its payload. */
  method DeliverTo(pdus: seq<PduObject>, id: nat, data: seq<byte>, ghost items: seq<RxItem>)
    requires Distinct(pdus) && RxAre(pdus, items)
    modifies pdus, set p | p in pdus :: p.payload
    ensures RxAre(pdus, Deliver(items, id, data))
  {
    hide Deliver;
    for i := 0 to |pdus|
      invariant forall k :: 0 <= k < i ==> items[k].id != id
      invariant RxAre(pdus, items)
    {
      var p := pdus[i];
      assert p.Rx() == items[i];
      if p.config.id == id {
        var n := Min(p.payload.Length, |data|);
        Store(p.payload, 0, data[..n]);
        p.updateSignals := true;
        DeliverHere(items, id, data, i);
        assert p.Rx() == Received(items[i], data);
        return;
      }
    }
    DeliverSkips(items, id, data, |items|);
    assert Deliver([], id, data) == [];
  }

  /** Read a header field, most significant byte first. */
  method ReadField(buf: array<byte>, at: nat, n: nat) returns (x: nat)
    requires at + n <= buf.Length
    ensures x == ReadBigEndian(buf[at..at + n])
  {
    x := 0;
    for i := 0 to n
      invariant x == ReadBigEndian(buf[at..at + i])
    {
      assert buf[at..at + i + 1][..i] == buf[at..at + i];
      x := x * 256 + buf[at + i];
    }
  }

  lemma TailSlice(s: seq<byte>, at: nat, i: nat, j: nat)
    requires i <= j && at + j <= |s|
    ensures s[at..][i..j] == s[at + i..at + j] && (i == 0 ==> s[at..][..j] == s[at..at + j])
  {
  }

  method ReadHeader(h: HeaderFormat, buf: array<byte>, at: nat) returns (id: nat, length: nat)
    requires at <= buf.Length
    ensures id == ParseId(h, buf[at..]) && length == Widened(ParseLength(h, buf[at..]))
  {
    id, length := 0, 0;
    assert buf[at..] == buf[..][at..];
    if HeaderLength(h) <= buf.Length - at {
      if h.HeaderShort? {
        id := ReadField(buf, at, 3);
        length := ReadField(buf, at + 3, 1);
        TailSlice(buf[..], at, 0, 3);
        TailSlice(buf[..], at, 3, 4);
      } else if h.HeaderFull? {
        id := ReadField(buf, at, 4);
        length := ReadField(buf, at + 4, 4);
        TailSlice(buf[..], at, 0, 4);
        TailSlice(buf[..], at, 4, 8);
        length := Widened(length);
      }
    }
  }

  predicate ReceivesFrames(c: PduObject)
    reads c`updateSignals
  {
    c.config.dir == DirRx && !c.config.header.HeaderNone? && c.updateSignals
  }

  /**
   Take the received container apart: each frame goes to the I-PDU with its id, until the first id 0
   or the first length that goes past the end. `n` bounds the frames of a parse that ends.
   */
  method MapFrom(c: PduObject, pdus: seq<PduObject>, ghost items: seq<RxItem>, ghost n: nat)
    requires Members(c, pdus) && RxAre(pdus, items)
    requires ReceivesFrames(c) ==> Parses(c.config.header, c.payload[..], 0, items, n)
    modifies pdus, set p | p in pdus :: p.payload
    ensures c.config.dir != DirRx || c.config.header == HeaderNone || !old(c.updateSignals) ==> RxAre(pdus, items)
    ensures c.config.dir == DirRx && c.config.header != HeaderNone && old(c.updateSignals) ==>
              RxAre(pdus, Parsed(c.config.header, c.payload[..], 0, items, n))
  {
    if !ReceivesFrames(c) {
      return;
    }
    MapFrames(c.config.header, c, pdus, items, n);
  }

  method MapFrames(h: HeaderFormat, c: PduObject, pdus: seq<PduObject>, ghost items: seq<RxItem>, ghost n: nat)
    requires Members(c, pdus) && RxAre(pdus, items) && Parses(h, c.payload[..], 0, items, n)
    modifies pdus, set p | p in pdus :: p.payload
    ensures c.payload[..] == old(c.payload[..]) && RxAre(pdus, Parsed(h, c.payload[..], 0, items, n))
  {
    hide RxAre, Deliver, Parses, Parsed, ParseId, ParseLength, NextOffset;
    var size, offset: nat := c.payload.Length, 0;
    ghost var now, s, left := items, c.payload[..], n;
    while offset < size
      invariant offset <= size && c.payload[..] == s
      invariant RxAre(pdus, now) && Parses(h, s, offset, now, left)
      invariant Parsed(h, s, offset, now, left) == Parsed(h, s, 0, items, n)
      decreases left
    {
      assert c.payload[offset..] == s[offset..];
      var id, length := ReadHeader(h, c.payload, offset);
      ParseStep(h, s, offset, now, left);
      offset := offset + HeaderLength(h);
      if id == 0 {
        return;
      }
      if (offset + length) % 0x1_0000_0000_0000_0000 > size {
        return;
      }
      // The I-PDU copies no more than its own length of this.
      DeliverTo(pdus, id, c.payload[offset..offset + Min(length, size - offset)], now);
      now := Deliver(now, id, DataAt(s, offset, length));
      left := left - 1;
      offset := (offset + length) % 0x1_0000_0000_0000_0000;
    }
    ParseEnds(h, s, now, left);
  }

  /** One frame of the parse. */
  lemma ParseStep(h: HeaderFormat, s: seq<byte>, offset: nat, items: seq<RxItem>, n: nat)
    requires offset <= |s| && Parses(h, s, offset, items, n)
    ensures var id, length := ParseId(h, s[offset..]), Widened(ParseLength(h, s[offset..]));
            var body := offset + HeaderLength(h);
            var next := (body + length) % 0x1_0000_0000_0000_0000;
            && (id == 0 || next > |s| ==> Parsed(h, s, offset, items, n) == items)
            && (id != 0 ==> body <= |s|)
            && (id != 0 && next <= |s| ==>
                  && 0 < n && Parses(h, s, next, Deliver(items, id, DataAt(s, body, length)), n - 1)
                  && Parsed(h, s, offset, items, n) ==
                     Parsed(h, s, next, Deliver(items, id, DataAt(s, body, length)), n - 1))
  {
    hide Deliver;
  }

  lemma ParseEnds(h: HeaderFormat, s: seq<byte>, items: seq<RxItem>, n: nat)
    requires Parses(h, s, |s|, items, n)
    ensures Parsed(h, s, |s|, items, n) == items
  {
  }
}
