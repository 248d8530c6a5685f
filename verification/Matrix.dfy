/**
 The layout of the signal matrix: PDUs sorted by direction, the signals of all PDUs in one set of
 columns, and one range of columns for each direction.
 */
module Matrix {

  datatype Direction = DirNone | DirRx | DirTx
  {
    function Rank(): nat {
      match this
      case DirNone => 0
      case DirRx => 1
      case DirTx => 2
    }
  }

  /** A signal; it is invalid if its linear map has no factor or offset. */
  datatype Signal = Signal(name: string, startBit: nat, lengthBits: nat, invalid: bool)

  /** A PDU of the network with its signals. */
  datatype PduItem = PduItem(dir: Direction, signals: seq<Signal>)

  /** A PDU of the matrix: its row, and its columns of signals. */
  datatype PduRow = PduRow(item: PduItem, idx: nat, offset: nat, count: nat)

  datatype Range = Range(dir: Direction, offset: nat, length: nat, pdus: seq<nat>)

  predicate SortedByDirection(items: seq<PduItem>) {
    forall i, j :: 0 <= i < j < |items| ==> items[i].dir.Rank() <= items[j].dir.Rank()
  }

  /** The number of signals of the first `k` PDUs. */
  function Offset(items: seq<PduItem>, k: nat): nat
    requires k <= |items|
  {
    if k == 0 then 0 else Offset(items, k - 1) + |items[k - 1].signals|
  }

  lemma {:induction false} OffsetGrows(items: seq<PduItem>, j: nat, k: nat)
    requires j <= k <= |items|
    ensures Offset(items, j) <= Offset(items, k)
  {
    if j < k { OffsetGrows(items, j, k - 1); }
  }

  /** The number of PDUs whose direction ranks below `rank`. */
  function Below(items: seq<PduItem>, rank: nat): (r: nat)
    ensures r <= |items|
  {
    if items == [] then 0
    else Below(items[..|items| - 1], rank) + if items[|items| - 1].dir.Rank() < rank then 1 else 0
  }

  lemma {:induction false} BelowIsPrefix(items: seq<PduItem>, rank: nat, k: nat)
    requires SortedByDirection(items) && k < |items|
    ensures k < Below(items, rank) <==> items[k].dir.Rank() < rank
  {
    var n := |items| - 1;
    if n > 0 {
      BelowIsPrefix(items[..n], rank, if k < n then k else n - 1);
    }
  }

  lemma {:induction false} BelowGrows(items: seq<PduItem>, a: nat, b: nat)
    requires a <= b
    ensures Below(items, a) <= Below(items, b)
  {
    if items != [] { BelowGrows(items[..|items| - 1], a, b); }
  }

  /** The rows from `a` up to `b`. */
  function Rows(a: nat, b: nat): (r: seq<nat>)
    requires a <= b
    ensures |r| == b - a
    ensures forall i :: 0 <= i < |r| ==> r[i] == a + i
  {
    seq(b - a, i requires 0 <= i < b - a => a + i)
  }

  /** The columns and rows of one direction. */
  function RangeOf(items: seq<PduItem>, d: Direction): Range {
    var a, b := Below(items, d.Rank()), Below(items, d.Rank() + 1);
    BelowGrows(items, d.Rank(), d.Rank() + 1);
    OffsetGrows(items, a, b);
    Range(d, Offset(items, a), Offset(items, b) - Offset(items, a), Rows(a, b))
  }

  /** The ranges of the directions ranking below `rank`: none for DirNone, none without signals. */
  function RangesBelow(items: seq<PduItem>, rank: nat): seq<Range>
    requires rank <= 3
  {
    (if rank > 1 && RangeOf(items, DirRx).length > 0 then [RangeOf(items, DirRx)] else []) +
    (if rank > 2 && RangeOf(items, DirTx).length > 0 then [RangeOf(items, DirTx)] else [])
  }

  function Ranges(items: seq<PduItem>): seq<Range> {
    RangesBelow(items, 3)
  }

  predicate RowHolds(items: seq<PduItem>, k: nat, row: PduRow)
    requires k < |items|
  {
    row == PduRow(items[k], k, Offset(items, k), |items[k].signals|)
  }

  /** Row `k`, column `j` of the columns built from the first `n` PDUs. */
  predicate ColumnsHold(items: seq<PduItem>, n: nat, pduIdx: seq<nat>, signalIdx: seq<nat>, info: seq<Signal>)
    requires n <= |items|
  {
    && |pduIdx| == |signalIdx| == |info| == Offset(items, n)
    && forall i :: 0 <= i < |pduIdx| ==> ColumnHolds(items, n, i, pduIdx[i], signalIdx[i], info[i])
  }

  /** Column `i` is the signal `s` of row `k`. */
  predicate ColumnHolds(items: seq<PduItem>, n: nat, i: nat, k: nat, s: nat, info: Signal)
    requires n <= |items|
  {
    && k < n
    && s < |items[k].signals|
    && i == Offset(items, k) + s
    && info == items[k].signals[s]
  }

  // ---------------------------------------------------------------------------------------------
  // What the layout means
  // ---------------------------------------------------------------------------------------------

  /** The columns of different rows do not meet. */
  lemma RowsDoNotMeet(items: seq<PduItem>, j: nat, s: nat, k: nat, t: nat)
    requires j < |items| && s < |items[j].signals| && k < |items| && t < |items[k].signals|
    requires Offset(items, j) + s == Offset(items, k) + t
    ensures j == k && s == t
  {
    if j < k { OffsetGrows(items, j + 1, k); }
    if k < j { OffsetGrows(items, k + 1, j); }
  }

  /** The index columns invert `(row, signal) -> offset + signal`. */
  lemma IndexInverts(items: seq<PduItem>, pduIdx: seq<nat>, signalIdx: seq<nat>, info: seq<Signal>, k: nat, s: nat)
    requires ColumnsHold(items, |items|, pduIdx, signalIdx, info)
    requires k < |items| && s < |items[k].signals|
    ensures var i := Offset(items, k) + s;
            i < |pduIdx| && pduIdx[i] == k && signalIdx[i] == s && info[i] == items[k].signals[s]
  {
    var i := Offset(items, k) + s;
    OffsetGrows(items, k + 1, |items|);
    assert ColumnHolds(items, |items|, i, pduIdx[i], signalIdx[i], info[i]);
    RowsDoNotMeet(items, k, s, pduIdx[i], signalIdx[i]);
  }

  predicate InRange(r: Range, i: nat) {
    r.offset <= i < r.offset + r.length
  }

  /** Where a column lies relative to row `a`. */
  lemma ColumnBefore(items: seq<PduItem>, k: nat, s: nat, a: nat)
    requires k < |items| && s < |items[k].signals| && a <= |items|
    ensures Offset(items, k) + s < Offset(items, a) <==> k < a
  {
    if k < a { OffsetGrows(items, k + 1, a); } else { OffsetGrows(items, a, k); }
  }

  /** A column is in the range of a direction exactly if its PDU has that direction. */
  lemma RangeIsDirection(items: seq<PduItem>, d: Direction, k: nat, s: nat)
    requires SortedByDirection(items) && k < |items| && s < |items[k].signals|
    ensures InRange(RangeOf(items, d), Offset(items, k) + s) <==> items[k].dir == d
    ensures k in RangeOf(items, d).pdus <==> items[k].dir == d
  {
    hide Offset, Below;
    var a, b := Below(items, d.Rank()), Below(items, d.Rank() + 1);
    BelowGrows(items, d.Rank(), d.Rank() + 1);
    BelowIsPrefix(items, d.Rank(), k);
    BelowIsPrefix(items, d.Rank() + 1, k);
    OffsetGrows(items, a, b);
    ColumnBefore(items, k, s, a);
    ColumnBefore(items, k, s, b);
    assert a <= k < b <==> items[k].dir == d;
    if a <= k < b { assert Rows(a, b)[k - a] == k; }
  }

  /**
   A column of an Rx or Tx PDU is in exactly one of the emitted ranges, the one of its direction;
   other columns are in none.
   */
  lemma RangesCover(items: seq<PduItem>, k: nat, s: nat)
    requires SortedByDirection(items) && k < |items| && s < |items[k].signals|
    ensures var i := Offset(items, k) + s;
            && (forall r :: r in Ranges(items) && InRange(r, i) ==> r.dir == items[k].dir)
            && ((exists r :: r in Ranges(items) && InRange(r, i)) <==> items[k].dir != DirNone)
  {
    hide Offset, Below, Rows, SortedByDirection;
    var i := Offset(items, k) + s;
    var rx, tx := RangeOf(items, DirRx), RangeOf(items, DirTx);
    RangeIsDirection(items, DirRx, k, s);
    RangeIsDirection(items, DirTx, k, s);
    assert forall r :: r in Ranges(items) ==> r == rx || r == tx;
    assert rx.length > 0 ==> rx in Ranges(items);
    assert tx.length > 0 ==> tx in Ranges(items);
  }

  lemma {:induction false} AllBelow(items: seq<PduItem>)
    ensures Below(items, 3) == |items| && Below(items, 0) == 0
  {
    if items != [] { AllBelow(items[..|items| - 1]); }
  }

  /** A range lists the rows of its direction, in order and without others. */
  lemma RangeRows(items: seq<PduItem>, r: Range)
    requires SortedByDirection(items) && r in Ranges(items)
    ensures forall k: nat :: k in r.pdus <==> k < |items| && items[k].dir == r.dir
    ensures forall i, j :: 0 <= i < j < |r.pdus| ==> r.pdus[i] < r.pdus[j]
    ensures r == RangeOf(items, r.dir)
  {
    hide Below, SortedByDirection;
    var a, b := Below(items, r.dir.Rank()), Below(items, r.dir.Rank() + 1);
    BelowGrows(items, r.dir.Rank(), r.dir.Rank() + 1);
    assert r == RangeOf(items, r.dir) && r.pdus == Rows(a, b);
    forall k: nat ensures k in r.pdus <==> k < |items| && items[k].dir == r.dir {
      if k < |items| {
        BelowIsPrefix(items, r.dir.Rank(), k);
        BelowIsPrefix(items, r.dir.Rank() + 1, k);
      }
      if a <= k < b {
        assert r.pdus[k - a] == k;
      }
    }
  }

  /** The order of the rows: those without a direction, then those received, then those sent. */
  lemma RowOrder(items: seq<PduItem>)
    ensures SortedByDirection(items) <==>
            forall i, j :: 0 <= i < j < |items| ==>
              (items[j].dir == DirNone ==> items[i].dir == DirNone) && (items[j].dir == DirRx ==> items[i].dir != DirTx)
  {
  }

  /** The emitted ranges follow each other without gap or overlap up to the last column. */
  lemma RangesAdjoin(items: seq<PduItem>)
    ensures forall r :: r in Ranges(items) ==> r.length > 0 && r.dir != DirNone
    ensures |Ranges(items)| == 2 ==> Ranges(items)[0].offset + Ranges(items)[0].length == Ranges(items)[1].offset
    ensures Ranges(items) != [] ==>
              var last := Ranges(items)[|Ranges(items)| - 1]; last.offset + last.length == Offset(items, |items|)
  {
    AllBelow(items);
    BelowGrows(items, 1, 2);
    BelowGrows(items, 2, 3);
    OffsetGrows(items, Below(items, 2), |items|);
  }

  // ---------------------------------------------------------------------------------------------
  // Building it
  // ---------------------------------------------------------------------------------------------

  class SignalMatrix {
    var pdus: seq<PduRow>
    var pduIdx: seq<nat>
    var signalIdx: seq<nat>
    var info: seq<Signal>
    var ranges: seq<Range>
    var count: nat

    function Items(): seq<PduItem>
      reads this
    {
      seq(|pdus|, k requires 0 <= k < |pdus| reads this => pdus[k].item)
    }

    /** The whole layout. */
    predicate Laid()
      reads this
    {
      var items := Items();
      && SortedByDirection(items)
      && count == Offset(items, |items|)
      && (forall k :: 0 <= k < |pdus| ==> RowHolds(items, k, pdus[k]))
      && ColumnsHold(items, |items|, pduIdx, signalIdx, info)
      && ranges == Ranges(items)
    }

    /** Build the matrix: sort the PDUs, number them, push the columns, emit the ranges. */
    method Transform(items: seq<PduItem>)
      modifies this
      ensures Laid() && multiset(Items()) == multiset(items)
    {
      var sorted := SortByDirection(items);
      count := CountSignals(items);
      TotalIsSame(items, sorted);
      PushRows(sorted);
      ranges := EmitRanges(sorted, pdus);
      assert Items() == sorted;
    }

    /** Signal `s` of row `k` has its column, and lists its row and itself there. */
    lemma ColumnOf(k: nat, s: nat)
      requires Laid() && k < |pdus| && s < |pdus[k].item.signals|
      ensures pdus[k].idx == k && pdus[k].count == |pdus[k].item.signals|
      ensures var i := pdus[k].offset + s;
              && i < |pduIdx| == |signalIdx| == |info| == count
              && pduIdx[i] == k && signalIdx[i] == s && info[i] == pdus[k].item.signals[s]
      ensures k == 0 ==> pdus[k].offset == 0
      ensures k > 0 ==> pdus[k].offset == pdus[k - 1].offset + pdus[k - 1].count
    {
      hide Ranges, SortedByDirection, ColumnHolds, Offset;
      var items := Items();
      if k > 0 {
        OffsetNext(items, k - 1);
      } else {
        NoRanges(items);
      }
      assert RowHolds(items, k, pdus[k]) && (k > 0 ==> RowHolds(items, k - 1, pdus[k - 1]));
      IndexInverts(items, pduIdx, signalIdx, info, k, s);
    }

    /** A column is in the range of the direction of its row, which lists the row, and in no other range. */
    lemma RangeOfColumn(k: nat, s: nat, r: Range)
      requires Laid() && k < |pdus| && s < |pdus[k].item.signals|
      ensures pdus[k].item.dir != DirNone <==>
              exists q :: q in ranges && q.offset <= pdus[k].offset + s < q.offset + q.length
      ensures r in ranges && r.offset <= pdus[k].offset + s < r.offset + r.length ==>
                r.dir == pdus[k].item.dir && k in r.pdus
      ensures r in ranges && r.dir == pdus[k].item.dir ==>
                r.offset <= pdus[k].offset + s < r.offset + r.length && k in r.pdus
    {
      hide Ranges, SortedByDirection, ColumnHolds, ColumnsHold, Offset;
      var items, i := Items(), pdus[k].offset + s;
      assert RowHolds(items, k, pdus[k]);
      RangesCover(items, k, s);
      if q :| q in ranges && q.offset <= i < q.offset + q.length {
        assert InRange(q, i);
      }
      if q :| q in ranges && InRange(q, i) {
        assert q.offset <= i < q.offset + q.length;
      }
      if r in ranges {
        RangeRows(items, r);
        RangeIsDirection(items, r.dir, k, s);
      }
    }

    /** The rows are those without a direction, then those received, then those sent. */
    lemma RowsAre(i: nat, j: nat)
      requires Laid() && i < j < |pdus|
      ensures pdus[j].item.dir == DirNone ==> pdus[i].item.dir == DirNone
      ensures pdus[j].item.dir == DirRx ==> pdus[i].item.dir != DirTx
    {
      RowOrder(Items());
      assert Items()[i] == pdus[i].item && Items()[j] == pdus[j].item;
    }

    method PushRows(sorted: seq<PduItem>)
      modifies this`pdus, this`pduIdx, this`signalIdx, this`info
      ensures |pdus| == |sorted| && forall j :: 0 <= j < |sorted| ==> RowHolds(sorted, j, pdus[j])
      ensures ColumnsHold(sorted, |sorted|, pduIdx, signalIdx, info)
    {
      hide ColumnHolds;
      pdus, pduIdx, signalIdx, info := [], [], [], [];
      var offset := 0;
      for k := 0 to |sorted|
        invariant offset == Offset(sorted, k) && |pdus| == k
        invariant forall j :: 0 <= j < k ==> RowHolds(sorted, j, pdus[j])
        invariant ColumnsHold(sorted, k, pduIdx, signalIdx, info)
      {
        pdus := pdus + [PduRow(sorted[k], k, offset, |sorted[k].signals|)];
        PushColumns(sorted, k);
        offset := offset + |sorted[k].signals|;
      }
    }

    /** Push one column for every signal of row `k`. */
    method PushColumns(ghost items: seq<PduItem>, k: nat)
      requires k < |items| && k < |pdus| && pdus[k].item == items[k]
      requires ColumnsHold(items, k, pduIdx, signalIdx, info)
      modifies this`pduIdx, this`signalIdx, this`info
      ensures ColumnsHold(items, k + 1, pduIdx, signalIdx, info)
    {
      var signals := pdus[k].item.signals;
      for s := 0 to |signals|
        invariant |pduIdx| == |signalIdx| == |info| == Offset(items, k) + s
        invariant forall i :: 0 <= i < |pduIdx| ==> ColumnHolds(items, k + 1, i, pduIdx[i], signalIdx[i], info[i])
      {
        pduIdx := pduIdx + [k];
        signalIdx := signalIdx + [s];
        info := info + [signals[s]];
      }
    }
  }

  method CountSignals(items: seq<PduItem>) returns (total: nat)
    ensures total == Offset(items, |items|)
  {
    total := 0;
    for i := 0 to |items|
      invariant total == Offset(items, i)
    {
      total := total + |items[i].signals|;
    }
  }

  /** The contract of the sort: the same PDUs in ascending direction. */
  method SortByDirection(items: seq<PduItem>) returns (sorted: seq<PduItem>)
    ensures SortedByDirection(sorted) && multiset(sorted) == multiset(items)
  {
    sorted := [];
    for i := 0 to |items|
      invariant SortedByDirection(sorted) && multiset(sorted) == multiset(items[..i])
    {
      assert items[..i + 1] == items[..i] + [items[i]];
      sorted := Insert(sorted, items[i]);
    }
    assert items[..|items|] == items;
  }

  method Insert(items: seq<PduItem>, x: PduItem) returns (r: seq<PduItem>)
    requires SortedByDirection(items)
    ensures SortedByDirection(r) && multiset(r) == multiset(items) + multiset{x}
  {
    hide SortedByDirection;
    var at := 0;
    while at < |items| && items[at].dir.Rank() <= x.dir.Rank()
      invariant at <= |items|
      invariant forall j :: 0 <= j < at ==> items[j].dir.Rank() <= x.dir.Rank()
    {
      at := at + 1;
    }
    r := items[..at] + [x] + items[at..];
    InsertedIsSorted(items, at, x);
    assert r[at] == x && r[..at] == items[..at] && r[at + 1..] == items[at..];
    assert items == items[..at] + items[at..];
    Without(r, at);
  }

  lemma InsertedIsSorted(items: seq<PduItem>, at: nat, x: PduItem)
    requires SortedByDirection(items) && at <= |items|
    requires forall j :: 0 <= j < at ==> items[j].dir.Rank() <= x.dir.Rank()
    requires at < |items| ==> x.dir.Rank() <= items[at].dir.Rank()
    ensures SortedByDirection(items[..at] + [x] + items[at..])
  {
    var r := items[..at] + [x] + items[at..];
    forall i, j | 0 <= i < j < |r| ensures r[i].dir.Rank() <= r[j].dir.Rank() {
      var a, b := if i < at then i else i - 1, if j < at then j else j - 1;
      if i != at && j != at {
        assert r[i] == items[a] && r[j] == items[b];
      }
    }
  }

  /** The number of signals depends only on which PDUs there are. */
  lemma {:induction false} TotalIsSame(a: seq<PduItem>, b: seq<PduItem>)
    requires multiset(a) == multiset(b)
    ensures Offset(a, |a|) == Offset(b, |b|)
    decreases |a|
  {
    if a == [] {
      assert |multiset(b)| == |b|;
    } else {
      var n := |a| - 1;
      assert a[n] in multiset(b);
      var j :| 0 <= j < |b| && b[j] == a[n];
      SameWithout(a, b, j);
      TotalIsSame(a[..n], b[..j] + b[j + 1..]);
      OffsetPrefix(a, a[..n], n);
      OffsetWithout(b, j, |b|);
    }
  }

  lemma Without(b: seq<PduItem>, j: nat)
    requires j < |b|
    ensures multiset(b) == multiset(b[..j] + b[j + 1..]) + multiset{b[j]}
  {
    assert b == (b[..j] + [b[j]]) + b[j + 1..];
  }

  lemma SameWithout(a: seq<PduItem>, b: seq<PduItem>, j: nat)
    requires multiset(a) == multiset(b) && a != [] && j < |b| && b[j] == a[|a| - 1]
    ensures multiset(a[..|a| - 1]) == multiset(b[..j] + b[j + 1..])
  {
    Without(b, j);
    Without(a, |a| - 1);
    assert a[..|a| - 1] + a[|a| - 1 + 1..] == a[..|a| - 1];
    assert multiset(a[..|a| - 1]) == multiset(a) - multiset{b[j]};
    assert multiset(b[..j] + b[j + 1..]) == multiset(b) - multiset{b[j]};
  }

  lemma {:induction false} OffsetPrefix(a: seq<PduItem>, b: seq<PduItem>, k: nat)
    requires k <= |a| && k <= |b| && a[..k] == b[..k]
    ensures Offset(a, k) == Offset(b, k)
  {
    if k > 0 {
      assert a[..k - 1] == a[..k][..k - 1] && a[k - 1] == a[..k][k - 1];
      assert b[..k - 1] == b[..k][..k - 1] && b[k - 1] == b[..k][k - 1];
      OffsetPrefix(a, b, k - 1);
    }
  }

  lemma {:induction false} OffsetWithout(b: seq<PduItem>, j: nat, k: nat)
    requires j < k <= |b|
    ensures Offset(b, k) == Offset(b[..j] + b[j + 1..], k - 1) + |b[j].signals|
  {
    if k - 1 > j {
      OffsetWithout(b, j, k - 1);
    } else {
      OffsetPrefix(b, b[..j] + b[j + 1..], j);
    }
  }

  /** Walk the sorted PDUs and emit a range where the direction changes. */
  method EmitRanges(ghost items: seq<PduItem>, pdus: seq<PduRow>) returns (ranges: seq<Range>)
    requires SortedByDirection(items) && |pdus| == |items|
    requires forall k :: 0 <= k < |pdus| ==> RowHolds(items, k, pdus[k])
    ensures ranges == Ranges(items)
  {
    hide Below, Offset, RangesBelow;
    var sigCount: nat, sigOffset: nat, d := 0, 0, DirNone;
    NoRanges(items);
    var list: seq<nat> := [];
    ranges := [];
    ghost var first := 0;
    AllBelow(items);
    for i := 0 to |pdus|
      invariant first <= i && first == Below(items, d.Rank())
      invariant forall k :: first <= k < i ==> items[k].dir == d
      invariant sigOffset == Offset(items, first) && sigOffset + sigCount == Offset(items, i)
      invariant list == Rows(first, i)
      invariant ranges == RangesBelow(items, d.Rank())
    {
      var o := pdus[i];
      OffsetNext(items, i);
      if o.item.dir == d {
        sigCount := sigCount + o.count;
        list := list + [o.idx];
      } else {
        GroupEnds(items, d, first, i);
        if sigCount > 0 {
          if d != DirNone {
            ranges := ranges + [Range(d, sigOffset, sigCount, list)];
          }
          sigOffset := sigOffset + sigCount;
        }
        NothingBetween(items, d, o.item.dir.Rank(), i);
        sigCount := o.count;
        d := o.item.dir;
        list := [o.idx];
        first := i;
      }
    }
    GroupEnds(items, d, first, |items|);
    if sigCount > 0 && d != DirNone {
      ranges := ranges + [Range(d, sigOffset, sigCount, list)];
    }
    NothingBetween(items, d, 3, |items|);
  }

  lemma NoRanges(items: seq<PduItem>)
    ensures Offset(items, 0) == 0 && RangesBelow(items, 0) == []
  {
  }

  lemma OffsetNext(items: seq<PduItem>, k: nat)
    requires k < |items|
    ensures Offset(items, k + 1) == Offset(items, k) + |items[k].signals|
  {
  }

  /** What is emitted for the rows from `a` up to `b`, if their direction is `d`. */
  function Emitted(items: seq<PduItem>, d: Direction, a: nat, b: nat): seq<Range>
    requires a <= b <= |items|
  {
    OffsetGrows(items, a, b);
    if d == DirNone || Offset(items, b) == Offset(items, a) then []
    else [Range(d, Offset(items, a), Offset(items, b) - Offset(items, a), Rows(a, b))]
  }

  /** The PDUs of direction `d` end at `i`, where another direction begins or the list ends. */
  lemma GroupEnds(items: seq<PduItem>, d: Direction, first: nat, i: nat)
    requires SortedByDirection(items) && first <= i <= |items| && first == Below(items, d.Rank())
    requires forall k :: first <= k < i ==> items[k].dir == d
    requires i < |items| ==> items[i].dir != d
    ensures Below(items, d.Rank() + 1) == i
    ensures RangesBelow(items, d.Rank() + 1) == RangesBelow(items, d.Rank()) + Emitted(items, d, first, i)
    ensures i < |items| ==> Below(items, items[i].dir.Rank()) == i && d.Rank() < items[i].dir.Rank()
  {
    hide Below, Offset, Rows, RangesBelow;
    BelowGrows(items, d.Rank(), d.Rank() + 1);
    if i < |items| {
      BelowIsPrefix(items, d.Rank(), i);
      BelowIsPrefix(items, d.Rank() + 1, i);
      BelowIsPrefix(items, items[i].dir.Rank(), i);
    }
    if i > 0 {
      BelowIsPrefix(items, d.Rank(), i - 1);
      BelowIsPrefix(items, d.Rank() + 1, i - 1);
      if i < |items| { BelowIsPrefix(items, items[i].dir.Rank(), i - 1); }
    }
    OneMoreRange(items, d);
  }

  lemma OneMoreRange(items: seq<PduItem>, d: Direction)
    ensures var a, b := Below(items, d.Rank()), Below(items, d.Rank() + 1);
            && a <= b
            && RangesBelow(items, d.Rank() + 1) == RangesBelow(items, d.Rank()) + Emitted(items, d, a, b)
  {
    hide Below, Offset, Rows;
    BelowGrows(items, d.Rank(), d.Rank() + 1);
  }

  /** The directions between `d` and the next one in the list have no PDUs, so no range. */
  lemma NothingBetween(items: seq<PduItem>, d: Direction, rank: nat, i: nat)
    requires d.Rank() < rank <= 3 && i <= |items|
    requires Below(items, d.Rank() + 1) == i == Below(items, rank)
    ensures RangesBelow(items, rank) == RangesBelow(items, d.Rank() + 1)
  {
    if rank == 3 && d == DirNone {
      BelowGrows(items, 1, 2);
      BelowGrows(items, 2, 3);
    }
  }
}
