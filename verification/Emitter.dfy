/**
 The paged emitter of the flatbuffer builder: a circular doubly linked list of fixed-size pages with
 a front and a back cursor. Pages from `front` to `back` hold the content, the others wait for reuse.

 Whatever happens with pages, the emitter behaves as a byte deque: `content` is that deque, and every
 method says what it does to it.
 */
module Emitter {
  import opened Bytes

  /** 3000 rounded down to a multiple of 128. */
  const PAGE_SIZE: nat := 2944

  // ---------------------------------------------------------------------------------------------
  // Page buffers as values
  // ---------------------------------------------------------------------------------------------

  /** The bytes of several buffers, in order. */
  function Concat(parts: seq<seq<byte>>): seq<byte> {
    if parts == [] then [] else parts[0] + Concat(parts[1..])
  }

  lemma {:induction false} ConcatAppend(a: seq<seq<byte>>, b: seq<seq<byte>>)
    ensures Concat(a + b) == Concat(a) + Concat(b)
  {
    if a == [] {
      assert a + b == b;
    } else {
      assert (a + b)[1..] == a[1..] + b;
      ConcatAppend(a[1..], b);
    }
  }

  lemma ConcatOne(part: seq<byte>)
    ensures Concat([part]) == part
  {
    assert [part][1..] == [];
  }

  /** The cursors are inside the first and the last of `n` pages, and in order if it is the same page. */
  predicate CursorsFit(bufs: seq<seq<byte>>, n: nat, front: nat, back: nat) {
    && 1 <= n <= |bufs| && front <= PAGE_SIZE && back <= PAGE_SIZE
    && (n == 1 ==> front <= back)
    && forall i :: 0 <= i < |bufs| ==> |bufs[i]| == PAGE_SIZE
  }

  /** What the first `n` pages hold between the cursors. */
  function Layout(bufs: seq<seq<byte>>, n: nat, front: nat, back: nat): seq<byte>
    requires CursorsFit(bufs, n, front, back)
  {
    if n == 1 then bufs[0][front..back]
    else bufs[0][front..] + Concat(bufs[1..n - 1]) + bufs[n - 1][..back]
  }

  /** A full first page moves to second place when an empty page is put before it. */
  lemma LayoutPageBefore(buf: seq<byte>, bufs: seq<seq<byte>>, n: nat, back: nat)
    requires CursorsFit(bufs, n, 0, back) && |buf| == PAGE_SIZE
    ensures CursorsFit([buf] + bufs, n + 1, PAGE_SIZE, back)
    ensures Layout([buf] + bufs, n + 1, PAGE_SIZE, back) == Layout(bufs, n, 0, back)
  {
    var bufs' := [buf] + bufs;
    if n == 1 {
      assert bufs'[1..1] == [];
    } else {
      assert bufs'[1..n][0] == bufs[0] && bufs'[1..n][1..] == bufs[1..n - 1];
      assert bufs[0][0..] == bufs[0];
    }
  }

  /** Behind a full last page, an empty page adds nothing. */
  lemma LayoutPageAfter(bufs: seq<seq<byte>>, n: nat, front: nat)
    requires CursorsFit(bufs, n, front, PAGE_SIZE) && n + 1 <= |bufs|
    ensures CursorsFit(bufs, n + 1, front, 0)
    ensures Layout(bufs, n + 1, front, 0) == Layout(bufs, n, front, PAGE_SIZE)
  {
    if n == 1 {
      assert bufs[1..1] == [];
      assert bufs[0][front..] == bufs[0][front..PAGE_SIZE];
    } else {
      assert bufs[1..n] == bufs[1..n - 1] + [bufs[n - 1]];
      ConcatAppend(bufs[1..n - 1], [bufs[n - 1]]);
      ConcatOne(bufs[n - 1]);
    }
  }

  /** The same with a page that is put there first. */
  lemma LayoutPageAppended(buf: seq<byte>, bufs: seq<seq<byte>>, n: nat, front: nat)
    requires CursorsFit(bufs, n, front, PAGE_SIZE) && n == |bufs| && |buf| == PAGE_SIZE
    ensures CursorsFit(bufs + [buf], n + 1, front, 0)
    ensures Layout(bufs + [buf], n + 1, front, 0) == Layout(bufs, n, front, PAGE_SIZE)
  {
    LayoutPrefix(bufs, bufs + [buf], n, front, PAGE_SIZE);
    LayoutPageAfter(bufs + [buf], n, front);
  }

  /** Pages beyond the first `n` do not matter. */
  lemma LayoutPrefix(bufs: seq<seq<byte>>, bufs': seq<seq<byte>>, n: nat, front: nat, back: nat)
    requires CursorsFit(bufs, n, front, back) && CursorsFit(bufs', n, front, back)
    requires bufs[..n] == bufs'[..n]
    ensures Layout(bufs, n, front, back) == Layout(bufs', n, front, back)
  {
    assert forall i :: 0 <= i < n ==> bufs[i] == bufs[..n][i] && bufs'[i] == bufs'[..n][i];
    assert n > 1 ==> bufs[1..n - 1] == bufs'[1..n - 1];
  }

  /** The content of the first `i` of several pages. */
  function Head(bufs: seq<seq<byte>>, front: nat, i: nat): seq<byte>
    requires 1 <= i <= |bufs| && front <= |bufs[0]|
  {
    bufs[0][front..] + Concat(bufs[1..i])
  }

  lemma HeadNext(bufs: seq<seq<byte>>, n: nat, front: nat, back: nat, i: nat)
    requires CursorsFit(bufs, n, front, back) && 1 <= i < n - 1
    ensures Head(bufs, front, i + 1) == Head(bufs, front, i) + bufs[i]
    ensures |Head(bufs, front, i + 1)| <= |Layout(bufs, n, front, back)|
  {
    assert bufs[1..i + 1] == bufs[1..i] + [bufs[i]];
    ConcatAppend(bufs[1..i], [bufs[i]]);
    ConcatOne(bufs[i]);
    assert bufs[1..n - 1] == bufs[1..i + 1] + bufs[i + 1..n - 1];
    ConcatAppend(bufs[1..i + 1], bufs[i + 1..n - 1]);
  }

  lemma HeadEnds(bufs: seq<seq<byte>>, n: nat, front: nat, back: nat)
    requires CursorsFit(bufs, n, front, back) && 1 < n
    ensures Head(bufs, front, 1) == bufs[0][front..]
    ensures Layout(bufs, n, front, back) == Head(bufs, front, n - 1) + bufs[n - 1][..back]
    ensures |Head(bufs, front, 1)| <= |Layout(bufs, n, front, back)|
  {
    assert bufs[1..1] == [];
  }

  lemma LayoutEmpty(bufs: seq<seq<byte>>, cursor: nat)
    requires CursorsFit(bufs, 1, cursor, cursor)
    ensures Layout(bufs, 1, cursor, cursor) == []
  {
  }

  lemma OnePage(bufs: seq<seq<byte>>, front: nat, back: nat)
    requires CursorsFit(bufs, 1, front, back)
    ensures Layout(bufs, 1, front, back) == bufs[0][front..front + (back - front)]
  {
  }

  /** `buf` with `data` written at `at`. */
  function Written(buf: seq<byte>, at: nat, data: seq<byte>): (r: seq<byte>)
    requires at + |data| <= |buf|
    ensures |r| == |buf|
  {
    buf[..at] + data + buf[at + |data|..]
  }

  lemma WrittenAtStart(buf: seq<byte>, data: seq<byte>)
    requires |data| <= |buf|
    ensures Written(buf, 0, data) == data + buf[|data|..]
  {
  }

  lemma WrittenFront(buf: seq<byte>, at: nat, data: seq<byte>, back: nat)
    requires at + |data| <= |buf|
    ensures Written(buf, at, data)[at..] == data + buf[at + |data|..]
    ensures at + |data| <= back <= |buf| ==> Written(buf, at, data)[at..back] == data + buf[at + |data|..back]
  {
  }

  lemma Prepended(data: seq<byte>, a: seq<byte>, b: seq<byte>, c: seq<byte>)
    ensures (data + a) + b + c == data + (a + b + c)
  {
  }

  /** Writing just before the front cursor prepends. */
  lemma LayoutWriteFront(bufs: seq<seq<byte>>, n: nat, front: nat, back: nat, data: seq<byte>)
    requires CursorsFit(bufs, n, front, back) && |data| <= front
    ensures var bufs' := bufs[0 := Written(bufs[0], front - |data|, data)];
            CursorsFit(bufs', n, front - |data|, back)
            && Layout(bufs', n, front - |data|, back) == data + Layout(bufs, n, front, back)
  {
    hide Written, Concat;
    var at := front - |data|;
    var bufs' := bufs[0 := Written(bufs[0], at, data)];
    WrittenFront(bufs[0], at, data, back);
    if n > 1 {
      assert bufs'[1..n - 1] == bufs[1..n - 1];
      Prepended(data, bufs[0][front..], Concat(bufs[1..n - 1]), bufs[n - 1][..back]);
    }
  }

  /** Writing at the back cursor appends. */
  lemma LayoutWriteBack(bufs: seq<seq<byte>>, n: nat, front: nat, back: nat, data: seq<byte>)
    requires CursorsFit(bufs, n, front, back) && back + |data| <= PAGE_SIZE
    ensures var bufs' := bufs[n - 1 := Written(bufs[n - 1], back, data)];
            CursorsFit(bufs', n, front, back + |data|)
            && Layout(bufs', n, front, back + |data|) == Layout(bufs, n, front, back) + data
  {
    var bufs' := bufs[n - 1 := Written(bufs[n - 1], back, data)];
    assert bufs'[n - 1][..back + |data|] == bufs[n - 1][..back] + data;
    if n == 1 {
      assert bufs'[0][front..back + |data|] == bufs[0][front..back] + data;
    } else {
      assert bufs'[1..n - 1] == bufs[1..n - 1];
    }
  }

  // ---------------------------------------------------------------------------------------------
  // The ring of pages
  // ---------------------------------------------------------------------------------------------

  class Page {
    const page: array<byte>
    var next: Page
    var prev: Page
    var pageOffset: int

    constructor ()
      ensures fresh(page) && page.Length == PAGE_SIZE
      ensures next == this && prev == this
    {
      page := new byte[PAGE_SIZE];
      next, prev, pageOffset := this, this, 0;
    }
  }

  /** memcpy */
  method CopyBytes(dst: array<byte>, at: nat, src: seq<byte>)
    requires at + |src| <= dst.Length
    modifies dst
    ensures dst[..] == Written(old(dst[..]), at, src)
  {
    forall i | 0 <= i < |src| {
      dst[at + i] := src[i];
    }
  }

  lemma WrittenTwice(buf: seq<byte>, at: nat, a: seq<byte>, b: seq<byte>)
    requires at + |a| + |b| <= |buf|
    ensures Written(Written(buf, at, a), at + |a|, b) == Written(buf, at, a + b)
  {
  }

  lemma ConcatNext(parts: seq<seq<byte>>, i: nat)
    requires i < |parts|
    ensures Concat(parts[..i + 1]) == Concat(parts[..i]) + parts[i]
    ensures Concat(parts[i..]) == parts[i] + Concat(parts[i + 1..])
    ensures |Concat(parts[..i + 1])| <= |Concat(parts)|
  {
    assert parts[..i + 1] == parts[..i] + [parts[i]];
    ConcatAppend(parts[..i], [parts[i]]);
    ConcatOne(parts[i]);
    assert parts[i..][1..] == parts[i + 1..];
    assert parts == parts[..i + 1] + parts[i + 1..];
    ConcatAppend(parts[..i + 1], parts[i + 1..]);
  }

  /** A tail of part `i` and everything behind it is a tail of the whole. */
  lemma ConcatSuffix(parts: seq<seq<byte>>, i: nat, n: nat)
    requires i < |parts| && n <= |parts[i]|
    ensures var m := |Concat(parts[..i])| + n;
            m <= |Concat(parts)| && Concat(parts)[m..] == parts[i][n..] + Concat(parts[i + 1..])
  {
    assert parts == parts[..i] + parts[i..];
    ConcatAppend(parts[..i], parts[i..]);
    ConcatNext(parts, i);
  }

  /** Everything before part `i` and a head of it is a head of the whole. */
  lemma ConcatPrefix(parts: seq<seq<byte>>, i: nat, n: nat)
    requires i < |parts| && n <= |parts[i]|
    ensures var m := |Concat(parts[..i])| + n;
            m <= |Concat(parts)| && Concat(parts)[..m] == Concat(parts[..i]) + parts[i][..n]
  {
    assert parts == parts[..i] + parts[i..];
    ConcatAppend(parts[..i], parts[i..]);
    ConcatNext(parts, i);
  }

  lemma SplitTail(data: seq<byte>, i: nat, j: nat, base: seq<byte>)
    requires i <= j <= |data|
    ensures data[i..j] + (data[j..] + base) == data[i..] + base
  {
  }

  lemma SplitHead(base: seq<byte>, data: seq<byte>, i: nat, j: nat)
    requires i <= j <= |data|
    ensures (base + data[..i]) + data[i..j] == base + data[..j]
  {
  }

  datatype Op = Emit(atFront: bool, data: seq<byte>) | Reset

  /** The deque after a sequence of successful operations. */
  function DequeAfter(ops: seq<Op>): seq<byte> {
    if ops == [] then []
    else
      match ops[|ops| - 1]
      case Emit(atFront, data) => Emitted(DequeAfter(ops[..|ops| - 1]), atFront, data)
      case Reset => []
  }

  /** The data emitted at one end since the last reset, latest first at the front, latest last at the back. */
  function EndBytes(ops: seq<Op>, atFront: bool): seq<byte> {
    if ops == [] then []
    else
      match ops[|ops| - 1]
      case Emit(end, data) =>
        var before := EndBytes(ops[..|ops| - 1], atFront);
        if end != atFront then before else if atFront then data + before else before + data
      case Reset => []
  }

  /** The finished buffer is the front emits, latest first, followed by the back emits in order. */
  lemma {:induction false} DequeLayout(ops: seq<Op>)
    ensures DequeAfter(ops) == EndBytes(ops, true) + EndBytes(ops, false)
  {
    if ops != [] {
      var init := ops[..|ops| - 1];
      DequeLayout(init);
      match ops[|ops| - 1]
      case Emit(atFront, data) =>
        if atFront {
          Associative(data, EndBytes(init, true), EndBytes(init, false));
        } else {
          Associative(EndBytes(init, true), EndBytes(init, false), data);
        }
      case Reset =>
    }
  }

  /** Some tail of `data` has been put before `base`. */
  predicate PartBefore(content: seq<byte>, data: seq<byte>, base: seq<byte>) {
    exists n :: 0 <= n <= |data| && content == data[n..] + base
  }

  /** Some head of `data` has been put behind `base`. */
  predicate PartBehind(content: seq<byte>, data: seq<byte>, base: seq<byte>) {
    exists n :: 0 <= n <= |data| && content == base + data[..n]
  }

  lemma PartBeforeAt(content: seq<byte>, data: seq<byte>, n: nat, base: seq<byte>)
    requires n <= |data| && content == data[n..] + base
    ensures PartBefore(content, data, base)
  {
  }

  lemma PartBehindAt(content: seq<byte>, data: seq<byte>, n: nat, base: seq<byte>)
    requires n <= |data| && content == base + data[..n]
    ensures PartBehind(content, data, base)
  {
  }

  lemma PartsBefore(content: seq<byte>, parts: seq<seq<byte>>, i: nat, base: seq<byte>)
    requires i < |parts| && PartBefore(content, parts[i], Concat(parts[i + 1..]) + base)
    ensures PartBefore(content, Concat(parts), base)
  {
    var n :| 0 <= n <= |parts[i]| && content == parts[i][n..] + (Concat(parts[i + 1..]) + base);
    PartsBeforeAt(content, parts, i, n, base);
  }

  lemma PartsBeforeAt(content: seq<byte>, parts: seq<seq<byte>>, i: nat, n: nat, base: seq<byte>)
    requires i < |parts| && n <= |parts[i]| && content == parts[i][n..] + (Concat(parts[i + 1..]) + base)
    ensures PartBefore(content, Concat(parts), base)
  {
    hide Concat, PartBefore;
    ConcatSuffix(parts, i, n);
    Associative(parts[i][n..], Concat(parts[i + 1..]), base);
    PartBeforeAt(content, Concat(parts), |Concat(parts[..i])| + n, base);
  }

  lemma Associative(a: seq<byte>, b: seq<byte>, c: seq<byte>)
    ensures a + (b + c) == (a + b) + c
  {
  }

  lemma PartsBehind(content: seq<byte>, parts: seq<seq<byte>>, i: nat, base: seq<byte>)
    requires i < |parts| && PartBehind(content, parts[i], base + Concat(parts[..i]))
    ensures PartBehind(content, Concat(parts), base)
  {
    var n :| 0 <= n <= |parts[i]| && content == (base + Concat(parts[..i])) + parts[i][..n];
    hide Concat, PartBehind;
    ConcatPrefix(parts, i, n);
    Associative(base, Concat(parts[..i]), parts[i][..n]);
    PartBehindAt(content, Concat(parts), |Concat(parts[..i])| + n, base);
  }

  /** What an emit does to the deque. */
  function Emitted(content: seq<byte>, atFront: bool, data: seq<byte>): seq<byte> {
    if atFront then data + content else content + data
  }

  /** Copy an I/O vector, part by part. */
  method CopyParts(dst: array<byte>, at: nat, parts: seq<seq<byte>>)
    requires at + |Concat(parts)| <= dst.Length
    modifies dst
    ensures dst[..] == Written(old(dst[..]), at, Concat(parts))
  {
    hide Concat, Written;
    var p := at;
    assert Concat(parts[..0]) == [] && dst[..] == Written(dst[..], at, []) by {
      WrittenNothing(dst[..], at);
    }
    for i := 0 to |parts|
      invariant p == at + |Concat(parts[..i])| && p <= dst.Length
      invariant dst[..] == Written(old(dst[..]), at, Concat(parts[..i]))
    {
      ConcatNext(parts, i);
      WrittenTwice(old(dst[..]), at, Concat(parts[..i]), parts[i]);
      CopyBytes(dst, p, parts[i]);
      p := p + |parts[i]|;
    }
    assert parts[..|parts|] == parts;
  }

  lemma WrittenNothing(buf: seq<byte>, at: nat)
    requires at <= |buf|
    ensures Written(buf, at, []) == buf && Concat([]) == []
  {
  }

  /** Neighbours point at each other, and the ends meet. */
  ghost predicate Ring(pages: seq<Page>)
    reads pages`next, pages`prev
  {
    && (forall i {:trigger pages[i].next} :: 0 <= i < |pages| - 1 ==> pages[i].next == pages[i + 1])
    && (forall i {:trigger pages[i].prev} :: 1 <= i < |pages| ==> pages[i].prev == pages[i - 1])
    && (pages != [] ==> pages[|pages| - 1].next == pages[0] && pages[0].prev == pages[|pages| - 1])
  }

  /** Pages and their buffers are all different objects. */
  predicate Distinct(pages: seq<Page>) {
    && (forall i, j :: 0 <= i < j < |pages| ==> pages[i] != pages[j] && pages[i].page != pages[j].page)
    && (forall i :: 0 <= i < |pages| ==> pages[i].page.Length == PAGE_SIZE)
  }

  /** Consecutive pages in use are a page size apart. */
  ghost predicate Paced(pages: seq<Page>, n: nat)
    requires n <= |pages|
    reads pages`pageOffset
  {
    forall i, j {:trigger pages[i].pageOffset, pages[j].pageOffset} :: 0 <= i && j == i + 1 && j < n ==>
      pages[j].pageOffset == pages[i].pageOffset + PAGE_SIZE
  }

  lemma DistinctFrom(pages: seq<Page>, k: nat)
    requires Distinct(pages) && k < |pages|
    ensures forall i {:trigger pages[i]} :: 0 <= i < |pages| && i != k ==> pages[i] != pages[k]
  {
  }

  lemma BuffersDistinctFrom(pages: seq<Page>, k: nat)
    requires Distinct(pages) && k < |pages|
    ensures forall i {:trigger pages[i]} :: 0 <= i < |pages| && i != k ==> pages[i].page != pages[k].page
    ensures forall i {:trigger pages[i]} :: 0 <= i < |pages| ==> pages[i].page.Length == PAGE_SIZE
  {
  }

  lemma DistinctEnds(pages: seq<Page>, p: Page)
    requires Distinct(pages) && p !in pages && p.page !in PageBuffers(pages) && p.page.Length == PAGE_SIZE
    ensures Distinct(pages + [p]) && Distinct([p] + pages)
  {
  }

  lemma RingAt(pages: seq<Page>, i: nat)
    requires Ring(pages) && i < |pages|
    ensures pages[i].next == if i == |pages| - 1 then pages[0] else pages[i + 1]
    ensures pages[i].prev == if i == 0 then pages[|pages| - 1] else pages[i - 1]
  {
  }

  /** Closing the gap over the second page leaves a ring. */
  twostate lemma Unlinked(pages: seq<Page>)
    requires 1 < |pages| && old(Ring(pages)) && Distinct(pages)
    requires pages[0].next == old(pages[1].next) && old(pages[1].next).prev == pages[0]
    requires forall p :: p in pages && p != pages[0] ==> p.next == old(p.next)
    requires forall p :: p in pages && p != old(pages[1].next) ==> p.prev == old(p.prev)
    ensures Ring([pages[0]] + pages[2..]) && Distinct([pages[0]] + pages[2..])
  {
    var rest := [pages[0]] + pages[2..];
    forall i {:trigger rest[i].next} | 0 <= i < |rest| - 1 ensures rest[i].next == rest[i + 1] {
      if i > 0 { assert rest[i] == pages[i + 1]; }
    }
  }

  lemma PacedBefore(p: Page, pages: seq<Page>, n: nat)
    requires 1 <= n <= |pages| && Paced(pages, n) && p.pageOffset == pages[0].pageOffset - PAGE_SIZE
    ensures Paced([p] + pages, n + 1)
  {
  }

  lemma PacedAfter(pages: seq<Page>, n: nat)
    requires 1 <= n < |pages| && Paced(pages, n) && pages[n].pageOffset == pages[n - 1].pageOffset + PAGE_SIZE
    ensures Paced(pages, n + 1)
  {
  }

  lemma PacedOne(pages: seq<Page>)
    requires pages != []
    ensures Paced(pages, 1)
  {
  }

  lemma PacedAppend(pages: seq<Page>, p: Page)
    requires pages != [] && Paced(pages, |pages|) && p.pageOffset == pages[|pages| - 1].pageOffset + PAGE_SIZE
    ensures Paced(pages + [p], |pages| + 1)
  {
    PacedPrefix(pages, pages + [p], |pages|);
    PacedAfter(pages + [p], |pages|);
  }

  lemma PacedPrefix(pages: seq<Page>, pages': seq<Page>, n: nat)
    requires n <= |pages| && n <= |pages'| && pages[..n] == pages'[..n] && Paced(pages, n)
    ensures Paced(pages', n)
  {
    forall i, j {:trigger pages'[i].pageOffset, pages'[j].pageOffset} | 0 <= i && j == i + 1 && j < n
      ensures pages'[j].pageOffset == pages'[i].pageOffset + PAGE_SIZE
    {
      assert pages'[i] == pages'[..n][i] == pages[i] && pages'[j] == pages'[..n][j] == pages[j];
    }
  }

  /** A ring read from its last page on is a ring. */
  lemma Rotated(pages: seq<Page>)
    requires pages != [] && Ring(pages) && Distinct(pages)
    ensures Ring([pages[|pages| - 1]] + pages[..|pages| - 1])
    ensures Distinct([pages[|pages| - 1]] + pages[..|pages| - 1])
  {
  }

  /** The first page stays, and of the others the first ones are gone. */
  predicate Shortened(was: seq<Page>, now: seq<Page>) {
    1 <= |now| <= |was| && now == [was[0]] + was[|was| - |now| + 1..]
  }

  function PageBuffers(pages: seq<Page>): (r: set<array<byte>>)
    ensures forall p :: p in pages ==> p.page in r
  {
    set p: Page | p in pages :: p.page
  }

  /** A snapshot of the page buffers. */
  ghost function Buffers(pages: seq<Page>): (r: seq<seq<byte>>)
    reads PageBuffers(pages)
    ensures |r| == |pages|
    ensures forall i :: 0 <= i < |pages| ==> r[i] == pages[i].page[..]
  {
    seq(|pages|, i requires 0 <= i < |pages| reads PageBuffers(pages) => pages[i].page[..])
  }

  lemma BuffersOfPrepended(p: Page, pages: seq<Page>)
    ensures Buffers([p] + pages) == [p.page[..]] + Buffers(pages)
  {
  }

  lemma BuffersOfAppended(pages: seq<Page>, p: Page)
    ensures Buffers(pages + [p]) == Buffers(pages) + [p.page[..]]
  {
  }

  lemma BuffersUpdated(pages: seq<Page>, k: nat, bufs: seq<seq<byte>>, buf: seq<byte>)
    requires k < |pages| == |bufs| && pages[k].page[..] == buf
    requires forall i {:trigger pages[i]} :: 0 <= i < |pages| && i != k ==> pages[i].page[..] == bufs[i]
    ensures Buffers(pages) == bufs[k := buf]
  {
  }

  /** The page before the front page is the back page exactly when no page is free. */
  lemma FreePage(pages: seq<Page>, n: nat)
    requires Ring(pages) && Distinct(pages) && 1 <= n <= |pages|
    ensures pages[0].prev == pages[n - 1] <==> n == |pages|
    ensures pages[n - 1].next == pages[0] <==> n == |pages|
  {
    RingAt(pages, 0);
    RingAt(pages, n - 1);
  }

  /** Reading the free last page as the first one changes nothing that is in use. */
  lemma BuffersOfRotated(pages: seq<Page>, n: nat, back: nat)
    requires 1 <= n < |pages| && CursorsFit(Buffers(pages), n, 0, back)
    ensures var bufs := Buffers([pages[|pages| - 1]] + pages[..|pages| - 1]);
            && CursorsFit(bufs, n + 1, PAGE_SIZE, back)
            && Layout(bufs, n + 1, PAGE_SIZE, back) == Layout(Buffers(pages), n, 0, back)
  {
    hide Layout, Buffers;
    var last, init := pages[|pages| - 1], pages[..|pages| - 1];
    BuffersOfPrepended(last, init);
    assert Buffers(pages)[..n] == Buffers(init)[..n];
    LayoutPrefix(Buffers(pages), Buffers(init), n, 0, back);
    LayoutPageBefore(last.page[..], Buffers(init), n, back);
  }

  /** Nor does putting a new page first, */
  lemma BuffersWithFront(p: Page, pages: seq<Page>, n: nat, back: nat)
    requires CursorsFit(Buffers(pages), n, 0, back) && p.page.Length == PAGE_SIZE
    ensures var bufs := Buffers([p] + pages);
            && CursorsFit(bufs, n + 1, PAGE_SIZE, back)
            && Layout(bufs, n + 1, PAGE_SIZE, back) == Layout(Buffers(pages), n, 0, back)
  {
    hide Layout, Buffers, CursorsFit;
    BuffersOfPrepended(p, pages);
    LayoutPageBefore(p.page[..], Buffers(pages), n, back);
  }

  /** or last, when no page is free. */
  lemma BuffersWithBack(p: Page, pages: seq<Page>, front: nat)
    requires CursorsFit(Buffers(pages), |pages|, front, PAGE_SIZE) && p.page.Length == PAGE_SIZE
    ensures var bufs := Buffers(pages + [p]);
            && CursorsFit(bufs, |pages| + 1, front, 0)
            && Layout(bufs, |pages| + 1, front, 0) == Layout(Buffers(pages), |pages|, front, PAGE_SIZE)
  {
    hide Layout, CursorsFit;
    BuffersOfAppended(pages, p);
    LayoutPageAppended(p.page[..], Buffers(pages), |pages|, front);
  }

  /** Bytes in `n` pages. */
  function CapacityOf(n: nat): nat {
    n * PAGE_SIZE
  }

  lemma CapacityGrows(n: nat)
    ensures CapacityOf(n + 1) == CapacityOf(n) + PAGE_SIZE
  {
  }

  class Emitter {
    var front: Page?
    var back: Page?
    var frontCursor: nat
    var frontLeft: nat
    var backCursor: nat
    var backLeft: nat
    var used: nat
    var capacity: nat
    var usedAverage: nat

    /** The ring from `front` on; its first `active` pages are in use. */
    ghost var ring: seq<Page>
    ghost var active: nat
    /** The deque, and how many of its bytes were emitted at the front. */
    ghost var content: seq<byte>
    ghost var frontTotal: nat

    /** The ring is well linked, front and back are where they should be, and the capacity counts the pages. */
    ghost predicate Linked()
      reads this, ring
    {
      && Ring(ring) && Distinct(ring)
      && capacity == CapacityOf(|ring|)
      && (front == null ==> back == null && ring == [] && active == 0)
      && (front != null ==> 1 <= active <= |ring| && front == ring[0] && back == ring[active - 1])
    }

    /** The cursors delimit the content. */
    ghost predicate Holds()
      reads this, ring, PageBuffers(ring)
    {
      if front == null then
        content == [] && frontLeft == 0 && backLeft == 0
      else
        && frontCursor == frontLeft && backCursor + backLeft == PAGE_SIZE
        && CursorsFit(Buffers(ring), active, frontCursor, backCursor)
        && content == Layout(Buffers(ring), active, frontCursor, backCursor)
    }

    /** Page offsets count from the first byte emitted at the back: front emits are negative. */
    ghost predicate Offsets()
      reads this, ring
      requires Linked()
    {
      if front == null then
        frontTotal == 0
      else
        Paced(ring, active) && ring[0].pageOffset + frontCursor + frontTotal == 0
    }

    /** All but `used`, which runs ahead of the content while an emit is under way. */
    ghost predicate Wf()
      reads this, ring, PageBuffers(ring)
    {
      Linked() && Holds() && Offsets()
    }

    ghost predicate Valid()
      reads this, ring, PageBuffers(ring)
    {
      Wf() && used == |content|
    }

    /** The pages are old ones or new ones. */
    twostate predicate OnlyNewPages()
      reads this
    {
      forall p :: p in ring ==> p in old(ring) || (fresh(p) && fresh(p.page))
    }

    constructor ()
      ensures Valid() && content == [] && ring == [] && usedAverage == 0 && frontTotal == 0
    {
      front, back := null, null;
      frontCursor, frontLeft, backCursor, backLeft := 0, 0, 0, 0;
      used, capacity, usedAverage := 0, 0, 0;
      ring, active, content, frontTotal := [], 0, [], 0;
    }

    /** An allocation, which may fail. */
    static method Alloc() returns (p: Page?)
      ensures p != null ==> fresh(p) && fresh(p.page) && p.page.Length == PAGE_SIZE
    {
      if * {
        p := null;
      } else {
        p := new Page();
      }
    }

    /** The first page is shared: the front gets its lower half and the back its upper half. */
    method FirstPage(p: Page)
      requires Linked() && front == null && frontTotal == 0 && p.page.Length == PAGE_SIZE
      modifies this`front, this`back, this`frontCursor, this`backCursor, this`frontLeft, this`backLeft,
               this`capacity, this`ring, this`active, p`next, p`prev, p`pageOffset
      ensures Linked() && Offsets() && front != null && ring == [p] && active == 1
      ensures frontCursor == frontLeft == backCursor == backLeft == PAGE_SIZE / 2
    {
      capacity := capacity + PAGE_SIZE;
      front := p;
      back := p;
      p.next := p;
      p.prev := p;
      frontCursor := PAGE_SIZE / 2;
      backCursor := frontCursor;
      frontLeft := PAGE_SIZE / 2;
      backLeft := PAGE_SIZE - frontLeft;
      p.pageOffset := 0 - PAGE_SIZE / 2;
      ring := [p];
      active := 1;
    }

    /** Link a new page between the back page and the front page, when no free page is there. */
    method LinkPage(p: Page)
      requires Linked() && front != null && active == |ring|
      requires p !in ring && p.page !in PageBuffers(ring) && p.page.Length == PAGE_SIZE
      modifies this`capacity, p`next, p`prev, ring`next, ring`prev
      ensures capacity == CapacityOf(|ring| + 1)
      ensures Ring(ring + [p]) && Ring([p] + ring)
    {
      hide CapacityOf;
      CapacityGrows(|ring|);
      capacity := capacity + PAGE_SIZE;
      p.prev := back;
      p.next := front;
      front.prev := p;
      back.next := p;
    }

    /** Turn the free page before the front page into the front page. */
    method ReuseFrontPage()
      requires Linked() && front != null && Paced(ring, active) && active < |ring|
      modifies this`front, this`ring, this`active, ring`pageOffset
      ensures Linked() && front != null && Paced(ring, active) && active == old(active) + 1
      ensures ring == old([ring[|ring| - 1]] + ring[..|ring| - 1])
      ensures ring[0].pageOffset == old(ring[0].pageOffset) - PAGE_SIZE
    {
      hide Ring, Distinct, CapacityOf, Paced;
      ghost var init := ring[..|ring| - 1];
      RingAt(ring, 0);
      DistinctFrom(ring, |ring| - 1);
      PacedPrefix(ring, init, active);
      front.prev.pageOffset := front.pageOffset - PAGE_SIZE;
      front := front.prev;
      Rotated(ring);
      ring := [ring[|ring| - 1]] + init;
      active := active + 1;
      RingAt(ring, 0);
      front.pageOffset := front.next.pageOffset - PAGE_SIZE;
      PacedBefore(front, init, active - 1);
    }

    /** Link a new page and make it the front page. */
    method NewFrontPage(p: Page)
      requires Linked() && front != null && Paced(ring, active) && active == |ring|
      requires p !in ring && p.page !in PageBuffers(ring) && p.page.Length == PAGE_SIZE
      modifies this`front, this`capacity, this`ring, this`active, p`next, p`prev, p`pageOffset, ring`next, ring`prev
      ensures Linked() && front != null && Paced(ring, active) && active == old(active) + 1
      ensures ring == [p] + old(ring)
      ensures ring[0].pageOffset == old(ring[0].pageOffset) - PAGE_SIZE
    {
      hide Ring, Distinct, CapacityOf, Paced;
      DistinctEnds(ring, p);
      LinkPage(p);
      front := p;
      ghost var pages := ring;
      ring := [p] + ring;
      active := active + 1;
      RingAt(ring, 0);
      front.pageOffset := front.next.pageOffset - PAGE_SIZE;
      PacedBefore(p, pages, active - 1);
    }

    /** Turn the free page behind the back page into the back page. */
    method ReuseBackPage()
      requires Linked() && front != null && Paced(ring, active) && active < |ring|
      modifies this`back, this`active, ring`pageOffset
      ensures Linked() && front != null && Paced(ring, active) && active == old(active) + 1
      ensures ring[0].pageOffset == old(ring[0].pageOffset)
    {
      hide Ring, Distinct, CapacityOf, Paced;
      RingAt(ring, active - 1);
      RingAt(ring, active);
      DistinctFrom(ring, active);
      PacedPrefix(ring, ring[..active], active);
      back := back.next;
      active := active + 1;
      back.pageOffset := back.prev.pageOffset + PAGE_SIZE;
      PacedPrefix(ring[..active - 1], ring, active - 1);
      PacedAfter(ring, active - 1);
    }

    /** Link a new page and make it the back page. */
    method NewBackPage(p: Page)
      requires Linked() && front != null && Paced(ring, active) && active == |ring|
      requires p !in ring && p.page !in PageBuffers(ring) && p.page.Length == PAGE_SIZE
      modifies this`back, this`capacity, this`ring, this`active, p`next, p`prev, p`pageOffset, ring`next, ring`prev
      ensures Linked() && front != null && Paced(ring, active) && active == old(active) + 1
      ensures ring == old(ring) + [p]
      ensures ring[0].pageOffset == old(ring[0].pageOffset)
    {
      hide Ring, Distinct, CapacityOf, Paced;
      DistinctEnds(ring, p);
      LinkPage(p);
      back := p;
      ghost var pages := ring;
      ring := ring + [p];
      active := active + 1;
      RingAt(ring, active - 1);
      back.pageOffset := back.prev.pageOffset + PAGE_SIZE;
      PacedAppend(pages, p);
    }

    /** Continue on the free page before the front page. */
    method ContinueFrontOnFreePage()
      requires Wf() && frontLeft == 0 && front != null && active < |ring|
      modifies this`front, this`ring, this`active, this`frontCursor, this`frontLeft, ring`pageOffset
      ensures Wf() && front != null && frontLeft == PAGE_SIZE
      ensures ring == old([ring[|ring| - 1]] + ring[..|ring| - 1])
    {
      hide Layout, Buffers, Ring, Distinct, Paced, CapacityOf;
      BuffersOfRotated(ring, active, backCursor);
      ghost var pages := [ring[|ring| - 1]] + ring[..|ring| - 1];
      ghost var bufs := Buffers(pages);
      ReuseFrontPage();
      assert Buffers(ring) == bufs;
      frontCursor := PAGE_SIZE;
      frontLeft := PAGE_SIZE;
      assert Buffers(ring) == bufs && Linked() && Offsets();
    }

    /** Continue on a new page. */
    method ContinueFrontOnNewPage(p: Page)
      requires Wf() && frontLeft == 0 && front != null && active == |ring|
      requires p !in ring && p.page !in PageBuffers(ring) && p.page.Length == PAGE_SIZE
      modifies this`front, this`capacity, this`ring, this`active, this`frontCursor, this`frontLeft,
               p`next, p`prev, p`pageOffset, ring`next, ring`prev
      ensures Wf() && front != null && frontLeft == PAGE_SIZE
      ensures ring == [p] + old(ring)
    {
      hide Layout, CursorsFit, Buffers, Ring, Distinct, Paced, CapacityOf;
      BuffersWithFront(p, ring, active, backCursor);
      ghost var pages := [p] + ring;
      ghost var bufs := Buffers(pages);
      NewFrontPage(p);
      assert Linked();
      frontCursor := PAGE_SIZE;
      frontLeft := PAGE_SIZE;
      assert Buffers(ring) == bufs && Linked() && Offsets();
    }

    /** Make room at the front: on the page before the front page if it is free, or else on a new one. */
    method AdvanceFront() returns (rc: int)
      requires Wf() && frontLeft == 0
      modifies this, ring
      ensures Wf() && OnlyNewPages()
      ensures content == old(content) && frontTotal == old(frontTotal)
      ensures used == old(used) && usedAverage == old(usedAverage)
      ensures rc == 0 ==> front != null && 0 < frontLeft
      ensures rc == 0 || rc == -1
      ensures old(active < |ring|) ==> rc == 0 && ring == old([ring[|ring| - 1]] + ring[..|ring| - 1])
      ensures old(active == |ring|) ==> ring == if rc == 0 then [ring[0]] + old(ring) else old(ring)
    {
      hide Layout, Buffers, Ring, Distinct, Paced, CapacityOf;
      if front != null {
        FreePage(ring, active);
      }
      if front != null && front.prev != back {
        ContinueFrontOnFreePage();
        return 0;
      }
      ghost var bufs := Buffers(ring);
      var p := Alloc();
      assert Buffers(ring) == bufs && Linked() && Offsets();
      if p == null {
        return -1;
      }
      if front == null {
        FirstPage(p);
        LayoutEmpty(Buffers(ring), frontCursor);
      } else {
        ContinueFrontOnNewPage(p);
      }
      return 0;
    }

    /** Continue on the free page behind the back page. */
    method ContinueBackOnFreePage()
      requires Wf() && backLeft == 0 && front != null && active < |ring|
      modifies this`back, this`active, this`backCursor, this`backLeft, ring`pageOffset
      ensures Wf() && front != null && backLeft == PAGE_SIZE
    {
      hide Layout, Buffers, Ring, Distinct, Paced, CapacityOf;
      LayoutPageAfter(Buffers(ring), active, frontCursor);
      ghost var bufs := Buffers(ring);
      ReuseBackPage();
      assert Buffers(ring) == bufs;
      backCursor := 0;
      backLeft := PAGE_SIZE;
      assert Buffers(ring) == bufs && Linked() && Offsets();
    }

    /** Continue on a new page. */
    method ContinueBackOnNewPage(p: Page)
      requires Wf() && backLeft == 0 && front != null && active == |ring|
      requires p !in ring && p.page !in PageBuffers(ring) && p.page.Length == PAGE_SIZE
      modifies this`back, this`capacity, this`ring, this`active, this`backCursor, this`backLeft,
               p`next, p`prev, p`pageOffset, ring`next, ring`prev
      ensures Wf() && front != null && backLeft == PAGE_SIZE
      ensures ring == old(ring) + [p]
    {
      hide Layout, CursorsFit, Buffers, Ring, Distinct, Paced, CapacityOf;
      BuffersWithBack(p, ring, frontCursor);
      ghost var pages := ring + [p];
      ghost var bufs := Buffers(pages);
      NewBackPage(p);
      assert ring == pages && Buffers(ring) == bufs;
      backCursor := 0;
      backLeft := PAGE_SIZE;
      assert Buffers(ring) == bufs && Linked() && Offsets();
    }

    /** Make room at the back: on the page behind the back page if it is free, or else on a new one. */
    method AdvanceBack() returns (rc: int)
      requires Wf() && backLeft == 0
      modifies this, ring
      ensures Wf() && OnlyNewPages()
      ensures content == old(content) && frontTotal == old(frontTotal)
      ensures used == old(used) && usedAverage == old(usedAverage)
      ensures rc == 0 ==> front != null && 0 < backLeft
      ensures rc == 0 || rc == -1
      ensures old(active < |ring|) ==> rc == 0 && ring == old(ring)
      ensures old(active == |ring|) ==> ring == if rc == 0 then old(ring) + [ring[|ring| - 1]] else old(ring)
    {
      hide Layout, Buffers, Ring, Distinct, Paced, CapacityOf;
      if front != null {
        FreePage(ring, active);
      }
      if back != null && back.next != front {
        ContinueBackOnFreePage();
        return 0;
      }
      ghost var bufs := Buffers(ring);
      var p := Alloc();
      assert Buffers(ring) == bufs && Linked() && Offsets();
      if p == null {
        return -1;
      }
      if front == null {
        FirstPage(p);
        LayoutEmpty(Buffers(ring), frontCursor);
      } else {
        ContinueBackOnNewPage(p);
      }
      return 0;
    }

    /** Write a chunk that fits before the front cursor. */
    method WriteFront(chunk: seq<byte>)
      requires Wf() && front != null && |chunk| <= frontLeft
      modifies this`frontCursor, this`frontLeft, this`frontTotal, this`content, front.page
      ensures Wf() && frontLeft == old(frontLeft) - |chunk|
      ensures content == chunk + old(content) && frontTotal == old(frontTotal) + |chunk|
    {
      hide Layout, Buffers, Ring, Distinct, Paced, CapacityOf, Written;
      ghost var bufs := Buffers(ring);
      LayoutWriteFront(bufs, active, frontCursor, backCursor, chunk);
      BuffersDistinctFrom(ring, 0);
      ghost var bufs' := bufs[0 := Written(bufs[0], frontCursor - |chunk|, chunk)];
      frontCursor := frontCursor - |chunk|;
      frontLeft := frontLeft - |chunk|;
      CopyBytes(front.page, frontCursor, chunk);
      content := chunk + content;
      frontTotal := frontTotal + |chunk|;
      assert Buffers(ring) == bufs' && Linked() && Offsets();
    }

    /** Copy data to the front, last byte first, page by page. */
    method CopyFront(data: seq<byte>) returns (rc: int)
      requires Wf()
      modifies this, ring, PageBuffers(ring)
      ensures Wf() && OnlyNewPages() && used == old(used) && usedAverage == old(usedAverage)
      ensures rc == 0 || rc == -1
      ensures rc == 0 ==> content == data + old(content)
      ensures rc == 0 ==> frontTotal == old(frontTotal) + |data|
      ensures rc == -1 ==> PartBefore(content, data, old(content))
    {
      hide Layout, Buffers, Ring, Distinct, Paced, CapacityOf;
      var size := |data|;
      while size > 0
        invariant 0 <= size <= |data|
        invariant Wf() && OnlyNewPages() && used == old(used) && usedAverage == old(usedAverage)
        invariant content == data[size..] + old(content)
        invariant frontTotal == old(frontTotal) + |data| - size
        decreases size, if frontLeft == 0 then 1 else 0
      {
        var k := size;
        if k > frontLeft {
          k := frontLeft;
          if k == 0 {
            rc := AdvanceFront();
            if rc != 0 {
              return -1;
            }
            continue;
          }
        }
        WriteFront(data[size - k..size]);
        SplitTail(data, size - k, size, old(content));
        size := size - k;
      }
      return 0;
    }

    /** Write a chunk that fits behind the back cursor. */
    method WriteBack(chunk: seq<byte>)
      requires Wf() && front != null && |chunk| <= backLeft
      modifies this`backCursor, this`backLeft, this`content, back.page
      ensures Wf() && backLeft == old(backLeft) - |chunk|
      ensures content == old(content) + chunk
    {
      hide Layout, Buffers, Ring, Distinct, Paced, CapacityOf, Written;
      ghost var bufs := Buffers(ring);
      LayoutWriteBack(bufs, active, frontCursor, backCursor, chunk);
      BuffersDistinctFrom(ring, active - 1);
      ghost var bufs' := bufs[active - 1 := Written(bufs[active - 1], backCursor, chunk)];
      CopyBytes(back.page, backCursor, chunk);
      backCursor := backCursor + |chunk|;
      backLeft := backLeft - |chunk|;
      content := content + chunk;
      assert Buffers(ring) == bufs' && Linked() && Offsets();
    }

    /** Copy data to the back, page by page. */
    method CopyBack(data: seq<byte>) returns (rc: int)
      requires Wf()
      modifies this, ring, PageBuffers(ring)
      ensures Wf() && OnlyNewPages() && used == old(used) && usedAverage == old(usedAverage)
      ensures rc == 0 || rc == -1
      ensures rc == 0 ==> content == old(content) + data
      ensures rc == 0 ==> frontTotal == old(frontTotal)
      ensures rc == -1 ==> PartBehind(content, data, old(content))
    {
      hide Layout, Buffers, Ring, Distinct, Paced, CapacityOf;
      var size := 0;
      while size < |data|
        invariant 0 <= size <= |data|
        invariant Wf() && OnlyNewPages() && used == old(used) && usedAverage == old(usedAverage)
        invariant content == old(content) + data[..size]
        invariant frontTotal == old(frontTotal)
        decreases |data| - size, if backLeft == 0 then 1 else 0
      {
        var k := |data| - size;
        if k > backLeft {
          k := backLeft;
          if k == 0 {
            rc := AdvanceBack();
            if rc != 0 {
              return -1;
            }
            continue;
          }
        }
        WriteBack(data[size..size + k]);
        SplitHead(old(content), data, size, size + k);
        size := size + k;
      }
      assert data[..|data|] == data;
      return 0;
    }

    /** Copy the parts into the front page, below its content. */
    method PutFront(iov: seq<seq<byte>>, length: nat)
      requires Linked() && front != null && length == |Concat(iov)| <= frontLeft == frontCursor <= PAGE_SIZE
      modifies this`frontCursor, this`frontLeft, front.page
      ensures Linked() && frontLeft == frontCursor == old(frontCursor) - length
      ensures Buffers(ring) ==
              old(Buffers(ring))[0 := Written(old(front.page[..]), frontCursor, Concat(iov))]
    {
      hide Layout, Buffers, Ring, Paced, CapacityOf, Written, Concat;
      BuffersDistinctFrom(ring, 0);
      hide Distinct;
      ghost var bufs := Buffers(ring);
      frontCursor := frontCursor - length;
      frontLeft := frontLeft - length;
      CopyParts(front.page, frontCursor, iov);
      BuffersUpdated(ring, 0, bufs, front.page[..]);
    }

    /** Copy the parts into the back page, behind its content. */
    method PutBack(iov: seq<seq<byte>>, length: nat)
      requires Linked() && front != null && backCursor + length <= PAGE_SIZE && length == |Concat(iov)| <= backLeft
      modifies this`backCursor, this`backLeft, back.page
      ensures Linked() && backCursor == old(backCursor) + length && backLeft == old(backLeft) - length
      ensures Buffers(ring) ==
              old(Buffers(ring))[active - 1 := Written(old(back.page[..]), old(backCursor), Concat(iov))]
    {
      hide Layout, Buffers, Ring, Paced, CapacityOf, Written, Concat;
      BuffersDistinctFrom(ring, active - 1);
      hide Distinct;
      ghost var bufs := Buffers(ring);
      CopyParts(back.page, backCursor, iov);
      BuffersUpdated(ring, active - 1, bufs, back.page[..]);
      backCursor := backCursor + length;
      backLeft := backLeft - length;
    }

    /** Emit to the front into the room that is left there. */
    method EmitFrontFast(iov: seq<seq<byte>>, length: nat)
      requires Wf() && length == |Concat(iov)| <= frontLeft
      modifies this`frontCursor, this`frontLeft, this`frontTotal, this`content, PageBuffers(ring)
      ensures Wf() && content == Concat(iov) + old(content) && frontTotal == old(frontTotal) + |Concat(iov)|
    {
      hide Layout, Buffers, Ring, Distinct, Paced, CapacityOf, Written, Concat;
      if front == null {
        return;
      }
      LayoutWriteFront(Buffers(ring), active, frontCursor, backCursor, Concat(iov));
      PutFront(iov, length);
      ghost var bufs := Buffers(ring);
      content := Concat(iov) + content;
      frontTotal := frontTotal + length;
      assert Buffers(ring) == bufs && Linked() && Offsets();
    }

    /** Emit to the back into the room that is left there. */
    method EmitBackFast(iov: seq<seq<byte>>, length: nat)
      requires Wf() && length == |Concat(iov)| <= backLeft
      modifies this`backCursor, this`backLeft, this`content, PageBuffers(ring)
      ensures Wf() && content == old(content) + Concat(iov)
    {
      hide Layout, Buffers, Ring, Distinct, Paced, CapacityOf, Written, Concat;
      if back == null {
        return;
      }
      LayoutWriteBack(Buffers(ring), active, frontCursor, backCursor, Concat(iov));
      PutBack(iov, length);
      ghost var bufs := Buffers(ring);
      content := content + Concat(iov);
      assert Buffers(ring) == bufs && Linked() && Offsets();
    }

    /**
     Emit an I/O vector of `length` bytes, to the front for a negative offset and to the back
     otherwise. Without room on the current page the parts go in one by one, at the front last part
     first. When an allocation fails, a part of the data that touches the old content has been added.
     */
    method Emit(iov: seq<seq<byte>>, offset: int, length: nat) returns (rc: int)
      requires Valid() && length == |Concat(iov)|
      modifies this, ring, PageBuffers(ring)
      ensures Wf() && OnlyNewPages() && usedAverage == old(usedAverage) && used == old(used) + length
      ensures rc == 0 || rc == -1
      ensures rc == 0 ==> Valid() && content == Emitted(old(content), offset < 0, Concat(iov))
      ensures rc == 0 && offset < 0 ==> content == Concat(iov) + old(content)
      ensures rc == 0 && 0 <= offset ==> content == old(content) + Concat(iov)
      ensures rc == 0 ==> frontTotal == old(frontTotal) + if offset < 0 then length else 0
      ensures rc == -1 && offset < 0 ==>
                exists n :: 0 <= n <= |Concat(iov)| && content == Concat(iov)[n..] + old(content)
      ensures rc == -1 && 0 <= offset ==>
                exists n :: 0 <= n <= |Concat(iov)| && content == old(content) + Concat(iov)[..n]
    {
      hide Layout, Buffers, Concat, Linked, Holds, Offsets;
      Count(length);
      if offset < 0 {
        if length <= frontLeft {
          EmitFrontFast(iov, length);
          return 0;
        }
        rc := EmitFrontSlow(iov);
      } else {
        if length <= backLeft {
          EmitBackFast(iov, length);
          return 0;
        }
        rc := EmitBackSlow(iov);
      }
    }

    method Count(length: nat)
      requires Wf()
      modifies this`used
      ensures Wf() && used == old(used) + length
    {
      hide Layout, Buffers, Ring, Distinct, Paced, CapacityOf;
      ghost var bufs := Buffers(ring);
      used := used + length;
      assert Buffers(ring) == bufs && Linked() && Offsets();
    }

    /** The parts to the front, last part first. */
    method EmitFrontSlow(iov: seq<seq<byte>>) returns (rc: int)
      requires Wf()
      modifies this, ring, PageBuffers(ring)
      ensures Wf() && OnlyNewPages() && usedAverage == old(usedAverage) && used == old(used)
      ensures rc == 0 || rc == -1
      ensures rc == 0 ==> content == Concat(iov) + old(content) && frontTotal == old(frontTotal) + |Concat(iov)|
      ensures rc == -1 ==> PartBefore(content, Concat(iov), old(content))
    {
      hide Layout, Buffers, Ring, Distinct, Paced, CapacityOf, Written, Concat, PartBefore, PartBehind;
      WrittenNothing([], 0);
      assert iov[|iov|..] == [];
      var i := |iov|;
      while i > 0
        invariant 0 <= i <= |iov|
        invariant Wf() && OnlyNewPages() && usedAverage == old(usedAverage) && used == old(used)
        invariant content == Concat(iov[i..]) + old(content)
        invariant frontTotal == old(frontTotal) + |Concat(iov[i..])|
      {
        i := i - 1;
        ConcatNext(iov, i);
        Associative(iov[i], Concat(iov[i + 1..]), old(content));
        rc := CopyFront(iov[i]);
        if rc != 0 {
          PartsBefore(content, iov, i, old(content));
          return -1;
        }
      }
      assert iov[0..] == iov;
      return 0;
    }

    /** The parts to the back, in order. */
    method EmitBackSlow(iov: seq<seq<byte>>) returns (rc: int)
      requires Wf()
      modifies this, ring, PageBuffers(ring)
      ensures Wf() && OnlyNewPages() && usedAverage == old(usedAverage) && used == old(used)
      ensures rc == 0 || rc == -1
      ensures rc == 0 ==> content == old(content) + Concat(iov) && frontTotal == old(frontTotal)
      ensures rc == -1 ==> PartBehind(content, Concat(iov), old(content))
    {
      hide Layout, Buffers, Ring, Distinct, Paced, CapacityOf, Written, Concat, PartBefore, PartBehind;
      WrittenNothing([], 0);
      for i := 0 to |iov|
        invariant Wf() && OnlyNewPages() && usedAverage == old(usedAverage) && used == old(used)
        invariant content == old(content) + Concat(iov[..i])
        invariant frontTotal == old(frontTotal)
      {
        ConcatNext(iov, i);
        Associative(old(content), Concat(iov[..i]), iov[i]);
        rc := CopyBack(iov[i]);
        if rc != 0 {
          PartsBehind(content, iov, i, old(content));
          return -1;
        }
      }
      assert iov[..|iov|] == iov;
      return 0;
    }

    /** Unlink and release the free page behind the front page. */
    method ReleaseFreePage()
      requires Linked() && front != null && active == 1 && 1 < |ring|
      modifies this`capacity, this`ring, ring`next, ring`prev
      ensures Linked() && front != null
      ensures ring == old([ring[0]] + ring[2..]) && capacity + PAGE_SIZE == old(capacity)
    {
      hide Ring, Distinct, CapacityOf;
      CapacityGrows(|ring| - 1);
      DistinctFrom(ring, 0);
      RingAt(ring, 0);
      RingAt(ring, 1);
      var p := back.next;
      assert p.next in ring;
      back.next := p.next;
      p.next.prev := back;
      Unlinked(ring);
      capacity := capacity - PAGE_SIZE;
      ring := [ring[0]] + ring[2..];
    }

    /** Release free pages while the capacity exceeds twice the running average of the bytes used. */
    method Trim()
      requires Linked() && front != null && active == 1
      modifies this`capacity, this`ring, ring`next, ring`prev
      ensures Linked() && front != null && front.pageOffset == old(front.pageOffset)
      ensures Shortened(old(ring), ring) && forall p :: p in ring ==> p in old(ring)
      ensures |ring| == 1 || capacity <= usedAverage * 2
      ensures ring != old(ring) ==> usedAverage * 2 < capacity + PAGE_SIZE
    {
      hide Ring, Distinct, CapacityOf;
      FreePage(ring, 1);
      while usedAverage * 2 < capacity && back.next != front
        invariant Linked() && front != null
        invariant Shortened(old(ring), ring)
        invariant ring != old(ring) ==> usedAverage * 2 < capacity + PAGE_SIZE
        invariant back.next == front <==> |ring| == 1
        decreases |ring|
      {
        ReleaseFreePage();
        FreePage(ring, 1);
      }
    }

    /** Put both cursors in the middle of the front page. */
    method Rewind()
      requires Linked() && front != null
      modifies this`back, this`frontCursor, this`backCursor, this`frontLeft, this`backLeft, this`active,
               this`content, this`frontTotal, front`pageOffset
      ensures Linked() && active == 1 && content == [] && frontTotal == 0
      ensures frontCursor == backCursor == frontLeft == backLeft == PAGE_SIZE / 2
      ensures front.pageOffset == 0 - PAGE_SIZE / 2
    {
      hide Ring, Distinct, CapacityOf;
      back := front;
      frontCursor := PAGE_SIZE / 2;
      backCursor := frontCursor;
      frontLeft := PAGE_SIZE / 2;
      backLeft := PAGE_SIZE - PAGE_SIZE / 2;
      active := 1;
      front.pageOffset := 0 - PAGE_SIZE / 2;
      content, frontTotal := [], 0;
    }

    /**
     Forget the content but keep the pages, except those that the running average of the bytes used
     does not justify.
     */
    method Reset()
      requires Valid()
      modifies this, ring
      ensures Valid() && content == []
      ensures (ring == old(ring) || Shortened(old(ring), ring)) && forall p :: p in ring ==> p in old(ring)
      ensures ring != old(ring) ==> usedAverage * 2 < capacity + PAGE_SIZE
      ensures if old(front) == null then unchanged(this) else
                && front == old(front) && used == 0 && frontTotal == 0
                && (|ring| == 1 || capacity <= usedAverage * 2)
      ensures old(front) != null ==>
                var average := if old(usedAverage) == 0 then |old(content)| else old(usedAverage);
                usedAverage == average * 3 / 4 + |old(content)| / 4
    {
      hide Layout, Buffers, Ring, Distinct, Paced, CapacityOf, Shortened;
      if front == null {
        return;
      }
      Rewind();
      if usedAverage == 0 {
        usedAverage := used;
      }
      usedAverage := usedAverage * 3 / 4 + used / 4;
      used := 0;
      Trim();
      NothingHeld();
    }

    /** After rewinding, the first page holds nothing. */
    lemma NothingHeld()
      requires Linked() && front != null && active == 1 && content == [] && frontTotal == 0
      requires frontCursor == backCursor == frontLeft == backLeft == PAGE_SIZE / 2
      requires front.pageOffset == 0 - PAGE_SIZE / 2
      ensures Wf()
    {
      hide Layout, Buffers, Ring, Paced, CapacityOf;
      PacedOne(ring);
      BuffersDistinctFrom(ring, 0);
      hide Distinct;
      assert CursorsFit(Buffers(ring), 1, frontCursor, frontCursor);
      LayoutEmpty(Buffers(ring), frontCursor);
    }

    /** Copy the content of several pages out. */
    method CopyPages(buf: array<byte>)
      requires Valid() && front != null && front != back && used <= buf.Length && buf !in PageBuffers(ring)
      modifies buf
      ensures buf[..] == Written(old(buf[..]), 0, content)
    {
      hide Layout, Buffers, Ring, Distinct, Paced, CapacityOf, Written, Head;
      ghost var bufs := Buffers(ring);
      BuffersDistinctFrom(ring, 0);
      HeadEnds(bufs, active, frontCursor, backCursor);
      var length := PAGE_SIZE - frontLeft;
      CopyBytes(buf, 0, front.page[frontCursor..]);
      var p := front.next;
      ghost var i := 1;
      RingAt(ring, 0);
      DistinctFrom(ring, active - 1);
      while p != back
        invariant 1 <= i <= active - 1 && p == ring[i]
        invariant Buffers(ring) == bufs && Ring(ring)
        invariant length == |Head(bufs, frontCursor, i)| <= |content|
        invariant buf[..] == Written(old(buf[..]), 0, Head(bufs, frontCursor, i))
        decreases active - i
      {
        HeadNext(bufs, active, frontCursor, backCursor, i);
        WrittenTwice(old(buf[..]), 0, Head(bufs, frontCursor, i), bufs[i]);
        CopyBytes(buf, length, p.page[..]);
        length := length + PAGE_SIZE;
        RingAt(ring, i);
        p := p.next;
        i := i + 1;
      }
      WrittenTwice(old(buf[..]), 0, Head(bufs, frontCursor, i), bufs[i][..backCursor]);
      CopyBytes(buf, length, p.page[..PAGE_SIZE - backLeft]);
    }

    /**
     Copy the content out. Nothing is copied when the target is too small or when no page was ever
     used.
     */
    method CopyBuffer(buf: array<byte>, size: nat) returns (copied: bool)
      requires Valid() && size <= buf.Length && buf !in PageBuffers(ring)
      modifies buf
      ensures copied <==> used <= size && front != null
      ensures copied ==> |content| <= size && buf[..] == content + old(buf[..])[|content|..]
      ensures !copied ==> buf[..] == old(buf[..])
    {
      hide Layout, Buffers, Ring, Distinct, Paced, CapacityOf, Written, Head;
      if size < used {
        return false;
      }
      if front == null {
        return false;
      }
      if front == back {
        BuffersDistinctFrom(ring, 0);
        DistinctFrom(ring, 0);
        OnePage(Buffers(ring), frontCursor, backCursor);
        CopyBytes(buf, 0, front.page[frontCursor..frontCursor + used]);
      } else {
        CopyPages(buf);
      }
      WrittenAtStart(old(buf[..]), content);
      return true;
    }
  }

  /**
   A builder's use of a new emitter: any operations, until an allocation fails. The contracts of the
   single operations add up to the deque.
   */
  method Perform(ops: seq<Op>) returns (e: Emitter, ok: bool)
    ensures fresh(e) && e.Wf()
    ensures ok ==> e.Valid() && e.content == DequeAfter(ops) == EndBytes(ops, true) + EndBytes(ops, false)
  {
    hide Layout, Buffers, Ring, Distinct, Paced, CapacityOf, Written, PartBefore, PartBehind, Shortened;
    e := new Emitter();
    for k := 0 to |ops|
      invariant fresh(e) && forall p :: p in e.ring ==> fresh(p) && fresh(p.page)
      invariant e.Valid() && e.content == DequeAfter(ops[..k])
    {
      assert ops[..k + 1][..k] == ops[..k];
      match ops[k]
      case Emit(atFront, data) =>
        ConcatOne(data);
        var rc := e.Emit([data], if atFront then -1 else 0, |data|);
        if rc != 0 {
          return e, false;
        }
      case Reset =>
        e.Reset();
    }
    assert ops[..|ops|] == ops;
    DequeLayout(ops);
    ok := true;
  }
}
