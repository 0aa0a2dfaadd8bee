/** The small-object layer on the page allocator: slab pages cut into bins of five sizes. */
module SmallObjects {
  import opened MemoryMap
  import opened Bits
  import opened Lists
  import opened Buddy
  import opened BuddyRuns
  import opened BuddyReserve

  const MAXBINORDER: nat := 4

  /** `bin[f]` is the size class of the slab page `f`, or -1; `bins[c]` is the free list of class `c`. */
  datatype Heap = Heap(pages: State, bin: seq<int>, bins: seq<seq<nat>>)

  function BinSize(c: nat): (z: nat)
    ensures z >= 0x20
  {
    0x20 * Pow2(c)
  }

  /** Bins of 32, 64, 128, 256 and 512 bytes. */
  lemma {:induction false} BinSizes()
    ensures seq(MAXBINORDER + 1, c requires 0 <= c => BinSize(c)) == [32, 64, 128, 256, 512]
  {
    assert Pow2(0) == 1 && Pow2(1) == 2 && Pow2(2) == 4 && Pow2(3) == 8 && Pow2(4) == 16;
  }

  function FrameOf(a: nat): nat
    requires a >= FRAME_START
  {
    (a - FRAME_START) / PAGE
  }

  ghost predicate Layout(hp: Heap) {
    && Inv(hp.pages, -1) && |hp.bin| == FRAMES && |hp.bins| == MAXBINORDER + 1
    && (forall f :: 0 <= f < FRAMES ==> -1 <= hp.bin[f] <= MAXBINORDER)
  }

  /** `a` is the address of a bin of class `c` in some slab page. */
  ghost predicate IsBin(hp: Heap, a: nat, c: nat)
    requires Layout(hp)
  {
    a >= FRAME_START && FrameOf(a) < FRAMES && hp.bin[FrameOf(a)] == c && (a - FRAME_START) % BinSize(c) == 0
  }

  /** Slab pages are single pages in use; the list of a class holds bins of that class, each once. */
  ghost predicate ValidHeap(hp: Heap) {
    && Layout(hp)
    && (forall f: nat :: f < FRAMES && hp.bin[f] >= 0 ==> UsedHead(hp.pages, f) && hp.pages.val[f] == 0)
    && (forall c: nat :: c <= MAXBINORDER ==> Distinct(hp.bins[c]))
    && (forall c: nat, a: nat :: c <= MAXBINORDER && a in hp.bins[c] ==> IsBin(hp, a, c))
  }

  /** A bin handed out to a caller. */
  ghost predicate LiveBin(hp: Heap, a: nat, c: nat)
    requires Layout(hp)
  {
    c <= MAXBINORDER && IsBin(hp, a, c) && a !in hp.bins[c]
  }

  /** A page handed out to a caller, or reserved. */
  ghost predicate LivePage(hp: Heap, h: nat)
    requires Layout(hp)
  {
    UsedHead(hp.pages, h) && hp.bin[h] == -1
  }

  // ---------------------------------------------------------------- operations

  function ClassFrom(size: nat, i: nat): nat
    decreases MAXBINORDER + 1 - i
  {
    if i > MAXBINORDER then 0 else if size <= BinSize(i) then i else ClassFrom(size, i + 1)
  }

  function Class(size: nat): nat {
    ClassFrom(size, 0)
  }

  lemma {:induction false} ClassFromIsLeast(size: nat, i: nat)
    requires size <= BinSize(MAXBINORDER) && i <= MAXBINORDER
    ensures i <= ClassFrom(size, i) <= MAXBINORDER && size <= BinSize(ClassFrom(size, i))
    ensures forall j :: i <= j < ClassFrom(size, i) ==> size > BinSize(j)
    decreases MAXBINORDER + 1 - i
  {
    if size > BinSize(i) {
      ClassFromIsLeast(size, i + 1);
    }
  }

  /** The first `n` bins of the page at `page` in front of `l`, the last one first. */
  function Filled(page: nat, c: nat, n: nat, l: seq<nat>): seq<nat> {
    if n == 0 then l else [page + (n - 1) * BinSize(c)] + Filled(page, c, n - 1, l)
  }

  /** How many bins fill a page: 0x1000 over the bin size. */
  function BinsPerPage(c: nat): nat
    requires c <= MAXBINORDER
  {
    Pow2(7 - c)
  }

  /** A new slab page for class `c`. */
  ghost function NewSlab(hp: Heap, c: nat): (t: Heap)
    requires Layout(hp) && c <= MAXBINORDER && CanAlloc(hp.pages, 0x1000)
    ensures Layout(t)
  {
    AllocEffect(hp.pages, 0x1000);
    var f := Target(hp.pages, 0x1000);
    Heap(Alloc(hp.pages, 0x1000), hp.bin[f := c], hp.bins[c := Filled(Addr(f), c, BinsPerPage(c), hp.bins[c])])
  }

  /** Class `c` with at least one bin on its list. */
  ghost function Stocked(hp: Heap, c: nat): (t: Heap)
    requires Layout(hp) && c <= MAXBINORDER && (hp.bins[c] != [] || CanAlloc(hp.pages, 0x1000))
    ensures Layout(t)
  {
    if hp.bins[c] == [] then NewSlab(hp, c) else hp
  }

  ghost predicate CanMalloc(hp: Heap, size: nat)
    requires Layout(hp)
  {
    if size <= BinSize(MAXBINORDER) then
      (ClassFromIsLeast(size, 0); hp.bins[Class(size)] != [] || CanAlloc(hp.pages, 0x1000))
    else CanAlloc(hp.pages, size)
  }

  lemma {:induction false} FilledNonempty(page: nat, c: nat, l: seq<nat>)
    requires c <= MAXBINORDER
    ensures BinsPerPage(c) * BinSize(c) == PAGE && BinsPerPage(c) >= 8
    ensures Filled(page, c, BinsPerPage(c), l) != []
  {
    assert Pow2(0) == 1 && Pow2(1) == 2 && Pow2(2) == 4 && Pow2(3) == 8 && Pow2(4) == 16;
  }

  ghost function TakeBin(hp: Heap, c: nat): (r: (Heap, nat))
    requires Layout(hp) && c <= MAXBINORDER && (hp.bins[c] != [] || CanAlloc(hp.pages, 0x1000))
    ensures Layout(r.0)
  {
    var t := Stocked(hp, c);
    FilledNonempty(Addr(if hp.bins[c] == [] then Target(hp.pages, 0x1000) else 0), c, hp.bins[c]);
    (t.(bins := t.bins[c := t.bins[c][1..]]), t.bins[c][0])
  }

  /** `kmalloc`. */
  ghost function Malloc(hp: Heap, size: nat): (r: (Heap, nat))
    requires Layout(hp) && CanMalloc(hp, size)
    ensures Layout(r.0)
  {
    if size <= BinSize(MAXBINORDER) then
      ClassFromIsLeast(size, 0);
      TakeBin(hp, Class(size))
    else
      AllocEffect(hp.pages, size);
      (hp.(pages := Alloc(hp.pages, size)), Addr(Target(hp.pages, size)))
  }

  ghost function ReleaseBin(hp: Heap, a: nat, c: nat): (t: Heap)
    requires Layout(hp) && c <= MAXBINORDER
    ensures Layout(t)
  {
    hp.(bins := hp.bins[c := [a] + hp.bins[c]])
  }

  ghost function ReleasePage(hp: Heap, h: nat): (t: Heap)
    requires Layout(hp) && UsedHead(hp.pages, h)
    ensures Layout(t)
  {
    FreeEffect(hp.pages, h);
    hp.(pages := Free(hp.pages, h))
  }

  /** `kfree`: a pointer into a slab page goes to the bins, unless it is the start of the page. */
  ghost function Release(hp: Heap, a: nat): (t: Heap)
    requires Layout(hp) && a >= FRAME_START && UsedHead(hp.pages, FrameOf(a))
    ensures Layout(t)
  {
    var c := hp.bin[FrameOf(a)];
    if a % PAGE != 0 && c != -1 then ReleaseBin(hp, a, c) else ReleasePage(hp, FrameOf(a))
  }

  // ---------------------------------------------------------------- proofs

  /** A filled list: the old entries and the first `n` bins of the page. */
  lemma {:induction false} FilledMembers(page: nat, c: nat, n: nat, l: seq<nat>)
    requires Distinct(l) && forall a :: a in l ==> a < page || a >= page + n * BinSize(c)
    ensures Distinct(Filled(page, c, n, l))
    ensures forall a: nat :: a in Filled(page, c, n, l) <==> a in l || exists k :: 0 <= k < n && a == page + k * BinSize(c)
  {
    hide BinSize;
    if n > 0 {
      var z := BinSize(c);
      MulLess(n - 1, n, z);
      FilledMembers(page, c, n - 1, l);
      forall k | 0 <= k < n - 1
        ensures k * z < (n - 1) * z
      {
        MulLess(k, n - 1, z);
      }
      assert page + (n - 1) * z !in Filled(page, c, n - 1, l);
    }
  }

  lemma {:induction false} StretchEnd(f: nat, n: nat, z: nat)
    requires n > 0
    ensures (f * n + n - 1) * z + z == f * (n * z) + n * z
  {
    assert (f * n + n - 1) * z + z == (f * n + n) * z;
  }

  lemma {:induction false} MultipleIsPlaced(m: nat, z: nat, n: nat, f: nat)
    requires z > 0 && n > 0 && f * (n * z) <= m * z < f * (n * z) + n * z
    ensures exists k :: 0 <= k < n && m * z == f * (n * z) + k * z
  {
    assert f * (n * z) == (f * n) * z;
    if m < f * n {
      MulLess(m, f * n, z);
      assert false;
    }
    if m >= f * n + n {
      MulLess(f * n + n - 1, m, z);
      StretchEnd(f, n, z);
      assert false;
    }
    var k := m - f * n;
    assert m * z == (f * n) * z + k * z;
  }

  lemma {:induction false} PlacedIsMultiple(x: nat, z: nat, n: nat, f: nat, k: nat)
    requires z > 0 && k < n && x == f * (n * z) + k * z
    ensures n * z > 0 && x / (n * z) == f && x % z == 0
  {
    MulLess(k, n, z);
    DivUnique(x, n * z, f, k * z);
    assert x == (f * n + k) * z + 0;
    DivUnique(x, z, f * n + k, 0);
  }

  /** The multiples of `z` in the `f`-th stretch of `n * z`. */
  lemma {:induction false} MultiplesInStretch(x: nat, z: nat, n: nat, f: nat)
    requires z > 0 && n > 0 && n * z > 0
    ensures x / (n * z) == f && x % z == 0 <==> exists k :: 0 <= k < n && x == f * (n * z) + k * z
  {
    if x / (n * z) == f && x % z == 0 {
      assert x == x / z * z;
      assert x == f * (n * z) + x % (n * z);
      MultipleIsPlaced(x / z, z, n, f);
    }
    if k :| 0 <= k < n && x == f * (n * z) + k * z {
      PlacedIsMultiple(x, z, n, f, k);
    }
  }

  /** The bins of class `c` in the page of frame `f` are its first BinsPerPage(c) multiples of the size. */
  lemma {:induction false} BinsOfPage(f: nat, c: nat, a: nat)
    requires c <= MAXBINORDER && a >= FRAME_START
    ensures (FrameOf(a) == f && (a - FRAME_START) % BinSize(c) == 0) <==>
      exists k :: 0 <= k < BinsPerPage(c) && a == Addr(f) + k * BinSize(c)
  {
    FilledNonempty(0, c, []);
    MultiplesInStretch(a - FRAME_START, BinSize(c), BinsPerPage(c), f);
    forall k
      ensures a - FRAME_START == f * (BinsPerPage(c) * BinSize(c)) + k * BinSize(c) <==> a == Addr(f) + k * BinSize(c)
    {
    }
  }

  // ---------------------------------------------------------------- effects

  /** The handed-out bins and pages of `t` are those of `hp`. */
  ghost predicate SameLive(hp: Heap, t: Heap)
    requires Layout(hp) && Layout(t)
  {
    && (forall a: nat, c: nat :: LiveBin(t, a, c) <==> LiveBin(hp, a, c))
    && (forall h: nat :: LivePage(t, h) <==> LivePage(hp, h))
  }

  lemma {:induction false} SinglePageOrder()
    ensures Order(0x1000) == 0
  {
    assert Pow2(0) == 1;
  }

  /** A fresh slab puts all its bins on the list and hands out none. */
  lemma {:induction false} NewSlabEffect(hp: Heap, c: nat)
    requires ValidHeap(hp) && c <= MAXBINORDER && hp.bins[c] == [] && CanAlloc(hp.pages, 0x1000)
    ensures ValidHeap(NewSlab(hp, c)) && SameLive(hp, NewSlab(hp, c)) && NewSlab(hp, c).bins[c] != []
  {
    hide Up, Low, Pow2, BinSize, Inv, Alloc, Filled, Target;
    var f := Target(hp.pages, 0x1000);
    var t := NewSlab(hp, c);
    AllocEffect(hp.pages, 0x1000);
    SinglePageOrder();
    FilledNonempty(Addr(f), c, []);
    FilledMembers(Addr(f), c, BinsPerPage(c), []);
    assert forall d: nat :: d <= MAXBINORDER && d != c ==> t.bins[d] == hp.bins[d];
    forall a: nat
      ensures a in t.bins[c] <==> a >= FRAME_START && FrameOf(a) == f && IsBin(t, a, c)
    {
      if a >= FRAME_START {
        BinsOfPage(f, c, a);
      }
    }
    forall a: nat, d: nat
      ensures a >= FRAME_START && FrameOf(a) != f ==> (IsBin(t, a, d) <==> IsBin(hp, a, d))
      ensures a >= FRAME_START && FrameOf(a) == f ==> !IsBin(hp, a, d) && (IsBin(t, a, d) ==> d == c)
    {
    }
  }

  /** What a bin request changes: one bin of the least fitting class becomes live. */
  lemma {:induction false} TakeBinEffect(hp: Heap, c: nat)
    requires ValidHeap(hp) && c <= MAXBINORDER && (hp.bins[c] != [] || CanAlloc(hp.pages, 0x1000))
    ensures var (t, a) := TakeBin(hp, c);
      && ValidHeap(t) && LiveBin(t, a, c)
      && (forall d: nat :: !LiveBin(hp, a, d))
      && (forall x: nat, d: nat :: LiveBin(t, x, d) <==> LiveBin(hp, x, d) || (x == a && d == c))
      && (forall h: nat :: LivePage(t, h) <==> LivePage(hp, h))
  {
    hide Up, Low, Pow2, BinSize, Inv, NewSlab;
    if hp.bins[c] == [] {
      NewSlabEffect(hp, c);
    }
    var m := Stocked(hp, c);
    var l := m.bins[c];
    assert l == [l[0]] + l[1..];
    assert IsBin(m, l[0], c) by {
      assert l[0] in m.bins[c];
    }
    assert forall x :: x in l <==> x == l[0] || x in l[1..];
    assert l[0] !in l[1..];
    var t := TakeBin(hp, c).0;
    assert forall x: nat, d: nat :: IsBin(t, x, d) <==> IsBin(m, x, d);
    assert forall x: nat, d: nat :: LiveBin(m, x, d) <==> LiveBin(hp, x, d);
  }

  /** `kmalloc` of at most 512 bytes hands out one bin of the least class that holds the request, from a slab
      page, and nothing else. */
  lemma {:induction false} MallocSmall(hp: Heap, size: nat)
    requires ValidHeap(hp) && size <= BinSize(MAXBINORDER) && CanMalloc(hp, size)
    ensures var (t, a) := Malloc(hp, size); var c := Class(size);
      && ValidHeap(t) && LiveBin(t, a, c) && size <= BinSize(c) && (forall j :: 0 <= j < c ==> size > BinSize(j))
      && (forall d: nat :: !LiveBin(hp, a, d))
      && (forall x: nat, d: nat :: LiveBin(t, x, d) <==> LiveBin(hp, x, d) || (x == a && d == c))
      && (forall h: nat :: LivePage(t, h) <==> LivePage(hp, h))
  {
    hide BinSize, Inv;
    ClassFromIsLeast(size, 0);
    TakeBinEffect(hp, Class(size));
  }

  /** `kmalloc` of more hands out one page of the least fitting order, never a slab page. */
  lemma {:induction false} MallocLarge(hp: Heap, size: nat)
    requires ValidHeap(hp) && size > BinSize(MAXBINORDER) && CanMalloc(hp, size)
    ensures var (t, a) := Malloc(hp, size); var f := Target(hp.pages, size);
      && ValidHeap(t) && a == Addr(f) && !LivePage(hp, f) && t.pages.val[f] == Order(size)
      && (forall h: nat :: LivePage(t, h) <==> LivePage(hp, h) || h == f)
      && (forall x: nat, d: nat :: LiveBin(t, x, d) <==> LiveBin(hp, x, d))
  {
    hide Up, Low, Pow2, BinSize, Inv, Alloc, Target, Supply, Order;
    AllocEffect(hp.pages, size);
    var t := Malloc(hp, size).0;
    assert forall x: nat, d: nat :: IsBin(t, x, d) <==> IsBin(hp, x, d);
  }

  /** `kfree` of a live bin puts it back on the list of the class it came from, exactly when the bin is
      not the first of its page.  The first bin goes to the page allocator, and the heap is broken. */
  lemma {:induction false} ReleaseLiveBin(hp: Heap, a: nat, c: nat)
    requires ValidHeap(hp) && LiveBin(hp, a, c)
    ensures ValidHeap(Release(hp, a)) <==> a % PAGE != 0
    ensures a % PAGE != 0 ==> var t := Release(hp, a);
      && t.pages == hp.pages && t.bins == hp.bins[c := [a] + hp.bins[c]]
      && (forall x: nat, d: nat :: LiveBin(t, x, d) <==> LiveBin(hp, x, d) && x != a)
      && (forall h: nat :: LivePage(t, h) <==> LivePage(hp, h))
    ensures a % PAGE == 0 ==> FreeFrame(Release(hp, a).pages, FrameOf(a))
    ensures a % PAGE == 0 ==> forall b: nat, d: nat :: LiveBin(hp, b, d) ==> LiveBin(Release(hp, a), b, d)
  {
    hide Up, Low, Pow2, BinSize, Inv, Free;
    var t := Release(hp, a);
    assert forall x: nat, d: nat :: IsBin(t, x, d) <==> IsBin(hp, x, d);
    if a % PAGE == 0 {
      FreeEffect(hp.pages, FrameOf(a));
      assert !UsedHead(t.pages, FrameOf(a));
    } else {
      assert forall x: nat, d: nat :: IsBin(hp, x, d) && x == a ==> d == c;
    }
  }

  /** A bin that has just gone back to its class is the one that the next request of the class gets, and the heap is
      then as before. */
  lemma {:induction false} MallocUndoesRelease(hp: Heap, a: nat, c: nat, size: nat)
    requires ValidHeap(hp) && LiveBin(hp, a, c) && a % PAGE != 0 && size <= BinSize(MAXBINORDER) && Class(size) == c
    ensures Layout(Release(hp, a)) && CanMalloc(Release(hp, a), size) && Malloc(Release(hp, a), size) == (hp, a)
  {
    hide BinSize, Inv, Free, NewSlab;
    var t := Release(hp, a);
    assert t.bins[c] == [a] + hp.bins[c];
    assert t.bins[c := t.bins[c][1..]] == hp.bins;
    assert Malloc(t, size) == TakeBin(t, c);
  }

  /** `kfree` of a live page releases that page and leaves every bin alone. */
  lemma {:induction false} ReleaseLivePage(hp: Heap, h: nat)
    requires ValidHeap(hp) && LivePage(hp, h)
    ensures FrameOf(Addr(h)) == h && ValidHeap(Release(hp, Addr(h)))
    ensures var t := Release(hp, Addr(h));
      && t.pages == Free(hp.pages, h) && t.bins == hp.bins
      && (forall x: nat :: LivePage(t, x) <==> LivePage(hp, x) && x != h)
      && (forall x: nat, d: nat :: LiveBin(t, x, d) <==> LiveBin(hp, x, d))
  {
    hide Up, Low, Pow2, BinSize, Inv, Free;
    DivUnique(PAGE * h, PAGE, h, 0);
    FreeEffect(hp.pages, h);
    var t := Release(hp, Addr(h));
    assert forall x: nat, d: nat :: IsBin(t, x, d) <==> IsBin(hp, x, d);
  }

  /** Every slab has such a bin: the last one on its list, handed out after all others. */
  lemma {:induction false} FirstBinIsTakenLast(page: nat, c: nat, n: nat)
    requires n > 0
    ensures |Filled(page, c, n, [])| == n && Filled(page, c, n, [])[n - 1] == page
  {
    if n > 1 {
      FirstBinIsTakenLast(page, c, n - 1);
    }
  }

  // ---------------------------------------------------------------- separation

  /** A bin lies inside its own page. */
  lemma {:induction false} BinInsidePage(hp: Heap, a: nat, c: nat)
    requires Layout(hp) && c <= MAXBINORDER && IsBin(hp, a, c)
    ensures Addr(FrameOf(a)) <= a && a + BinSize(c) <= Addr(FrameOf(a)) + PAGE
  {
    FilledNonempty(0, c, []);
    BinsOfPage(FrameOf(a), c, a);
    var k :| 0 <= k < BinsPerPage(c) && a == Addr(FrameOf(a)) + k * BinSize(c);
    MulLess(k, BinsPerPage(c), BinSize(c));
  }

  /** Live bins do not overlap each other. */
  lemma {:induction false} LiveBinsDisjoint(hp: Heap, a: nat, c: nat, b: nat, d: nat)
    requires ValidHeap(hp) && LiveBin(hp, a, c) && LiveBin(hp, b, d) && a < b
    ensures a + BinSize(c) <= b
  {
    hide BinSize, Inv;
    BinInsidePage(hp, a, c);
    BinInsidePage(hp, b, d);
    if FrameOf(a) == FrameOf(b) {
      BinsOfPage(FrameOf(a), c, a);
      BinsOfPage(FrameOf(a), c, b);
      var i :| 0 <= i < BinsPerPage(c) && a == Addr(FrameOf(a)) + i * BinSize(c);
      var j :| 0 <= j < BinsPerPage(c) && b == Addr(FrameOf(a)) + j * BinSize(c);
      if j < i {
        MulLess(j, i, BinSize(c));
        assert false;
      }
      assert i != j;
      MulLess(i, j, BinSize(c));
    } else if FrameOf(b) < FrameOf(a) {
      assert false;
    }
  }

  /** No live bin lies in the block of a live page. */
  lemma {:induction false} BinsOutsidePages(hp: Heap, a: nat, c: nat, h: nat)
    requires ValidHeap(hp) && LiveBin(hp, a, c) && LivePage(hp, h)
    ensures !InBlock(hp.pages, FrameOf(a), h)
  {
    var f := FrameOf(a);
    assert UsedHead(hp.pages, f);
    if InBlock(hp.pages, f, h) {
      OwnerOf(hp.pages, f, h);
      assert false;
    }
  }

  // ---------------------------------------------------------------- runs

  datatype HeapCall = MallocCall(size: nat) | ReleaseBinCall(addr: nat, order: nat) | ReleasePageCall(frame: nat)

  /** Callers release what they hold, and never the first bin of a page. */
  ghost predicate HeapAllowed(hp: Heap, c: HeapCall)
    requires ValidHeap(hp)
  {
    match c
    case MallocCall(size) => CanMalloc(hp, size)
    case ReleaseBinCall(a, d) => LiveBin(hp, a, d) && a % PAGE != 0
    case ReleasePageCall(h) => LivePage(hp, h)
  }

  ghost function HeapAfter(hp: Heap, c: HeapCall): (t: Heap)
    requires ValidHeap(hp) && HeapAllowed(hp, c)
    ensures ValidHeap(t)
  {
    match c
    case MallocCall(size) =>
      if size <= BinSize(MAXBINORDER) then MallocSmall(hp, size); Malloc(hp, size).0
      else MallocLarge(hp, size); Malloc(hp, size).0
    case ReleaseBinCall(a, d) => ReleaseLiveBin(hp, a, d); Release(hp, a)
    case ReleasePageCall(h) => ReleaseLivePage(hp, h); Release(hp, Addr(h))
  }

  ghost predicate HeapCanRun(hp: Heap, calls: seq<HeapCall>)
    requires ValidHeap(hp)
    decreases |calls|
  {
    calls == [] || (HeapAllowed(hp, calls[0]) && HeapCanRun(HeapAfter(hp, calls[0]), calls[1..]))
  }

  ghost function HeapRun(hp: Heap, calls: seq<HeapCall>): (t: Heap)
    requires ValidHeap(hp) && HeapCanRun(hp, calls)
    ensures ValidHeap(t)
    decreases |calls|
  {
    if calls == [] then hp else HeapRun(HeapAfter(hp, calls[0]), calls[1..])
  }

  lemma {:induction false} StepKeepsHeld(hp: Heap, c: HeapCall, b: nat, d: nat, h: nat)
    requires ValidHeap(hp) && HeapAllowed(hp, c)
    ensures LiveBin(hp, b, d) && !(c.ReleaseBinCall? && c.addr == b) ==> LiveBin(HeapAfter(hp, c), b, d)
    ensures LivePage(hp, h) && c != ReleasePageCall(h) ==>
      LivePage(HeapAfter(hp, c), h) && HeapAfter(hp, c).pages.val[h] == hp.pages.val[h]
  {
    hide Up, Low, Pow2, BinSize, Inv, Free, Alloc, Target, Order, Class, LiveBin;
    match c {
      case MallocCall(size) =>
        if size <= BinSize(MAXBINORDER) {
          MallocSmall(hp, size);
          ClassFromIsLeast(size, 0);
          if hp.bins[Class(size)] == [] {
            AllocEffect(hp.pages, 0x1000);
          }
        } else {
          MallocLarge(hp, size);
          AllocEffect(hp.pages, size);
        }
      case ReleaseBinCall(a, o) => ReleaseLiveBin(hp, a, o);
      case ReleasePageCall(g) =>
        ReleaseLivePage(hp, g);
        FreeEffect(hp.pages, g);
    }
  }

  /** Whatever a run does, a bin or page that it does not release stays handed out, at its order. */
  lemma {:induction false} RunKeepsHeld(hp: Heap, calls: seq<HeapCall>, b: nat, d: nat, h: nat)
    requires ValidHeap(hp) && HeapCanRun(hp, calls)
    ensures LiveBin(hp, b, d) && (forall c :: c in calls ==> !(c.ReleaseBinCall? && c.addr == b)) ==>
      LiveBin(HeapRun(hp, calls), b, d)
    ensures LivePage(hp, h) && ReleasePageCall(h) !in calls ==>
      LivePage(HeapRun(hp, calls), h) && HeapRun(hp, calls).pages.val[h] == hp.pages.val[h]
    decreases |calls|
  {
    hide LiveBin, LivePage, HeapAfter, HeapAllowed;
    if calls != [] {
      StepKeepsHeld(hp, calls[0], b, d, h);
      RunKeepsHeld(HeapAfter(hp, calls[0]), calls[1..], b, d, h);
    }
  }

  // ---------------------------------------------------------------- the first bin of a page

  lemma {:induction false} ClassOfBin(c: nat)
    requires c <= MAXBINORDER
    ensures Class(BinSize(c)) == c && BinSize(c) <= BinSize(MAXBINORDER)
  {
    assert Pow2(0) == 1 && Pow2(1) == 2 && Pow2(2) == 4 && Pow2(3) == 8 && Pow2(4) == 16;
    ClassFromIsLeast(BinSize(c), 0);
  }

  lemma {:induction false} HeapCallFirst(hp: Heap, c: HeapCall, later: seq<HeapCall>) returns (calls: seq<HeapCall>)
    requires ValidHeap(hp) && HeapAllowed(hp, c) && HeapCanRun(HeapAfter(hp, c), later)
    ensures calls == [c] + later && HeapCanRun(hp, calls) && HeapRun(hp, calls) == HeapRun(HeapAfter(hp, c), later)
  {
    calls := [c] + later;
    assert calls[1..] == later;
  }

  /** A request for a bin of class `c` takes the first entry of its list, which a new page fills if it is empty. */
  lemma {:induction false} TakeOne(hp: Heap, c: nat, page: nat, n: nat)
    requires ValidHeap(hp) && c <= MAXBINORDER && n > 0
    requires hp.bins[c] == Filled(page, c, n, []) ||
      (hp.bins[c] == [] && CanAlloc(hp.pages, 0x1000) && page == Addr(Target(hp.pages, 0x1000)) && n == BinsPerPage(c))
    ensures HeapAllowed(hp, MallocCall(BinSize(c)))
    ensures var t := HeapAfter(hp, MallocCall(BinSize(c)));
      t.bins[c] == Filled(page, c, n - 1, []) && (n == 1 ==> LiveBin(t, page, c))
  {
    ClassOfBin(c);
    hide Up, Low, Flip, Pow2, Inv, Alloc, LiveBin, IsBin, BinSize, BinsPerPage, CanAlloc, Target;
    MallocSmall(hp, BinSize(c));
    FilledStart(page, c, n);
    var f := Filled(page, c, n, []);
    assert Malloc(hp, BinSize(c)) == TakeBin(hp, c);
    assert Stocked(hp, c).bins[c] == f;
    assert TakeBin(hp, c).1 == f[0] && TakeBin(hp, c).0.bins[c] == f[1..];
  }

  lemma {:induction false} FilledStart(page: nat, c: nat, n: nat)
    requires n > 0
    ensures var f := Filled(page, c, n, []); f != [] && f[1..] == Filled(page, c, n - 1, []) && (n == 1 ==> f[0] == page)
  {
  }

  /** The bins of the page are handed out from its end, and so the page start at last. */
  lemma {:induction false} TakeAll(hp: Heap, c: nat, page: nat, n: nat) returns (calls: seq<HeapCall>)
    requires ValidHeap(hp) && c <= MAXBINORDER && n > 0
    requires hp.bins[c] == Filled(page, c, n, []) ||
      (hp.bins[c] == [] && CanAlloc(hp.pages, 0x1000) && page == Addr(Target(hp.pages, 0x1000)) && n == BinsPerPage(c))
    ensures |calls| == n && HeapCanRun(hp, calls) && LiveBin(HeapRun(hp, calls), page, c)
    decreases n
  {
    TakeOne(hp, c, page, n);
    hide BinSize, LiveBin, IsBin, HeapCanRun, HeapRun, HeapAllowed, HeapAfter, Inv, BinsPerPage, Target, CanAlloc;
    var call := MallocCall(BinSize(c));
    var t := HeapAfter(hp, call);
    if n == 1 {
      calls := [];
      NoHeapCalls(t);
    } else {
      calls := TakeAll(t, c, page, n - 1);
    }
    calls := HeapCallFirst(hp, call, calls);
  }

  lemma {:induction false} NoHeapCalls(hp: Heap)
    requires ValidHeap(hp)
    ensures HeapCanRun(hp, []) && HeapRun(hp, []) == hp
  {
  }

  /** Releasing the pointer leaves a heap that is not valid. */
  ghost predicate Breaks(hp: Heap, a: nat)
    requires Layout(hp)
  {
    a >= FRAME_START && UsedHead(hp.pages, FrameOf(a)) && !ValidHeap(Release(hp, a))
  }

  lemma {:induction false} PageStartBreaks(hp: Heap, a: nat, c: nat)
    requires ValidHeap(hp) && LiveBin(hp, a, c) && a % PAGE == 0
    ensures Breaks(hp, a)
  {
    ReleaseLiveBin(hp, a, c);
    hide Release, Inv;
  }

  lemma {:induction false} AddrIsAligned(f: nat)
    ensures Addr(f) % PAGE == 0
  {
  }

  /** From every heap with no bin of the class left, as many requests as a page has bins make a page-start bin live;
      releasing that one breaks the heap. */
  lemma {:induction false} PageStartIsHandedOut(hp: Heap, c: nat) returns (calls: seq<HeapCall>, page: nat)
    requires ValidHeap(hp) && c <= MAXBINORDER && hp.bins[c] == [] && CanAlloc(hp.pages, 0x1000)
    ensures |calls| == BinsPerPage(c) && HeapCanRun(hp, calls) && page % PAGE == 0
    ensures LiveBin(HeapRun(hp, calls), page, c) && Breaks(HeapRun(hp, calls), page)
  {
    hide Inv, HeapCanRun, HeapRun, BinsPerPage, LiveBin, IsBin, Breaks, Target, CanAlloc, Filled, UsedHead, Addr, BinSize;
    page := Addr(Target(hp.pages, 0x1000));
    AddrIsAligned(Target(hp.pages, 0x1000));
    FilledNonempty(page, c, []);
    calls := TakeAll(hp, c, page, BinsPerPage(c));
    PageStartBreaks(HeapRun(hp, calls), page, c);
  }

  /** The heap that boot starts from has no bins. */
  lemma {:induction false} FirstHeap(s: State)
    requires Inv(s, -1)
    ensures ValidHeap(Heap(s, seq(FRAMES, _ => -1), [[], [], [], [], []]))
  {
  }
}
