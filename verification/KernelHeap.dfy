/** `kmalloc` and `kfree` as the code has them, over the page allocator object. */
module KernelHeap {
  import opened MemoryMap
  import opened Bits
  import opened Buddy
  import opened BuddyRuns
  import opened BuddyReserve
  import opened BuddyHistory
  import opened SmallObjects
  import opened PageAllocator

  class KHeap {
    const frames: Frames
    const binVal: array<int>
    var binList: seq<seq<nat>>

    ghost predicate Distinctly() {
      frames.val as object != binVal && frames.used as object != binVal && frames as object != this
    }

    ghost function View(): Heap
      reads this, frames, frames.val, frames.used, binVal
    {
      Heap(frames.View(), binVal[..], binList)
    }

    ghost predicate Valid()
      reads this, frames, frames.val, frames.used, binVal
    {
      Distinctly() && ValidHeap(View())
    }

    /** The state `init_allocator` starts from: no slabs, all bin lists empty. */
    constructor ()
      ensures Valid() && View() == Heap(Init(), seq(FRAMES, _ => -1), [[], [], [], [], []])
    {
      frames := new Frames();
      binVal := new int[FRAMES](_ => -1);
      binList := [[], [], [], [], []];
      new;
      assert binVal[..] == seq(FRAMES, _ => -1);
    }

    /** `from_page_get_bins`: a new page is cut into bins, each put at the front of the list. */
    method FromPageGetBins(c: nat)
      requires Distinctly() && Layout(View()) && c <= MAXBINORDER && CanAlloc(View().pages, 0x1000)
      modifies this, frames, frames.val, frames.used, binVal
      ensures View() == NewSlab(old(View()), c)
    {
      hide Inv, Up, Low, Alloc, Target, Supply;
      ghost var before := View();
      AllocEffect(before.pages, 0x1000);
      var page := frames.AllocPage(0x1000);
      DivUnique(page - FRAME_START, PAGE, Target(before.pages, 0x1000), 0);
      binVal[(page - FRAME_START) / PAGE] := c;
      FillBins(page, c);
    }

    /** The loop of `from_page_get_bins`. */
    method FillBins(page: nat, c: nat)
      requires c <= MAXBINORDER && |binList| == MAXBINORDER + 1
      modifies `binList
      ensures binList == old(binList)[c := Filled(page, c, BinsPerPage(c), old(binList)[c])]
    {
      FilledNonempty(page, c, []);
      hide BinSize, BinsPerPage, Filled;
      var binSize := BinSize(c);
      ghost var n: nat := 0;
      FilledNext(page, c, 0, binList[c]);
      var i := 0;
      while i < 0x1000
        invariant i == n * binSize && n <= BinsPerPage(c) && |binList| == MAXBINORDER + 1
        invariant binList == old(binList)[c := Filled(page, c, n, old(binList)[c])]
        decreases BinsPerPage(c) - n
      {
        MulLeft(n, BinsPerPage(c), binSize);
        FilledNext(page, c, n, old(binList)[c]);
        binList := binList[c := [page + i] + binList[c]];
        i := i + binSize;
        n := n + 1;
      }
      MulLeft(n, BinsPerPage(c), binSize);
    }

    /** `alloc_bin`. */
    method AllocBin(size: nat) returns (bin: nat)
      requires Valid() && size <= BinSize(MAXBINORDER) && CanMalloc(View(), size)
      modifies this, frames, frames.val, frames.used, binVal
      ensures (View(), bin) == Malloc(old(View()), size) && Valid()
    {
      hide Inv, Up, Low, Alloc, Target, Supply, NewSlab;
      ghost var before := View();
      var c := 0;
      var i := 0;
      while i <= MAXBINORDER
        invariant 0 <= i <= MAXBINORDER + 1 && c == 0
        invariant Class(size) == ClassFrom(size, i)
      {
        if size <= BinSize(i) {
          c := i;
          break;
        }
        i := i + 1;
      }
      ClassFromIsLeast(size, 0);
      MallocSmall(before, size);
      if binList[c] == [] {
        NewSlabEffect(before, c);
        FromPageGetBins(c);
      }
      bin := binList[c][0];
      binList := binList[c := binList[c][1..]];
    }

    /** `free_bin`. */
    method FreeBin(addr: nat)
      requires Valid() && addr >= FRAME_START && FrameOf(addr) < FRAMES && View().bin[FrameOf(addr)] >= 0
      modifies `binList
      ensures View() == ReleaseBin(old(View()), addr, old(View()).bin[FrameOf(addr)])
    {
      var c := binVal[(addr - FRAME_START) / PAGE];
      binList := binList[c := [addr] + binList[c]];
    }

    /** `kmalloc`. */
    method Kmalloc(size: nat) returns (addr: nat)
      requires Valid() && CanMalloc(View(), size)
      modifies this, frames, frames.val, frames.used, binVal
      ensures (View(), addr) == Malloc(old(View()), size) && Valid()
    {
      hide Inv, Up, Low, Alloc, Target, Supply;
      ghost var before := View();
      if size <= BinSize(MAXBINORDER) {
        addr := AllocBin(size);
        return;
      }
      MallocLarge(before, size);
      addr := frames.AllocPage(size);
    }

    /** `kfree`. */
    method Kfree(addr: nat)
      requires Valid() && addr >= FRAME_START && UsedHead(View().pages, FrameOf(addr))
      modifies this, frames, frames.val, frames.used
      ensures View() == Release(old(View()), addr)
    {
      hide Inv, Up, Low, Free;
      if addr % 0x1000 != 0 && binVal[(addr - FRAME_START) / PAGE] != -1 {
        FreeBin(addr);
      } else {
        frames.FreePage(addr);
      }
    }
  }

  lemma {:induction false} FilledNext(page: nat, c: nat, n: nat, l: seq<nat>)
    ensures Filled(page, c, 0, l) == l
    ensures Filled(page, c, n + 1, l) == [page + n * BinSize(c)] + Filled(page, c, n, l)
    ensures (n + 1) * BinSize(c) == n * BinSize(c) + BinSize(c)
  {
  }

  lemma {:induction false} MulLeft(n: nat, m: nat, z: nat)
    requires z > 0 && n <= m
    ensures n < m <==> n * z < m * z
  {
    if n < m {
      MulLess(n, m, z);
    }
  }
}
