/** The page allocator as the code has it: frame records updated in place and seven free lists.
    Each method is proved to be one of the operations on `State`. */
module PageAllocator {
  import opened MemoryMap
  import opened Bits
  import opened Lists
  import opened Buddy
  import opened BuddyRuns
  import opened BuddyCanon
  import opened BuddyReserve
  import opened BuddyHistory

  lemma {:induction false} RoundingAligns(start: nat, end: nat)
    ensures PageAligned(PageDown(start), PageUp(end))
  {
  }

  lemma {:induction false} IsInit(s: State)
    requires |s.val| == |s.used| == FRAMES && s.owner == Init().owner && |s.free| == 7 && |s.free[6]| == BLOCKS
    requires forall f :: 0 <= f < FRAMES ==> s.val[f] == (if f % 64 == 0 then MAXORDER else 0) && !s.used[f]
    requires forall v :: 0 <= v < 6 ==> s.free[v] == []
    requires forall j :: 0 <= j < BLOCKS ==> s.free[6][j] == 64 * (BLOCKS - 1 - j)
    ensures s == Init()
  {
    assert s.val == Init().val;
    assert s.used == Init().used;
    assert s.free[6] == Init().free[6];
    assert s.free == Init().free;
  }

  class Frames {
    const val: array<nat>
    const used: array<bool>
    var freeList: seq<seq<nat>>
    ghost var owner: seq<nat>

    ghost function View(): State
      reads this, val, used
    {
      State(val[..], used[..], owner, freeList)
    }

    ghost predicate Valid()
      reads this, val, used
    {
      Inv(View(), -1)
    }

    /** `init_allocator` up to the reservations: every 64th frame is put at the front of the last list. */
    constructor ()
      ensures View() == Init() && Valid()
      ensures fresh(val) && fresh(used)
    {
      val := new nat[FRAMES](_ => 0);
      used := new bool[FRAMES](_ => false);
      freeList := [[], [], [], [], [], [], []];
      owner := Init().owner;
      new;
      for i := 0 to FRAMES
        invariant forall f :: 0 <= f < i ==> val[f] == if f % 64 == 0 then MAXORDER else 0
        invariant forall f :: i <= f < FRAMES ==> val[f] == 0
        invariant forall f :: 0 <= f < FRAMES ==> !used[f]
        invariant owner == Init().owner
        invariant |freeList| == 7 && forall v :: 0 <= v < 6 ==> freeList[v] == []
        invariant |freeList[6]| == (i + 63) / 64
        invariant forall j :: 0 <= j < |freeList[6]| ==> freeList[6][j] == 64 * (|freeList[6]| - 1 - j)
      {
        if i % 64 == 0 {
          val[i] := MAXORDER;
          used[i] := false;
          freeList := freeList[MAXORDER := [i] + freeList[MAXORDER]];
        }
      }
      IsInit(View());
      InitForm();
    }

    /** `get_buddy`. */
    method GetBuddy(frame: nat) returns (buddy: nat)
      requires Shape(View()) && frame < FRAMES
      ensures buddy == Flip(frame, View().val[frame]) && buddy < FRAMES
    {
      FlipInRange(frame, val[frame]);
      buddy := Flip(frame, val[frame]);
    }

    method SplitFrame(frame: nat)
      requires Shape(View()) && frame < FRAMES && View().val[frame] > 0
      modifies this, val, used
      ensures View() == Split(old(View()), frame)
    {
      hide Up, Low, Flip;
      ghost var before := View();
      val[frame] := val[frame] - 1;
      FlipBlock(frame, val[frame]);
      var buddy := GetBuddy(frame);
      used[buddy] := false;
      val[buddy] := val[frame];
      freeList := freeList[val[buddy] := [buddy] + freeList[val[buddy]]];
      owner := Split(before, frame).owner;
    }

    method CombinePage(frame: nat) returns (ok: bool)
      requires Inv(View(), frame) && Head(View(), frame)
      modifies this, val
      ensures ok <==> Mergeable(old(View()), frame)
      ensures View() == if ok then Merge(old(View()), frame) else old(View())
    {
      hide Up, Low, Flip, Partition, Leftovers;
      ghost var before := View();
      FlipBlock(frame, val[frame]);
      var buddy := GetBuddy(frame);
      if val[frame] == MAXORDER {
        return false;
      }
      if val[buddy] != val[frame] {
        return false;
      }
      if used[buddy] {
        return false;
      }
      MergeKeepsInv(before, frame);
      assert buddy in freeList[val[buddy]];
      freeList := freeList[val[buddy] := Remove(freeList[val[buddy]], buddy)];
      val[frame] := val[frame] + 1;
      owner := Merge(before, frame).owner;
      return true;
    }

    /** `alloc_page`: the address of a page of the least order that holds `size` bytes. */
    method AllocPage(size: nat) returns (addr: nat)
      requires Valid() && CanAlloc(View(), size)
      modifies this, val, used
      ensures View() == Alloc(old(View()), size) && Valid()
      ensures addr == Addr(Target(old(View()), size))
    {
      hide Up, Low, Flip, Partition, Leftovers, Listed;
      ghost var before := View();
      var order := 0;
      var i := 0;
      while i <= MAXORDER
        invariant 0 <= i <= MAXORDER + 1 && order == 0
        invariant Order(size) == OrderFrom(size, i)
      {
        if size <= 0x1000 * Pow2(i) {
          order := i;
          break;
        }
        i := i + 1;
      }
      assert order == Order(size);
      var c := order;
      while c <= MAXORDER
        invariant order <= c <= MAXORDER
        invariant Supply(before, order) == Supply(before, c)
        decreases MAXORDER - c
      {
        if freeList[c] != [] {
          break;
        }
        c := c + 1;
      }
      var target: nat := freeList[c][0];
      assert c == before.val[Target(before, size)];
      freeList := freeList[c := Remove(freeList[c], target)];
      UnlinkKeepsInv(before, target);
      SplitDownKeeps(View(), target, order);
      var j := c;
      while j > order
        invariant order <= j <= c && Shape(View()) && View().val[target] == j
        invariant SplitDown(View(), target, order) == SplitDown(Unlink(before, target), target, order)
      {
        SplitFrame(target);
        j := j - 1;
      }
      used[target] := true;
      AllocEffect(before, size);
      addr := FRAME_START + 0x1000 * target;
    }

    /** `free_page`, of the page whose first frame holds `addr`. */
    method FreePage(addr: nat)
      requires Valid() && FRAME_START <= addr && UsedHead(View(), (addr - FRAME_START) / PAGE)
      modifies this, val, used
      ensures View() == Free(old(View()), (addr - FRAME_START) / PAGE) && Valid()
    {
      hide Up, Low, Flip, Partition, Leftovers, Listed;
      ghost var before := View();
      var target := (addr - FRAME_START) / PAGE;
      used[target] := false;
      ReleaseKeepsInv(before, target);
      ghost var released := View();
      assert released == SetUsed(before, target, false);
      var more := true;
      while more
        invariant Inv(View(), target) && Head(View(), target) && !View().used[target]
        invariant MergeUp(View(), target) == MergeUp(released, target)
        invariant !more ==> !Mergeable(View(), target)
        decreases more, MAXORDER - View().val[target]
      {
        ghost var now := View();
        more := CombinePage(target);
        if more {
          MergeKeepsInv(now, target);
        }
      }
      freeList := freeList[val[target] := [target] + freeList[val[target]]];
      FreeEffect(before, target);
    }

    /** `reserve_page`: with aligned heads, exactly the pages that the range reaches stop being free. */
    method ReservePage(start: nat, end: nat)
      requires Valid()
      modifies this, val, used
      ensures View() == Reserve(old(View()), start, end) && Valid()
      ensures Aligned(old(View())) && end < WORD ==> TakesReached(old(View()), View(), start, end)
    {
      RoundingAligns(start, end);
      ReserveTakes(View(), start, end);
      hide Partition, Leftovers, Listed, PageDown, PageUp, PageAligned, TakesReached, Aligned, ReserveDown;
      ReserveLists(PageDown(start), PageUp(end));
    }

    /** The outer loop: each free list is walked, highest order first, while entries are unlinked and split. */
    method ReserveLists(lo: nat, hi: nat)
      requires Valid() && PageAligned(lo, hi)
      modifies this, val, used
      ensures View() == ReserveDown(old(View()), MAXORDER + 1, lo, hi) && Valid()
    {
      hide Up, Low, Flip, Partition, Leftovers, Listed, ReserveOne, ReserveLevel, PageAligned;
      ghost var before := View();
      var n := MAXORDER + 1;
      while n > 0
        invariant 0 <= n <= MAXORDER + 1 && Valid()
        invariant ReserveDown(View(), n, lo, hi) == ReserveDown(before, MAXORDER + 1, lo, hi)
      {
        n := n - 1;
        ReserveList(n, lo, hi);
      }
    }

    /** The inner loop: one free list is walked. */
    method ReserveList(v: nat, lo: nat, hi: nat)
      requires Valid() && v <= MAXORDER && PageAligned(lo, hi)
      modifies this, val, used
      ensures View() == ReserveLevel(old(View()), v, 0, lo, hi) && Valid()
    {
      hide Up, Low, Flip, Partition, Leftovers, Listed, ReserveOne, PageAligned;
      ghost var before := View();
      var i: nat := 0;
      while i < |freeList[v]|
        invariant Valid()
        invariant ReserveLevel(View(), v, i, lo, hi) == ReserveLevel(before, v, 0, lo, hi)
        decreases |freeList[v]| - i
      {
        i := ReserveEntry(v, i, lo, hi);
      }
    }

    /** One turn of the loop over the list of order `v`; `next` is the position the walk goes on from. */
    method ReserveEntry(v: nat, i: nat, lo: nat, hi: nat) returns (next: nat)
      requires Valid() && v <= MAXORDER && i < |freeList[v]| && PageAligned(lo, hi)
      modifies this, val, used
      ensures Valid()
      ensures ReserveLevel(View(), v, next, lo, hi) == ReserveLevel(old(View()), v, i, lo, hi)
      ensures |freeList[v]| - next < |old(freeList[v])| - i
    {
      hide Up, Low, Flip, Partition, Leftovers;
      ghost var before := View();
      var curr: nat := freeList[v][i];
      assert curr in before.free[v];
      ReserveOneKeepsInv(before, curr, lo, hi);
      RemoveAt(before.free[v], i);
      var pageStart := 0x1000 * curr + FRAME_START;
      var nextStart := pageStart + 0x1000 * Pow2(v);
      if lo <= pageStart && hi >= nextStart {
        used[curr] := true;
        freeList := freeList[v := Remove(freeList[v], curr)];
        next := i;
      } else if lo >= nextStart || hi <= pageStart {
        next := i + 1;
      } else {
        NeverSplitsOnePage(curr, v, lo, hi);
        freeList := freeList[v := Remove(freeList[v], curr)];
        assert View() == Unlink(before, curr);
        SplitFrame(curr);
        freeList := freeList[v - 1 := [curr] + freeList[v - 1]];
        next := i;
      }
      assert View() == ReserveOne(before, curr, lo, hi);
    }
  }
}
