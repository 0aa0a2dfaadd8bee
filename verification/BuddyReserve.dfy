/** Taking address ranges out of the free lists at boot, and the state the allocator starts from. */
module BuddyReserve {
  import opened MemoryMap
  import opened Bits
  import opened Lists
  import opened Buddy
  import opened BuddyRuns
  import opened BuddyCanon

  const FRAME_START: nat := 0xffff_0000_0000_0000

  function Addr(f: nat): nat {
    FRAME_START + PAGE * f
  }

  function PageDown(a: nat): nat {
    a - a % PAGE
  }

  /** Rounding up in 64-bit arithmetic. */
  function PageUp(a: nat): nat {
    PageDown((a + (PAGE - 1)) % WORD)
  }

  /** The order-`v` block at `h` is not skipped: it reaches into the range. */
  predicate Touches(h: nat, v: nat, lo: nat, hi: nat) {
    lo < Addr(h) + PAGE * Pow2(v) && hi > Addr(h)
  }

  predicate Covered(h: nat, v: nat, lo: nat, hi: nat) {
    lo <= Addr(h) && hi >= Addr(h) + PAGE * Pow2(v)
  }

  predicate Untouched(l: seq<nat>, v: nat, lo: nat, hi: nat) {
    forall k :: 0 <= k < |l| ==> !Touches(l[k], v, lo, hi)
  }

  predicate InRange(f: nat, lo: nat, hi: nat) {
    lo <= Addr(f) < hi
  }

  predicate PageAligned(lo: nat, hi: nat) {
    lo % PAGE == 0 && hi % PAGE == 0
  }

  // ---------------------------------------------------------------- the pass

  /** What the pass does to one entry of the list it walks. */
  ghost function ReserveOne(s: State, h: nat, lo: nat, hi: nat): (t: State)
    requires Inv(s, -1) && FreeHead(s, h) && PageAligned(lo, hi)
    ensures Shape(t)
  {
    var v := s.val[h];
    if Covered(h, v, lo, hi) then SetUsed(Unlink(s, h), h, true)
    else if !Touches(h, v, lo, hi) then s
    else
      NeverSplitsOnePage(h, v, lo, hi);
      Link(Split(Unlink(s, h), h), h)
  }

  /** A single page is either inside a page-aligned range or outside it. */
  lemma {:induction false} NeverSplitsOnePage(h: nat, v: nat, lo: nat, hi: nat)
    requires PageAligned(lo, hi) && !Covered(h, v, lo, hi) && Touches(h, v, lo, hi)
    ensures v > 0
  {
    assert Pow2(0) == 1;
  }

  lemma {:induction false} ReserveOneKeepsInv(s: State, h: nat, lo: nat, hi: nat)
    requires Inv(s, -1) && FreeHead(s, h) && PageAligned(lo, hi)
    ensures Inv(ReserveOne(s, h, lo, hi), -1)
    ensures forall w: nat :: s.val[h] < w <= MAXORDER ==> ReserveOne(s, h, lo, hi).free[w] == s.free[w]
    ensures ReserveOne(s, h, lo, hi).free[s.val[h]] ==
      if Covered(h, s.val[h], lo, hi) || Touches(h, s.val[h], lo, hi) then Remove(s.free[s.val[h]], h) else s.free[s.val[h]]
  {
    var v := s.val[h];
    if Covered(h, v, lo, hi) {
      UnlinkKeepsInv(s, h);
      ClaimKeepsInv(Unlink(s, h), h);
    } else if Touches(h, v, lo, hi) {
      NeverSplitsOnePage(h, v, lo, hi);
      UnlinkKeepsInv(s, h);
      FlipBlock(h, v - 1);
      SplitKeepsInv(Unlink(s, h), h);
      LinkKeepsInv(Split(Unlink(s, h), h), h);
    }
  }

  /** The halves of an entry that is split go to the front of the next list, the held one first. */
  lemma {:induction false} HalvesInFront(s: State, h: nat, lo: nat, hi: nat)
    requires Inv(s, -1) && FreeHead(s, h) && PageAligned(lo, hi)
    requires Touches(h, s.val[h], lo, hi) && !Covered(h, s.val[h], lo, hi)
    ensures s.val[h] > 0 && ReserveOne(s, h, lo, hi).free[s.val[h] - 1] == [h, Flip(h, s.val[h] - 1)] + s.free[s.val[h] - 1]
  {
    hide Partition, Leftovers, Listed, Up, Low, Flip, Touches, Covered;
    NeverSplitsOnePage(h, s.val[h], lo, hi);
    FlipBlock(h, s.val[h] - 1);
  }

  /** The list of order `v` is walked from position `i`; an entry that is unlinked makes room for the next. */
  ghost function ReserveLevel(s: State, v: nat, i: nat, lo: nat, hi: nat): (t: State)
    requires Inv(s, -1) && v <= MAXORDER && PageAligned(lo, hi)
    ensures Inv(t, -1)
    decreases |s.free[v]| - i
  {
    if i >= |s.free[v]| then s
    else
      var h := s.free[v][i];
      assert h in s.free[v];
      ReserveOneKeepsInv(s, h, lo, hi);
      RemoveAt(s.free[v], i);
      ReserveLevel(ReserveOne(s, h, lo, hi), v,
                   if Covered(h, v, lo, hi) || Touches(h, v, lo, hi) then i else i + 1, lo, hi)
  }

  /** The lists of orders below `n` are walked, highest first. */
  ghost function ReserveDown(s: State, n: nat, lo: nat, hi: nat): (t: State)
    requires Inv(s, -1) && n <= MAXORDER + 1 && PageAligned(lo, hi)
    ensures Inv(t, -1)
    decreases n
  {
    if n == 0 then s else ReserveDown(ReserveLevel(s, n - 1, 0, lo, hi), n - 1, lo, hi)
  }

  ghost function Reserve(s: State, start: nat, end: nat): (t: State)
    requires Inv(s, -1)
    ensures Inv(t, -1)
  {
    ReserveDown(s, MAXORDER + 1, PageDown(start), PageUp(end))
  }

  // ---------------------------------------------------------------- what it takes out

  /** The frames of an aligned block are a run of 2^v frames from its head. */
  lemma {:induction false} BlockIsRun(h: nat, v: nat, f: nat)
    requires Low(h, v) == 0
    ensures Up(f, v) == Up(h, v) <==> h <= f < h + Pow2(v)
  {
    Cut(h, v);
    Cut(f, v);
    if Up(f, v) < Up(h, v) {
      MulLess(Up(f, v), Up(h, v), Pow2(v));
    } else if Up(f, v) > Up(h, v) {
      MulLess(Up(h, v), Up(f, v), Pow2(v));
    }
  }

  /** Between `s` and `t`, only frames inside the range stopped being free. */
  ghost predicate TakesOnly(s: State, t: State, lo: nat, hi: nat)
    requires Shape(s) && Shape(t)
  {
    forall f: nat :: f < FRAMES ==>
      (FreeFrame(t, f) ==> FreeFrame(s, f)) && (!InRange(f, lo, hi) ==> (FreeFrame(t, f) <==> FreeFrame(s, f)))
  }

  /** Sibling blocks that are both free together reach into the range. */
  ghost predicate SiblingsTouch(s: State, lo: nat, hi: nat)
    requires Shape(s)
  {
    forall g: nat, h: nat :: Siblings(s, g, h, -1) && g < h ==> Touches(g, s.val[g] + 1, lo, hi)
  }

  lemma {:induction false} LinkRecuts(s: State, h: nat)
    requires Inv(s, h) && FreeHead(s, h)
    ensures Recut(s, Link(s, h))
  {
  }

  lemma {:induction false} ReserveOneTakes(s: State, h: nat, lo: nat, hi: nat)
    requires Inv(s, -1) && FreeHead(s, h) && PageAligned(lo, hi) && Aligned(s)
    ensures Aligned(ReserveOne(s, h, lo, hi))
    ensures TakesOnly(s, ReserveOne(s, h, lo, hi), lo, hi)
  {
    var v := s.val[h];
    var u := Unlink(s, h);
    var t := ReserveOne(s, h, lo, hi);
    if Covered(h, v, lo, hi) {
      forall f: nat | f < FRAMES && s.owner[f] == h
        ensures InRange(f, lo, hi)
      {
        assert InBlock(s, f, s.owner[f]);
        BlockIsRun(h, v, f);
      }
      assert forall g: nat :: Head(t, g) <==> Head(s, g);
    } else if Touches(h, v, lo, hi) {
      NeverSplitsOnePage(h, v, lo, hi);
      UnlinkKeepsInv(s, h);
      assert Aligned(u) by {
        assert forall g: nat :: Head(u, g) <==> Head(s, g);
      }
      SplitKeepsForm(u, h);
      SplitRecuts(u, h);
      SplitKeepsInv(u, h);
      FlipBlock(h, v - 1);
      var w := Split(u, h);
      LinkRecuts(w, h);
      assert forall g: nat :: Head(t, g) <==> Head(w, g);
      forall f: nat | f < FRAMES
        ensures FreeFrame(t, f) <==> FreeFrame(s, f)
      {
        assert FreeFrame(s, f) <==> FreeFrame(u, f);
        assert FreeFrame(u, f) <==> FreeFrame(w, f);
        assert FreeFrame(w, f) <==> FreeFrame(t, f);
      }
    }
  }

  lemma {:induction false} SplitSiblingsTouch(s: State, h: nat, lo: nat, hi: nat)
    requires Inv(s, h) && FreeHead(s, h) && s.val[h] > 0 && Aligned(s) && SiblingsTouch(s, lo, hi)
    requires Touches(h, s.val[h], lo, hi)
    ensures SiblingsTouch(Split(s, h), lo, hi)
  {
    hide Up, Low, Flip, Pow2, Leftovers, Listed;
    var v := s.val[h];
    var t := Split(s, h);
    FlipBlock(h, v - 1);
    forall i: nat, j: nat | Siblings(t, i, j, -1) && i < j
      ensures Touches(i, t.val[i] + 1, lo, hi)
    {
      SplitSiblings(s, h, i, j, -1);
      if i == h || j == h {
        SplitShape(s, h);
        BlockIsRun(h, v, i);
      } else {
        assert i < FRAMES && i != Flip(h, v - 1);
      }
    }
  }

  lemma {:induction false} ReserveOneSiblings(s: State, h: nat, lo: nat, hi: nat)
    requires Inv(s, -1) && FreeHead(s, h) && PageAligned(lo, hi) && Aligned(s) && SiblingsTouch(s, lo, hi)
    ensures SiblingsTouch(ReserveOne(s, h, lo, hi), lo, hi)
  {
    var v := s.val[h];
    var u := Unlink(s, h);
    var t := ReserveOne(s, h, lo, hi);
    var w := u;
    if !Covered(h, v, lo, hi) && Touches(h, v, lo, hi) {
      NeverSplitsOnePage(h, v, lo, hi);
      UnlinkKeepsInv(s, h);
      SameSiblings(s, u, lo, hi);
      assert Aligned(u) by {
        assert forall g: nat :: Head(u, g) <==> Head(s, g);
      }
      SplitSiblingsTouch(u, h, lo, hi);
      w := Split(u, h);
    } else {
      SameSiblings(s, u, lo, hi);
    }
    SameSiblings(w, t, lo, hi);
  }

  /** Siblings depend on owners, orders and use alone, and shrink as heads come into use. */
  lemma {:induction false} SameSiblings(s: State, t: State, lo: nat, hi: nat)
    requires Shape(s) && Shape(t) && SiblingsTouch(s, lo, hi)
    requires t.owner == s.owner && t.val == s.val && forall g: nat :: g < FRAMES && s.used[g] ==> t.used[g]
    ensures SiblingsTouch(t, lo, hi)
  {
    forall i: nat, j: nat | Siblings(t, i, j, -1) && i < j
      ensures Touches(i, t.val[i] + 1, lo, hi)
    {
      assert Siblings(s, i, j, -1);
    }
  }

  /** Where the walk goes on after its entry `h`, at position `i`. */
  function Onward(h: nat, v: nat, i: nat, lo: nat, hi: nat): nat {
    if Covered(h, v, lo, hi) || Touches(h, v, lo, hi) then i else i + 1
  }

  lemma {:induction false} WalkStep(s: State, v: nat, i: nat, lo: nat, hi: nat)
    requires Inv(s, -1) && v <= MAXORDER && PageAligned(lo, hi) && Aligned(s)
    requires i < |s.free[v]| && Untouched(s.free[v][..i], v, lo, hi)
    ensures FreeHead(s, s.free[v][i])
    ensures var h := s.free[v][i]; var m, j := ReserveOne(s, h, lo, hi), Onward(h, v, i, lo, hi);
      && Inv(m, -1) && Aligned(m) && TakesOnly(s, m, lo, hi)
      && (forall w: nat :: v < w <= MAXORDER ==> m.free[w] == s.free[w])
      && j <= |m.free[v]| && |m.free[v]| - j == |s.free[v]| - i - 1 && Untouched(m.free[v][..j], v, lo, hi)
      && (SiblingsTouch(s, lo, hi) ==> SiblingsTouch(m, lo, hi))
  {
    hide Up, Low, Partition, Leftovers, Aligned, SiblingsTouch, TakesOnly, ReserveOne, Covered, Touches;
    var h := s.free[v][i];
    assert h in s.free[v];
    ReserveOneKeepsInv(s, h, lo, hi);
    ReserveOneTakes(s, h, lo, hi);
    if SiblingsTouch(s, lo, hi) {
      ReserveOneSiblings(s, h, lo, hi);
    }
    RemoveAt(s.free[v], i);
  }

  lemma {:induction false} ReserveLevelTakes(s: State, v: nat, i: nat, lo: nat, hi: nat)
    requires Inv(s, -1) && v <= MAXORDER && PageAligned(lo, hi) && Aligned(s)
    requires i <= |s.free[v]| && Untouched(s.free[v][..i], v, lo, hi)
    ensures var t := ReserveLevel(s, v, i, lo, hi);
      && Aligned(t) && TakesOnly(s, t, lo, hi)
      && (forall w: nat :: v < w <= MAXORDER ==> t.free[w] == s.free[w])
      && Untouched(t.free[v], v, lo, hi)
      && (SiblingsTouch(s, lo, hi) ==> SiblingsTouch(t, lo, hi))
    decreases |s.free[v]| - i
  {
    hide Up, Low, Partition, Leftovers, Listed, Aligned, SiblingsTouch, ReserveOne, InRange, Covered, Touches;
    if i < |s.free[v]| {
      WalkStep(s, v, i, lo, hi);
      var h := s.free[v][i];
      ReserveLevelTakes(ReserveOne(s, h, lo, hi), v, Onward(h, v, i, lo, hi), lo, hi);
    }
  }

  lemma {:induction false} ReserveDownTakes(s: State, n: nat, lo: nat, hi: nat)
    requires Inv(s, -1) && n <= MAXORDER + 1 && PageAligned(lo, hi) && Aligned(s)
    requires forall w: nat :: n <= w <= MAXORDER ==> Untouched(s.free[w], w, lo, hi)
    ensures var t := ReserveDown(s, n, lo, hi);
      && Aligned(t) && TakesOnly(s, t, lo, hi)
      && (forall w: nat :: w <= MAXORDER ==> Untouched(t.free[w], w, lo, hi))
      && (SiblingsTouch(s, lo, hi) ==> SiblingsTouch(t, lo, hi))
    decreases n
  {
    hide Up, Partition, Leftovers, Listed, Aligned, SiblingsTouch, ReserveLevel;
    if n > 0 {
      ReserveLevelTakes(s, n - 1, 0, lo, hi);
      ReserveDownTakes(ReserveLevel(s, n - 1, 0, lo, hi), n - 1, lo, hi);
    }
  }

  // ---------------------------------------------------------------- the range in bytes

  /** The range, rounded outward to pages, holds the page of frame `f`.  An end in the last page of the 64-bit
      range rounds to 0, and nothing is held. */
  predicate Reached(f: nat, start: nat, end: nat) {
    end <= WORD - PAGE && Addr(f) < end && start < Addr(f) + PAGE
  }

  lemma {:induction false} PageDownIs(a: nat)
    ensures PageDown(a) <= a < PageDown(a) + PAGE && PageDown(a) % PAGE == 0
  {
  }

  lemma {:induction false} PageUpIs(a: nat)
    requires a < WORD
    ensures PageUp(a) % PAGE == 0
    ensures if a <= WORD - PAGE then a <= PageUp(a) < a + PAGE else PageUp(a) == 0
  {
  }

  lemma {:induction false} AlignedLess(a: nat, b: nat)
    requires a % PAGE == 0 && b % PAGE == 0 && a < b + PAGE
    ensures a <= b
  {
  }

  /** A page is in the rounded range exactly when the range reaches it. */
  lemma {:induction false} InRangeIs(f: nat, start: nat, end: nat)
    requires end < WORD
    ensures InRange(f, PageDown(start), PageUp(end)) <==> Reached(f, start, end)
  {
    PageDownIs(start);
    PageUpIs(end);
    assert Addr(f) % PAGE == 0;
    hide PageDown, PageUp, Addr;
    if start < Addr(f) + PAGE {
      AlignedLess(PageDown(start), Addr(f));
    }
    if Addr(f) >= end && end <= WORD - PAGE {
      AlignedLess(PageUp(end), Addr(f));
    }
  }

  /** From `s` to `t`, with aligned heads, exactly the pages that the range reaches stopped being free. */
  ghost predicate TakesReached(s: State, t: State, start: nat, end: nat)
    requires Shape(s) && Shape(t)
  {
    Aligned(t) && forall f: nat :: FreeFrame(t, f) <==> FreeFrame(s, f) && !Reached(f, start, end)
  }

  /** Reserving takes exactly the pages that the range reaches out of the free frames. */
  lemma {:induction false} ReserveTakes(s: State, start: nat, end: nat)
    requires Inv(s, -1)
    ensures Aligned(s) && end < WORD ==> TakesReached(s, Reserve(s, start, end), start, end)
  {
    hide Reserve, Reached, InRange, PageUp, PageDown, Aligned;
    if Aligned(s) && end < WORD {
      ReserveSubtracts(s, start, end);
      forall f: nat
        ensures FreeFrame(Reserve(s, start, end), f) <==> FreeFrame(s, f) && !Reached(f, start, end)
      {
        InRangeIs(f, start, end);
      }
    }
  }

  /** Reserving takes exactly the page-rounded range out of the free frames. */
  lemma {:induction false} ReserveSubtracts(s: State, start: nat, end: nat)
    requires Inv(s, -1) && Aligned(s)
    ensures Aligned(Reserve(s, start, end))
    ensures forall f: nat :: f < FRAMES ==>
      (FreeFrame(Reserve(s, start, end), f) <==> FreeFrame(s, f) && !InRange(f, PageDown(start), PageUp(end)))
  {
    var lo, hi := PageDown(start), PageUp(end);
    ReserveDownTakes(s, MAXORDER + 1, lo, hi);
    var t := Reserve(s, start, end);
    forall f: nat | FreeFrame(t, f)
      ensures !InRange(f, lo, hi)
    {
      FreeAndUntouched(t, f, lo, hi);
    }
  }

  lemma {:induction false} FreeAndUntouched(t: State, f: nat, lo: nat, hi: nat)
    requires Inv(t, -1) && Aligned(t) && FreeFrame(t, f)
    requires forall w: nat :: w <= MAXORDER ==> Untouched(t.free[w], w, lo, hi)
    ensures !InRange(f, lo, hi)
  {
    var h := t.owner[f];
    assert Head(t, h) && InBlock(t, f, h);
    assert h in t.free[t.val[h]] && Untouched(t.free[t.val[h]], t.val[h], lo, hi);
    BlockIsRun(h, t.val[h], f);
  }

  lemma {:induction false} ReserveLeavesUntouched(s: State, start: nat, end: nat)
    requires Inv(s, -1) && Aligned(s) && NoSiblings(s, -1)
    ensures Aligned(Reserve(s, start, end))
    ensures forall h: nat :: FreeHead(Reserve(s, start, end), h) ==>
      !Touches(h, Reserve(s, start, end).val[h], PageDown(start), PageUp(end))
    ensures SiblingsTouch(Reserve(s, start, end), PageDown(start), PageUp(end))
  {
    hide Up, Low, Partition, Leftovers, Touches, Aligned, ReserveDown;
    var lo, hi := PageDown(start), PageUp(end);
    var t := Reserve(s, start, end);
    assert SiblingsTouch(s, lo, hi) by {
      assert forall g: nat, h: nat :: !Siblings(s, g, h, -1);
    }
    ReserveDownTakes(s, MAXORDER + 1, lo, hi);
    forall h: nat | FreeHead(t, h)
      ensures !Touches(h, t.val[h], lo, hi)
    {
      assert h in t.free[t.val[h]] && Untouched(t.free[t.val[h]], t.val[h], lo, hi);
    }
  }

  /** After a reserve, no two free siblings are left exactly when the range is not empty, or is
      empty and lies inside no free block. */
  lemma {:induction false} ReserveKeepsNoSiblings(s: State, start: nat, end: nat)
    requires Inv(s, -1) && Aligned(s) && NoSiblings(s, -1)
    ensures NoSiblings(Reserve(s, start, end), -1) <==>
      PageDown(start) < PageUp(end) ||
      forall h: nat :: FreeHead(s, h) ==> !Touches(h, s.val[h], PageDown(start), PageUp(end))
  {
    hide Up, Low, Pow2, Partition, Leftovers, Aligned, ReserveLevel, ReserveDown;
    var lo, hi := PageDown(start), PageUp(end);
    var t := Reserve(s, start, end);
    ReserveLeavesUntouched(s, start, end);
    forall g: nat, h: nat | Siblings(t, g, h, -1)
      ensures hi <= lo
    {
      assert Siblings(t, h, g, -1);
      SiblingsUntouched(t, if g < h then g else h, if g < h then h else g, lo, hi);
    }
    if hi <= lo {
      if NoSiblings(t, -1) {
        EmptyRangeSameForm(s, t, start, end);
      } else if forall h: nat :: FreeHead(s, h) ==> !Touches(h, s.val[h], lo, hi) {
        forall v: nat | v <= MAXORDER
          ensures ReserveLevel(s, v, 0, lo, hi) == s
        {
          UntouchedLevel(s, v, 0, lo, hi);
        }
        UntouchedDown(s, MAXORDER + 1, lo, hi);
        assert false;
      }
    }
  }

  lemma {:induction false} EmptyRangeSameForm(s: State, t: State, start: nat, end: nat)
    requires Inv(s, -1) && Aligned(s) && NoSiblings(s, -1) && PageUp(end) <= PageDown(start)
    requires t == Reserve(s, start, end) && NoSiblings(t, -1)
    requires forall h: nat :: FreeHead(t, h) ==> !Touches(h, t.val[h], PageDown(start), PageUp(end))
    ensures forall h: nat :: FreeHead(s, h) ==> !Touches(h, s.val[h], PageDown(start), PageUp(end))
  {
    ReserveSubtracts(s, start, end);
    FreeListsDetermined(s, t);
    forall h: nat | FreeHead(s, h)
      ensures !Touches(h, s.val[h], PageDown(start), PageUp(end))
    {
      var v := s.val[h];
      assert h in s.free[v] && h in t.free[v];
      assert FreeHead(t, h) && t.val[h] == v;
    }
  }

  lemma {:induction false} SiblingBases(g: nat, h: nat, v: nat)
    requires Low(g, v) == 0 && Low(h, v) == 0 && g < h && Up(g, v + 1) == Up(h, v + 1)
    ensures h == g + Pow2(v)
  {
    UpStep(g, v);
    UpStep(h, v);
    Cut(g, v);
    Cut(h, v);
    if Up(h, v) < Up(g, v) {
      MulLess(Up(h, v), Up(g, v), Pow2(v));
      assert false;
    }
    assert Up(h, v) == Up(g, v) + 1;
    assert (Up(g, v) + 1) * Pow2(v) == Up(g, v) * Pow2(v) + Pow2(v);
  }

  lemma {:induction false} SiblingsUntouched(t: State, g: nat, h: nat, lo: nat, hi: nat)
    requires Inv(t, -1) && Aligned(t) && Siblings(t, g, h, -1) && g < h
    requires Touches(g, t.val[g] + 1, lo, hi) && !Touches(g, t.val[g], lo, hi) && !Touches(h, t.val[h], lo, hi)
    ensures hi <= lo
  {
    SiblingBases(g, h, t.val[g]);
  }

  lemma {:induction false} NotTouchedNotCovered(s: State, h: nat, lo: nat, hi: nat)
    requires Inv(s, -1) && FreeHead(s, h) && PageAligned(lo, hi) && hi <= lo && !Touches(h, s.val[h], lo, hi)
    ensures !Covered(h, s.val[h], lo, hi) && ReserveOne(s, h, lo, hi) == s
  {
  }

  lemma {:induction false} UntouchedLevel(s: State, v: nat, i: nat, lo: nat, hi: nat)
    requires Inv(s, -1) && v <= MAXORDER && PageAligned(lo, hi) && hi <= lo
    requires forall h: nat :: FreeHead(s, h) ==> !Touches(h, s.val[h], lo, hi)
    ensures ReserveLevel(s, v, i, lo, hi) == s
    decreases |s.free[v]| - i
  {
    hide Up, Low, Partition, Leftovers, ReserveOne, InRange, Touches;
    if i < |s.free[v]| {
      assert s.free[v][i] in s.free[v];
      NotTouchedNotCovered(s, s.free[v][i], lo, hi);
      UntouchedLevel(s, v, i + 1, lo, hi);
    }
  }

  lemma {:induction false} UntouchedDown(s: State, n: nat, lo: nat, hi: nat)
    requires Inv(s, -1) && n <= MAXORDER + 1 && PageAligned(lo, hi)
    requires forall v: nat :: v <= MAXORDER ==> ReserveLevel(s, v, 0, lo, hi) == s
    ensures ReserveDown(s, n, lo, hi) == s
    decreases n
  {
    hide Up, Partition, Leftovers, Listed, ReserveLevel;
    if n > 0 {
      UntouchedDown(s, n - 1, lo, hi);
    }
  }
}
