/** When heads sit at the base of their blocks, when no two free siblings are left, and why the
    free lists are then determined by the free frames. */
module BuddyCanon {
  import opened Bits
  import opened Buddy
  import opened BuddyRuns

  /** Every head is the lowest frame of its block. */
  ghost predicate Aligned(s: State)
    requires Shape(s)
  {
    forall h: nat :: Head(s, h) ==> Low(h, s.val[h]) == 0
  }

  ghost predicate FreeHead(s: State, h: nat)
    requires Shape(s)
  {
    Head(s, h) && !s.used[h]
  }

  /** `g` and `h` are different free heads, neither of them `out`, of sibling blocks. */
  ghost predicate Siblings(s: State, g: nat, h: nat, out: int)
    requires Shape(s)
  {
    && FreeHead(s, g) && FreeHead(s, h) && g != h && g != out && h != out
    && s.val[g] == s.val[h] < MAXORDER && Up(g, s.val[h] + 1) == Up(h, s.val[h] + 1)
  }

  ghost predicate NoSiblings(s: State, out: int)
    requires Shape(s)
  {
    forall g: nat, h: nat :: !Siblings(s, g, h, out)
  }

  /** The record of `f` says: free, order `j`. */
  ghost predicate FreeRecord(s: State, f: nat, j: nat)
    requires Shape(s)
  {
    f < FRAMES && s.val[f] == j && !s.used[f]
  }

  /** Read off the records before freeing `h`: the merge loop gets `h` to order `k`. */
  ghost predicate Reaches(s: State, h: nat, k: nat)
    requires Shape(s) && h < FRAMES
  {
    s.val[h] <= k <= MAXORDER && forall j: nat :: s.val[h] <= j < k ==> FreeRecord(s, Flip(h, j), j)
  }

  // ---------------------------------------------------------------- allocation

  /** Free siblings after a split were free siblings before, or are the two new halves. */
  lemma {:induction false} SplitSiblings(s: State, h: nat, i: nat, j: nat, out: int)
    requires Blocks(s) && Head(s, h) && s.val[h] > 0 && Siblings(Split(s, h), i, j, out)
    ensures (i != h && j != h && Siblings(s, i, j, out)) || (InBlock(s, i, h) && InBlock(s, j, h) && (i == h || j == h))
  {
    hide Up, Low, Flip, Pow2;
    var v: nat := s.val[h] - 1;
    var b := Flip(h, v);
    SplitShape(s, h);
    FlipBlock(h, v);
    SplitOwner(s, h, i);
    SplitOwner(s, h, j);
  }

  lemma {:induction false} SplitKeepsForm(s: State, h: nat)
    requires Inv(s, h) && Head(s, h) && s.val[h] > 0
    ensures Aligned(s) ==> Aligned(Split(s, h))
    ensures NoSiblings(s, h) ==> NoSiblings(Split(s, h), h)
  {
    hide Up, Low, Flip, Pow2;
    var v: nat := s.val[h] - 1;
    var t := Split(s, h);
    SplitShape(s, h);
    if Aligned(s) {
      forall g: nat | Head(t, g)
        ensures Low(g, t.val[g]) == 0
      {
        FlipBlock(h, v);
        SplitOwner(s, h, g);
        LowStep(h, v);
      }
    }
    forall g: nat, k: nat | Siblings(t, g, k, h)
      ensures Siblings(s, g, k, h)
    {
      SplitSiblings(s, h, g, k, h);
    }
  }

  lemma {:induction false} SplitDownKeepsForm(s: State, h: nat, v: nat)
    requires Inv(s, h) && Head(s, h) && !s.used[h] && s.val[h] >= v
    ensures Aligned(s) ==> Aligned(SplitDown(s, h, v))
    ensures NoSiblings(s, h) ==> NoSiblings(SplitDown(s, h, v), h)
    decreases s.val[h]
  {
    if s.val[h] > v {
      SplitKeepsForm(s, h);
      SplitKeepsInv(s, h);
      FlipBlock(h, s.val[h] - 1);
      SplitDownKeepsForm(Split(s, h), h, v);
    }
  }

  /** Allocation keeps heads aligned and leaves no free siblings. */
  lemma {:induction false} AllocKeepsForm(s: State, size: nat)
    requires Inv(s, -1) && CanAlloc(s, size)
    ensures Aligned(s) ==> Aligned(Alloc(s, size))
    ensures NoSiblings(s, -1) ==> NoSiblings(Alloc(s, size), -1)
  {
    var h := Target(s, size);
    var u := Unlink(s, h);
    UnlinkKeepsInv(s, h);
    assert Aligned(s) ==> Aligned(u);
    if NoSiblings(s, -1) {
      forall g: nat, k: nat
        ensures !Siblings(u, g, k, h)
      {
        assert !Siblings(s, g, k, -1);
      }
    }
    SplitDownKeepsForm(u, h, Order(size));
    var w := SplitDown(u, h, Order(size));
    var t := Alloc(s, size);
    assert forall g: nat :: Head(t, g) <==> Head(w, g);
    if NoSiblings(w, h) {
      forall g: nat, k: nat
        ensures !Siblings(t, g, k, -1)
      {
        assert !Siblings(w, g, k, h);
      }
    }
  }

  // ---------------------------------------------------------------- release

  /** Merging changes no record but that of `h`, drops no head but those merged in, and stops at the
      highest order that the records before it allow. */
  lemma {:induction false} MergeUpClimbs(s: State, h: nat)
    requires Shape(s) && h < FRAMES
    ensures var t := MergeUp(s, h);
      && s.val[h] <= t.val[h] && t.val == s.val[h := t.val[h]] && t.used == s.used
      && (forall k: nat :: Reaches(s, h, k) <==> s.val[h] <= k <= t.val[h])
    decreases MAXORDER - s.val[h]
  {
    var v := s.val[h];
    if v < MAXORDER {
      FlipInRange(h, v);
    }
    if Mergeable(s, h) {
      var m := Merge(s, h);
      MergeUpClimbs(m, h);
      forall j: nat
        ensures FreeRecord(s, Flip(h, j), j) <==> FreeRecord(m, Flip(h, j), j)
      {
        FlipBlock(h, j);
      }
      forall k: nat
        ensures Reaches(s, h, k) <==> k == v || Reaches(m, h, k)
      {
      }
    } else {
      forall k: nat
        ensures Reaches(s, h, k) <==> k == v
      {
        assert Reaches(s, h, k) && k > v ==> FreeRecord(s, Flip(h, v), v);
      }
    }
  }

  lemma {:induction false} MergeUpHeads(s: State, h: nat)
    requires Inv(s, h) && Head(s, h) && !s.used[h]
    ensures forall g: nat :: Head(MergeUp(s, h), g) ==> Head(s, g)
    ensures forall g: nat :: Head(s, g) && Up(g, MergeUp(s, h).val[h]) != Up(h, MergeUp(s, h).val[h]) ==> Head(MergeUp(s, h), g)
    decreases MAXORDER - s.val[h]
  {
    hide Up, Low, Flip, Pow2;
    if Mergeable(s, h) {
      var m := Merge(s, h);
      MergeSafety(s, h);
      MergeKeepsInv(s, h);
      MergeUpHeads(m, h);
      var b := Flip(h, s.val[h]);
      FlipBlock(h, s.val[h]);
      MergeUpClimbs(m, h);
      UpMono(b, h, s.val[h] + 1, MergeUp(s, h).val[h]);
    }
  }

  /** Some merge of `free_page(h)` happens while `h` is the upper half of its block of twice the order. */
  ghost predicate MergesAsUpperHalf(s: State, h: nat)
    requires Shape(s) && h < FRAMES
  {
    exists k: nat :: s.val[h] <= k && Bit(h, k) == 1 && Reaches(s, h, k + 1)
  }

  /** Heads stay at their block bases exactly when no merge is done from the upper half. */
  lemma {:induction false} FreeKeepsAligned(s: State, h: nat)
    requires Inv(s, -1) && UsedHead(s, h) && Aligned(s)
    ensures Aligned(Free(s, h)) <==> !MergesAsUpperHalf(s, h)
  {
    var u := SetUsed(s, h, false);
    ReleaseKeepsInv(s, h);
    MergeUpKeeps(u, h);
    MergeUpClimbs(u, h);
    MergeUpHeads(u, h);
    var w := MergeUp(u, h);
    var t := Free(s, h);
    ReleaseReaches(s, h);
    LowZero(h, s.val[h], w.val[h]);
    forall g: nat | Head(t, g) && g != h
      ensures Low(g, t.val[g]) == 0
    {
      assert Head(w, g);
    }
    assert Aligned(t) <==> Low(h, w.val[h]) == 0 by {
      assert Head(t, h) && t.val[h] == w.val[h];
    }
    if !Aligned(t) {
      var k: nat :| s.val[h] <= k < w.val[h] && Bit(h, k) != 0;
      assert Reaches(u, h, k + 1);
      assert Reaches(s, h, k + 1);
    }
    if MergesAsUpperHalf(s, h) {
      var k: nat :| s.val[h] <= k && Bit(h, k) == 1 && Reaches(s, h, k + 1);
      assert Reaches(u, h, k + 1);
    }
  }

  lemma {:induction false} ReleaseReaches(s: State, h: nat)
    requires Shape(s) && h < FRAMES
    ensures forall k: nat :: Reaches(SetUsed(s, h, false), h, k) <==> Reaches(s, h, k)
  {
    var u := SetUsed(s, h, false);
    forall j: nat
      ensures FreeRecord(s, Flip(h, j), j) <==> FreeRecord(u, Flip(h, j), j)
    {
      FlipBlock(h, j);
    }
  }

  /** At an order that the merge loop gets to, the sibling block is free but is headed by another
      frame than the one the merge test looks at. */
  ghost predicate Strands(s: State, h: nat)
    requires Shape(s) && h < FRAMES
  {
    exists k: nat, g: nat ::
      k < MAXORDER && Reaches(s, h, k) && g != Flip(h, k) && FreeHead(s, g) && s.val[g] == k && Up(g, k + 1) == Up(h, k + 1)
  }

  /** What a release does to the heads, in one place. */
  lemma {:induction false} FreeSummary(s: State, h: nat)
    requires Inv(s, -1) && UsedHead(s, h)
    ensures var t := Free(s, h);
      && Head(t, h) && !t.used[h] && s.val[h] <= t.val[h] <= MAXORDER
      && (forall k: nat :: Reaches(s, h, k) <==> s.val[h] <= k <= t.val[h])
      && (forall g: nat :: Head(t, g) ==> Head(s, g))
      && (forall g: nat :: Head(t, g) && g != h ==> t.val[g] == s.val[g] && t.used[g] == s.used[g])
      && (forall g: nat :: Head(s, g) && Up(g, t.val[h]) != Up(h, t.val[h]) ==> Head(t, g))
  {
    hide Up, Low, Flip, Pow2;
    var u := SetUsed(s, h, false);
    ReleaseKeepsInv(s, h);
    ReleaseReaches(s, h);
    MergeUpKeeps(u, h);
    MergeUpClimbs(u, h);
    MergeUpHeads(u, h);
    var w := MergeUp(u, h);
    forall g: nat
      ensures Head(Free(s, h), g) <==> Head(w, g)
      ensures Head(s, g) <==> Head(u, g)
    {
    }
  }

  lemma {:induction false} FreeStrands(s: State, h: nat)
    requires Inv(s, -1) && UsedHead(s, h) && Strands(s, h)
    ensures !NoSiblings(Free(s, h), -1)
  {
    hide Up, Low, Flip, Pow2, Free, Leftovers, Listed;
    var k: nat, g: nat :|
      k < MAXORDER && Reaches(s, h, k) && g != Flip(h, k) && FreeHead(s, g) && s.val[g] == k && Up(g, k + 1) == Up(h, k + 1);
    FreeSummary(s, h);
    if k < Free(s, h).val[h] {
      FreeClimbedHeads(s, h, k, g);
      assert false;
    }
    assert InBlock(s, h, g) <==> s.owner[h] == g;
    assert Siblings(Free(s, h), g, h, -1);
  }

  lemma {:induction false} FreeClimbedHeads(s: State, h: nat, k: nat, g: nat)
    requires Inv(s, -1) && UsedHead(s, h) && s.val[h] <= k < Free(s, h).val[h]
    requires FreeHead(s, g) && s.val[g] == k && Up(g, k + 1) == Up(h, k + 1)
    ensures g == Flip(h, k)
  {
    var u := SetUsed(s, h, false);
    ReleaseKeepsInv(s, h);
    ClimbedHeads(u, h, k, g);
  }

  /** If merging goes past order `k`, the free head of the sibling at order `k` is the frame looked at. */
  lemma {:induction false} ClimbedHeads(u: State, h: nat, k: nat, g: nat)
    requires Inv(u, h) && Head(u, h) && !u.used[h] && u.val[h] <= k < MergeUp(u, h).val[h]
    requires FreeHead(u, g) && g != h && u.val[g] == k && Up(g, k + 1) == Up(h, k + 1)
    ensures g == Flip(h, k)
    decreases MAXORDER - u.val[h]
  {
    MergeUpClimbs(u, h);
    MergeSafety(u, h);
    if u.val[h] == k {
      assert Head(u, g) && (InBlock(u, h, g) <==> u.owner[h] == g);
      assert u.owner[g] == Flip(h, k);
    } else {
      MergeKeepsInv(u, h);
      FlipBlock(h, u.val[h]);
      ClimbedHeads(Merge(u, h), h, k, g);
    }
  }

  lemma {:induction false} NewSiblingsAreStranded(s: State, h: nat, a: nat, b: nat)
    requires Inv(s, -1) && UsedHead(s, h) && Siblings(Free(s, h), a, b, -1)
    ensures Siblings(s, a, b, -1) || Strands(s, h)
  {
    hide Up, Low, Flip, Pow2, Free, Partition, Leftovers, Listed;
    FreeSummary(s, h);
    if a == h || b == h {
      var g := if a == h then b else a;
      var k := Free(s, h).val[h];
      FreeEnds(s, h);
      assert Reaches(s, h, k) && g != Flip(h, k) && FreeHead(s, g) && s.val[g] == k && Up(g, k + 1) == Up(h, k + 1);
    }
  }

  /** No free siblings are left exactly when the release strands none. */
  lemma {:induction false} FreeKeepsNoSiblings(s: State, h: nat)
    requires Inv(s, -1) && UsedHead(s, h) && NoSiblings(s, -1)
    ensures NoSiblings(Free(s, h), -1) <==> !Strands(s, h)
  {
    hide Up, Low, Flip, Pow2, Free, Partition, Leftovers, Listed;
    if Strands(s, h) {
      FreeStrands(s, h);
    } else {
      forall a: nat, b: nat
        ensures !Siblings(Free(s, h), a, b, -1)
      {
        if Siblings(Free(s, h), a, b, -1) {
          NewSiblingsAreStranded(s, h, a, b);
        }
      }
    }
  }

  /** The merge loop stops because the record it looks at last does not pass. */
  lemma {:induction false} FreeEnds(s: State, h: nat)
    requires Inv(s, -1) && UsedHead(s, h)
    ensures var t := Free(s, h); t.val[h] < MAXORDER ==> !FreeRecord(t, Flip(h, t.val[h]), t.val[h])
  {
    var u := SetUsed(s, h, false);
    ReleaseKeepsInv(s, h);
    MergeUpKeeps(u, h);
    FlipInRange(h, Free(s, h).val[h]);
  }

  /** With aligned heads and no merge from the upper half, nothing is stranded. */
  lemma {:induction false} LowerHalvesStrandNothing(s: State, h: nat)
    requires Inv(s, -1) && UsedHead(s, h) && Aligned(s) && !MergesAsUpperHalf(s, h)
    ensures !Strands(s, h)
  {
    if Strands(s, h) {
      var k: nat, g: nat :|
        k < MAXORDER && Reaches(s, h, k) && g != Flip(h, k) && FreeHead(s, g) && s.val[g] == k && Up(g, k + 1) == Up(h, k + 1);
      LowZero(h, s.val[h], k);
      forall j: nat | s.val[h] <= j < k
        ensures Bit(h, j) == 0
      {
        assert Reaches(s, h, j + 1);
      }
      FlipBlock(h, k);
      Halves(g, h, k);
      if Up(g, k) == Up(h, k) {
        OwnerOf(s, h, g);
        assert false;
      }
      UpLowDetermine(g, Flip(h, k), k);
    }
  }

  // ---------------------------------------------------------------- the free lists as a function of the free frames

  /** Two free halves that are not one block are siblings. */
  lemma {:induction false} FreeHalvesAreSiblings(s: State, x: nat, y: nat, v: nat)
    requires Blocks(s) && x < FRAMES && y < FRAMES && v < MAXORDER && y == Flip(x, v)
    requires FreeFrame(s, x) && FreeFrame(s, y) && s.val[s.owner[x]] == v <= s.val[s.owner[y]]
    ensures Siblings(s, s.owner[x], s.owner[y], -1)
  {
    hide Up, Low, Flip, Pow2;
    var g, h := s.owner[x], s.owner[y];
    FlipBlock(x, v);
    assert Head(s, g) && InBlock(s, x, g) && Head(s, h) && InBlock(s, y, h);
    if s.val[h] > v {
      UpMono(x, y, v + 1, s.val[h]);
      OwnerOf(s, x, h);
      assert false;
    }
    UpMono(g, x, v, v + 1);
    UpMono(h, y, v, v + 1);
  }

  /** A block all of whose frames are free lies inside one free block. */
  lemma {:induction false} FreeRegion(s: State, x: nat, w: nat)
    requires Inv(s, -1) && NoSiblings(s, -1) && x < FRAMES && w <= MAXORDER
    requires forall f: nat :: f < FRAMES && Up(f, w) == Up(x, w) ==> FreeFrame(s, f)
    ensures s.val[s.owner[x]] >= w
    decreases w
  {
    hide Up, Low, Flip, Pow2;
    if w > 0 {
      var v: nat := w - 1;
      var y := Flip(x, v);
      FlipInRange(x, v);
      FlipBlock(x, v);
      forall f: nat | f < FRAMES && (Up(f, v) == Up(x, v) || Up(f, v) == Up(y, v))
        ensures FreeFrame(s, f)
      {
        UpStep(f, v);
        UpStep(x, v);
        UpStep(y, v);
      }
      FreeRegion(s, x, v);
      FreeRegion(s, y, v);
      if s.val[s.owner[x]] == v {
        FreeHalvesAreSiblings(s, x, y, v);
      }
    }
  }

  lemma {:induction false} FreeBlockOrder(s: State, t: State, f: nat)
    requires Inv(s, -1) && Inv(t, -1) && NoSiblings(t, -1)
    requires forall f: nat :: FreeFrame(s, f) <==> FreeFrame(t, f)
    requires FreeFrame(s, f)
    ensures s.val[s.owner[f]] <= t.val[t.owner[f]]
  {
    var h := s.owner[f];
    assert Head(s, h) && InBlock(s, f, h);
    forall x: nat | x < FRAMES && Up(x, s.val[h]) == Up(f, s.val[h])
      ensures FreeFrame(t, x)
    {
      assert InBlock(s, x, h);
      assert FreeFrame(s, x);
    }
    FreeRegion(t, f, s.val[h]);
  }

  lemma {:induction false} FreeHeadCarries(s: State, t: State, v: nat, h: nat)
    requires Inv(s, -1) && Inv(t, -1) && Aligned(s) && Aligned(t) && NoSiblings(s, -1) && NoSiblings(t, -1)
    requires forall f: nat :: FreeFrame(s, f) <==> FreeFrame(t, f)
    requires v <= MAXORDER && h in s.free[v]
    ensures h in t.free[v]
  {
    assert Head(s, h);
    assert FreeFrame(s, h);
    FreeBlockOrder(s, t, h);
    FreeBlockOrder(t, s, h);
    var o := t.owner[h];
    assert Head(t, o) && InBlock(t, h, o) && FreeFrame(t, h);
    UpLowDetermine(h, o, v);
  }

  /** Aligned heads and no free siblings: the free frames determine every free list as a set. */
  lemma {:induction false} FreeListsDetermined(s: State, t: State)
    requires Inv(s, -1) && Inv(t, -1) && Aligned(s) && Aligned(t) && NoSiblings(s, -1) && NoSiblings(t, -1)
    requires forall f: nat :: FreeFrame(s, f) <==> FreeFrame(t, f)
    ensures forall v: nat, h: nat :: v <= MAXORDER ==> (h in s.free[v] <==> h in t.free[v])
  {
    forall v: nat, h: nat | v <= MAXORDER
      ensures h in s.free[v] <==> h in t.free[v]
    {
      if h in s.free[v] {
        FreeHeadCarries(s, t, v, h);
      }
      if h in t.free[v] {
        FreeHeadCarries(t, s, v, h);
      }
    }
  }
}
