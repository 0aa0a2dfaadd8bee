/** Whole histories of the page allocator: boot, then any allocations and releases. */
module BuddyHistory {
  import opened MemoryMap
  import opened Bits
  import opened Buddy
  import opened BuddyRuns
  import opened BuddyForm
  import opened BuddyCanon
  import opened BuddyReserve

  // ---------------------------------------------------------------- boot

  const BLOCKS: nat := 3840

  /** The state after the frame loop of `init_allocator`: every 64th frame heads a free block.
      The other records are taken to be zero in memory. */
  function Init(): State {
    State(seq(FRAMES, f => if f % 64 == 0 then MAXORDER else 0),
          seq(FRAMES, _ => false),
          seq(FRAMES, f requires 0 <= f => f - f % 64),
          [[], [], [], [], [], [], seq(BLOCKS, i requires 0 <= i < BLOCKS => 64 * (BLOCKS - 1 - i))])
  }

  lemma {:induction false} UpSix(f: nat)
    ensures Up(f, 6) == f / 64
  {
    Cut(f, 6);
    assert Pow2(6) == 64;
    assert f == Up(f, 6) * 64 + Low(f, 6);
  }

  lemma {:induction false} InitPartition()
    ensures Shape(Init()) && Partition(Init())
  {
    var s := Init();
    forall f | 0 <= f < FRAMES
      ensures Head(s, s.owner[f]) && InBlock(s, f, s.owner[f])
    {
      UpSix(f);
      UpSix(f - f % 64);
    }
    forall f, h | 0 <= f < FRAMES && Head(s, h) && InBlock(s, f, h)
      ensures s.owner[f] == h
    {
      UpSix(f);
      UpSix(h);
    }
  }

  lemma {:induction false} InitListed()
    requires Shape(Init())
    ensures Listed(Init(), -1)
  {
    var s := Init();
    forall h: nat
      ensures h in s.free[MAXORDER] <==> Head(s, h) && s.val[h] == MAXORDER && !s.used[h]
    {
      if h < FRAMES && h % 64 == 0 {
        assert s.free[MAXORDER][BLOCKS - 1 - h / 64] == h;
      }
    }
    forall v: nat, h: nat | v < MAXORDER
      ensures h in s.free[v] <==> Head(s, h) && s.val[h] == v && !s.used[h]
    {
      assert s.free[v] == [];
    }
  }

  /** At boot all frames are free, in aligned blocks of the largest order, with no siblings to merge. */
  lemma {:induction false} InitForm()
    ensures Inv(Init(), -1) && Aligned(Init()) && NoSiblings(Init(), -1)
    ensures forall f: nat :: f < FRAMES ==> FreeFrame(Init(), f)
  {
    var s := Init();
    InitPartition();
    InitListed();
    forall f: nat | f < FRAMES
      ensures Low(f, s.val[f]) == Low(s.owner[f], s.val[f])
      ensures Head(s, f) ==> Low(f, s.val[f]) == 0
    {
      UpSix(f);
      Cut(f, 6);
      assert Pow2(6) == 64;
    }
  }

  /** The last blocks are handed out first: with nothing reserved, any first request gets the block of the last frames. */
  lemma {:induction false} LastBlockFirst(size: nat)
    ensures Inv(Init(), -1) && CanAlloc(Init(), size) && Target(Init(), size) == FRAMES - 64
  {
    InitForm();
    OrderIsLeast(size);
    SupplyIsFirst(Init(), Order(size));
    hide Inv;
    assert Init().free[MAXORDER][0] == FRAMES - 64;
  }

  /** The state after the boot code has reserved `ranges`, in turn. */
  ghost function Boot(ranges: seq<(nat, nat)>): (s: State)
    ensures Inv(s, -1)
  {
    InitForm();
    if ranges == [] then Init()
    else Reserve(Boot(ranges[..|ranges| - 1]), ranges[|ranges| - 1].0, ranges[|ranges| - 1].1)
  }

  /** The range is not empty once rounded, or is empty and lies inside no free block. */
  ghost predicate Harmless(s: State, r: (nat, nat))
    requires Shape(s)
  {
    PageDown(r.0) < PageUp(r.1) || forall h: nat :: FreeHead(s, h) ==> !Touches(h, s.val[h], PageDown(r.0), PageUp(r.1))
  }

  /** Each range is harmless to the state that it finds. */
  ghost predicate AllHarmless(ranges: seq<(nat, nat)>) {
    ranges == [] || (AllHarmless(ranges[..|ranges| - 1]) && Harmless(Boot(ranges[..|ranges| - 1]), ranges[|ranges| - 1]))
  }

  /** Boot leaves free exactly the frames outside every rounded range, under aligned heads; and no free
      siblings when every range is harmless. */
  lemma {:induction false} BootForm(ranges: seq<(nat, nat)>)
    ensures Aligned(Boot(ranges))
    ensures forall f: nat :: f < FRAMES ==>
      (FreeFrame(Boot(ranges), f) <==> forall r :: r in ranges ==> !InRange(f, PageDown(r.0), PageUp(r.1)))
    ensures AllHarmless(ranges) ==> NoSiblings(Boot(ranges), -1)
  {
    if ranges == [] {
      InitForm();
    } else {
      var n := |ranges| - 1;
      var s := Boot(ranges[..n]);
      BootForm(ranges[..n]);
      BootStep(s, ranges[n]);
      LastRange(ranges);
      hide Inv, Init, Reserve, Aligned, NoSiblings, PageUp, PageDown, InRange, FreeFrame, Harmless;
      assert Boot(ranges) == Reserve(s, ranges[n].0, ranges[n].1);
      assert AllHarmless(ranges) ==> AllHarmless(ranges[..n]) && Harmless(s, ranges[n]);
    }
  }

  /** The same in bytes: free are exactly the pages that no range reaches. */
  lemma {:induction false} BootTakes(ranges: seq<(nat, nat)>)
    requires forall r :: r in ranges ==> r.1 < WORD
    ensures forall f: nat :: f < FRAMES ==> (FreeFrame(Boot(ranges), f) <==> forall r :: r in ranges ==> !Reached(f, r.0, r.1))
  {
    BootForm(ranges);
    hide Boot, Reached, InRange, PageUp, PageDown, FreeFrame;
    forall f: nat, r | r in ranges
      ensures InRange(f, PageDown(r.0), PageUp(r.1)) <==> Reached(f, r.0, r.1)
    {
      InRangeIs(f, r.0, r.1);
    }
  }

  lemma {:induction false} LastRange(ranges: seq<(nat, nat)>)
    requires ranges != []
    ensures forall r :: r in ranges <==> r in ranges[..|ranges| - 1] || r == ranges[|ranges| - 1]
  {
    assert ranges == ranges[..|ranges| - 1] + [ranges[|ranges| - 1]];
  }

  lemma {:induction false} BootStep(s: State, r: (nat, nat))
    requires Inv(s, -1) && Aligned(s)
    ensures var t := Reserve(s, r.0, r.1);
      && Aligned(t) && (NoSiblings(s, -1) && Harmless(s, r) ==> NoSiblings(t, -1))
      && forall f: nat :: f < FRAMES ==> (FreeFrame(t, f) <==> FreeFrame(s, f) && !InRange(f, PageDown(r.0), PageUp(r.1)))
  {
    hide Reserve, Up, Low, Partition, Leftovers, Listed, Touches, PageUp, PageDown, Aligned, NoSiblings;
    ReserveSubtracts(s, r.0, r.1);
    if NoSiblings(s, -1) {
      ReserveKeepsNoSiblings(s, r.0, r.1);
    }
  }

  /** Ranges that are not empty once rounded are harmless; so is an empty one at or below the first frame. */
  lemma {:induction false} NonemptyIsHarmless(ranges: seq<(nat, nat)>)
    requires forall r :: r in ranges ==> PageDown(r.0) < PageUp(r.1) || PageUp(r.1) <= FRAME_START
    ensures AllHarmless(ranges)
  {
    hide PageUp, PageDown;
    if ranges != [] {
      var n := |ranges| - 1;
      NonemptyIsHarmless(ranges[..n]);
      assert ranges[n] in ranges;
    }
  }

  /** An empty range inside a free block: reserving it right after the frame loop leaves free siblings unmerged. */
  lemma {:induction false} EmptyRangeIsHarmful()
    ensures PageDown(Addr(1)) == PageUp(Addr(1)) == Addr(1)
    ensures Inv(Init(), -1) && NoSiblings(Init(), -1) && !NoSiblings(Reserve(Init(), Addr(1), Addr(1)), -1)
  {
    InitForm();
    SecondPage();
    var s := Init();
    assert FreeHead(s, 0) && s.val[0] == 6;
    hide Init, Reserve, Touches, PageDown, PageUp, Partition, Leftovers, Listed, Pow2;
    ReserveKeepsNoSiblings(s, Addr(1), Addr(1));
  }

  lemma {:induction false} SecondPage()
    ensures PageDown(Addr(1)) == PageUp(Addr(1)) == Addr(1) && Touches(0, 6, Addr(1), Addr(1))
  {
    assert Pow2(6) == 64;
  }

  // ---------------------------------------------------------------- runs of calls

  /** A call to allocate `size` bytes, or to release the page of a frame. */
  datatype Call = AllocCall(size: nat) | FreeCall(frame: nat)

  /** Callers release only what they hold, and memory is not exhausted. */
  ghost predicate Allowed(s: State, c: Call)
    requires Inv(s, -1)
  {
    match c
    case AllocCall(size) => CanAlloc(s, size)
    case FreeCall(h) => UsedHead(s, h)
  }

  ghost function After(s: State, c: Call): (t: State)
    requires Inv(s, -1) && Allowed(s, c)
    ensures Inv(t, -1)
  {
    match c
    case AllocCall(size) => AllocEffect(s, size); Alloc(s, size)
    case FreeCall(h) => FreeEffect(s, h); Free(s, h)
  }

  ghost predicate CanRun(s: State, calls: seq<Call>)
    requires Inv(s, -1)
    decreases |calls|
  {
    calls == [] || (Allowed(s, calls[0]) && CanRun(After(s, calls[0]), calls[1..]))
  }

  ghost function Run(s: State, calls: seq<Call>): (t: State)
    requires Inv(s, -1) && CanRun(s, calls)
    ensures Inv(t, -1)
    decreases |calls|
  {
    if calls == [] then s else Run(After(s, calls[0]), calls[1..])
  }

  /** In every run the invariant holds, and no free head is left that passes the merge test. */
  lemma {:induction false} RunKeepsNoPairs(s: State, calls: seq<Call>)
    requires Inv(s, -1) && NoPairs(s, -1) && CanRun(s, calls)
    ensures Inv(Run(s, calls), -1) && NoPairs(Run(s, calls), -1)
    decreases |calls|
  {
    if calls != [] {
      match calls[0] {
        case AllocCall(size) => AllocNoPairs(s, size);
        case FreeCall(h) => FreeNoPairs(s, h);
      }
      RunKeepsNoPairs(After(s, calls[0]), calls[1..]);
    }
  }

  lemma {:induction false} PairIsSiblings(s: State, g: nat)
    requires Inv(s, -1) && FreeHead(s, g) && Mergeable(s, g)
    ensures Siblings(s, g, Flip(g, s.val[g]), -1)
  {
    MatchIsHead(s, g);
    FlipBlock(g, s.val[g]);
  }

  lemma {:induction false} NoSiblingsNoPairs(s: State)
    requires Inv(s, -1) && NoSiblings(s, -1)
    ensures NoPairs(s, -1)
  {
    forall g: nat | FreeHead(s, g) && Mergeable(s, g)
      ensures false
    {
      PairIsSiblings(s, g);
    }
  }

  /** From boot, with any calls: the blocks handed out are pairwise disjoint; and, when every boot range is
      harmless, a page allocated and released at once leaves every free list as it was. */
  lemma {:induction false} BootThenRun(ranges: seq<(nat, nat)>, calls: seq<Call>, size: nat)
    requires CanRun(Boot(ranges), calls)
    ensures var t := Run(Boot(ranges), calls);
      && (forall g: nat, h: nat, f: nat ::
            f < FRAMES && UsedHead(t, g) && UsedHead(t, h) && InBlock(t, f, g) && InBlock(t, f, h) ==> g == h)
      && (AllHarmless(ranges) && CanAlloc(t, size) ==> Same(Free(Alloc(t, size), Target(t, size)), t))
  {
    var t := Run(Boot(ranges), calls);
    if AllHarmless(ranges) && CanAlloc(t, size) {
      BootForm(ranges);
      NoSiblingsNoPairs(Boot(ranges));
      RunKeepsNoPairs(Boot(ranges), calls);
      FreeUndoesAlloc(t, size);
    }
  }

  // ---------------------------------------------------------------- address ranges

  /** The frames that the caller of an order-v page at `h` is told to use: 2^v frames from `h`. */
  predicate Given(f: nat, h: nat, v: nat) {
    h <= f < h + Pow2(v)
  }

  /** The frames given out are the block exactly when its head is the base of the block. */
  lemma {:induction false} GivenIsBlock(s: State, h: nat)
    requires Inv(s, -1) && UsedHead(s, h)
    ensures (forall f: nat :: Given(f, h, s.val[h]) <==> Up(f, s.val[h]) == Up(h, s.val[h])) <==> Low(h, s.val[h]) == 0
  {
    hide Up, Low, Pow2, Partition, Leftovers, Listed;
    var v := s.val[h];
    if Low(h, v) == 0 {
      forall f: nat
        ensures Given(f, h, v) <==> Up(f, v) == Up(h, v)
      {
        BlockIsRun(h, v, f);
      }
    } else {
      BeforeHead(h, v);
      assert !Given(h - 1, h, v);
    }
  }

  lemma {:induction false} BeforeHead(h: nat, v: nat)
    requires Low(h, v) > 0
    ensures h > 0 && Up(h - 1, v) == Up(h, v)
  {
    Cut(h, v);
    UpUnique(h - 1, v, Up(h, v), Low(h, v) - 1);
  }

  lemma {:induction false} UpUnique(f: nat, v: nat, q: nat, r: nat)
    requires f == q * Pow2(v) + r && r < Pow2(v)
    ensures Up(f, v) == q && Low(f, v) == r
  {
    Cut(f, v);
    if Up(f, v) < q {
      MulLess(Up(f, v), q, Pow2(v));
      assert false;
    }
    if Up(f, v) > q {
      MulLess(q, Up(f, v), Pow2(v));
      assert false;
    }
  }

  /** Single pages are always given out as exactly their block; no two of them overlap. */
  lemma {:induction false} SinglePagesAreExact(s: State, g: nat, h: nat)
    requires Inv(s, -1) && UsedHead(s, g) && UsedHead(s, h) && s.val[g] == s.val[h] == 0
    ensures forall f: nat :: f < FRAMES ==> (Given(f, h, 0) <==> s.owner[f] == h)
    ensures g != h ==> forall f: nat :: !(Given(f, g, 0) && Given(f, h, 0))
  {
    assert Pow2(0) == 1;
    forall f: nat | f < FRAMES
      ensures Given(f, h, 0) <==> s.owner[f] == h
    {
      assert InBlock(s, f, s.owner[f]);
    }
  }

  // ---------------------------------------------------------------- runs that merge lower halves only

  ghost predicate LowerHalvesOnly(s: State, calls: seq<Call>)
    requires Inv(s, -1) && CanRun(s, calls)
    decreases |calls|
  {
    calls == [] ||
    ((calls[0].FreeCall? ==> !MergesAsUpperHalf(s, calls[0].frame)) && LowerHalvesOnly(After(s, calls[0]), calls[1..]))
  }

  /** Every state of the run has its heads at the base of their blocks. */
  ghost predicate AlwaysAligned(s: State, calls: seq<Call>)
    requires Inv(s, -1) && CanRun(s, calls)
    decreases |calls|
  {
    Aligned(s) && (calls == [] || AlwaysAligned(After(s, calls[0]), calls[1..]))
  }

  /** Heads stay at the base of their blocks throughout a run exactly when no merge of the run is done from
      the upper half. */
  lemma {:induction false} RunKeepsAligned(s: State, calls: seq<Call>)
    requires Inv(s, -1) && CanRun(s, calls) && Aligned(s)
    ensures AlwaysAligned(s, calls) <==> LowerHalvesOnly(s, calls)
    decreases |calls|
  {
    hide Aligned, MergesAsUpperHalf, Inv, Alloc, Free;
    if calls != [] {
      var t := After(s, calls[0]);
      match calls[0] {
        case AllocCall(size) => AllocKeepsForm(s, size);
        case FreeCall(h) => FreeKeepsAligned(s, h);
      }
      if Aligned(t) {
        RunKeepsAligned(t, calls[1..]);
      } else {
        assert !AlwaysAligned(t, calls[1..]);
      }
    }
  }

  /** While heads stay at the base of their blocks, no free siblings are left. */
  lemma {:induction false} LowerHalvesKeepForm(s: State, calls: seq<Call>)
    requires Inv(s, -1) && CanRun(s, calls) && Aligned(s) && NoSiblings(s, -1) && LowerHalvesOnly(s, calls)
    ensures Aligned(Run(s, calls)) && NoSiblings(Run(s, calls), -1)
    decreases |calls|
  {
    if calls != [] {
      match calls[0] {
        case AllocCall(size) => AllocKeepsForm(s, size);
        case FreeCall(h) =>
          FreeKeepsAligned(s, h);
          LowerHalvesStrandNothing(s, h);
          FreeKeepsNoSiblings(s, h);
      }
      LowerHalvesKeepForm(After(s, calls[0]), calls[1..]);
    }
  }

  lemma {:induction false} SameUsedSameFree(s: State, t: State)
    requires Inv(s, -1) && Inv(t, -1)
    requires forall g: nat :: UsedHead(s, g) <==> UsedHead(t, g)
    requires forall g: nat :: UsedHead(s, g) ==> s.val[g] == t.val[g]
    ensures forall f: nat :: FreeFrame(s, f) <==> FreeFrame(t, f)
  {
    forall f: nat | f < FRAMES
      ensures FreeFrame(s, f) <==> FreeFrame(t, f)
    {
      var g, h := s.owner[f], t.owner[f];
      assert Head(s, g) && InBlock(s, f, g) && Head(t, h) && InBlock(t, f, h);
      assert UsedHead(s, g) ==> UsedHead(t, g) && InBlock(t, f, g);
      assert UsedHead(t, h) ==> UsedHead(s, h) && InBlock(s, f, h);
    }
  }

  /** Releasing everything that a run allocated restores every free list as a set, if the order of the calls is
      such that no merge is done from the upper half.  In other orders it need not. */
  lemma {:induction false} ReleasingAllRestores(s: State, calls: seq<Call>)
    requires Inv(s, -1) && CanRun(s, calls) && Aligned(s) && NoSiblings(s, -1) && LowerHalvesOnly(s, calls)
    requires forall g: nat :: UsedHead(s, g) <==> UsedHead(Run(s, calls), g)
    requires forall g: nat :: UsedHead(s, g) ==> s.val[g] == Run(s, calls).val[g]
    ensures forall v: nat, h: nat :: v <= MAXORDER ==> (h in s.free[v] <==> h in Run(s, calls).free[v])
  {
    LowerHalvesKeepForm(s, calls);
    SameUsedSameFree(s, Run(s, calls));
    FreeListsDetermined(s, Run(s, calls));
  }
}
