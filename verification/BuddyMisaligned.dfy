/** Histories in which the code as written gives out a range that is not the block it accounts for, and in
    which releasing everything does not restore the free lists.  Such histories start from every state that
    has a free block of four pages or more at its base, and so from every boot that leaves four pages. */
module BuddyMisaligned {
  import opened MemoryMap
  import opened Bits
  import opened Lists
  import opened Buddy
  import opened BuddyRuns
  import opened BuddyCanon
  import opened BuddyReserve
  import opened BuddyHistory

  // ---------------------------------------------------------------- four frames and two lists

  /** The records of four frames and the lists that the histories below look at. */
  ghost predicate Near(s: State, top: nat, val: seq<nat>, used: seq<bool>, free0: seq<nat>, free1: seq<nat>)
    requires |val| == 4 && |used| == 3
  {
    && Shape(s) && top + 4 <= FRAMES && Low(top, 2) == 0
    && s.val[top] == val[0] && s.val[top + 1] == val[1] && s.val[top + 2] == val[2] && s.val[top + 3] == val[3]
    && s.used[top] == used[0] && s.used[top + 1] == used[1] && s.used[top + 2] == used[2]
    && s.free[0] == free0 && s.free[1] == free1
  }

  lemma {:induction false} SmallPowers()
    ensures Pow2(0) == 1 && Pow2(1) == 2 && Pow2(2) == 4
    ensures Order(0x1000) == 0 && Order(0x2000) == 1
  {
    assert OrderFrom(0x2000, 0) == OrderFrom(0x2000, 1);
  }

  lemma {:induction false} FlipOfBase(f: nat, k: nat)
    requires Low(f, k + 1) == 0
    ensures Flip(f, k) == f + Pow2(k)
  {
    if k > 0 {
      FlipOfBase(f / 2, k - 1);
    }
  }

  lemma {:induction false} LowOfBase(f: nat, j: nat, k: nat)
    requires j <= k && Low(f, k) == 0
    ensures Low(f, j) == 0
  {
    ZeroLow(j);
    ZeroLow(k);
    LowMono(f, 0, j, k);
  }

  lemma {:induction false} FlipsNear(top: nat)
    requires Low(top, 2) == 0
    ensures Flip(top, 0) == top + 1 && Flip(top, 1) == top + 2
    ensures Flip(top + 1, 0) == top && Flip(top + 1, 1) == top + 3 && Flip(top + 2, 0) == top + 3
  {
    assert top % 2 == 0 && top / 2 % 2 == 0;
  }

  lemma {:induction false} BaseInRange(top: nat)
    requires top < FRAMES && Low(top, 2) == 0
    ensures top + 4 <= FRAMES
  {
    assert top % 2 == 0 && top / 2 % 2 == 0;
  }

  // ---------------------------------------------------------------- the first page of a big block

  /** One split of the block of `top`, as far as the histories look. */
  lemma {:induction false} SplitNear(s: State, top: nat, v: nat)
    requires Shape(s) && top + 4 <= FRAMES && s.val[top] == v + 1 <= MAXORDER && Low(top, v + 1) == 0
    ensures var t := Split(s, top);
      && t.val[top] == v && t.used[top] == s.used[top]
      && (v > 1 ==> t.free[0] == s.free[0] && t.free[1] == s.free[1])
      && (v == 1 ==> t.free[1] == [top + 2] + s.free[1] && t.free[0] == s.free[0] && t.val[top + 2] == 1 && !t.used[top + 2])
      && (v == 0 ==> t.free[0] == [top + 1] + s.free[0] && t.free[1] == s.free[1] && t.val[top + 1] == 0 && !t.used[top + 1]
                     && t.val[top + 2] == s.val[top + 2] && t.used[top + 2] == s.used[top + 2])
  {
    FlipOfBase(top, v);
    SmallPowers();
    hide Up, Low, Flip;
    if v >= 2 {
      assert Pow2(v) >= 4;
    }
  }

  /** Splitting the block of `top` down to a single page. */
  lemma {:induction false} SplitDownNear(s: State, top: nat, v: nat)
    requires Shape(s) && top + 4 <= FRAMES && s.val[top] == v <= MAXORDER && v >= 2 && Low(top, v) == 0
    ensures var t := SplitDown(s, top, 0);
      && t.val[top] == 0 && t.val[top + 1] == 0 && t.val[top + 2] == 1 && !t.used[top + 1] && !t.used[top + 2]
      && t.free[0] == [top + 1] + s.free[0] && t.free[1] == [top + 2] + s.free[1]
    decreases v
  {
    hide Up, Low, Flip, Split;
    SplitNear(s, top, v - 1);
    LowOfBase(top, v - 1, v);
    var t := Split(s, top);
    if v > 2 {
      SplitDownNear(t, top, v - 1);
    } else {
      SplitNear(t, top, 0);
      assert SplitDown(s, top, 0) == SplitDown(t, top, 0) == Split(t, top);
    }
  }

  /** A single page is wanted, and the first block that is free is four pages or more, at its base. */
  ghost predicate BigSupply(s: State) {
    Inv(s, -1) && CanAlloc(s, 0x1000) && Supply(s, 0) >= 2 && Aligned(s)
  }

  /** The first single page splits the big block all the way down. */
  lemma {:induction false} FirstPage(s: State)
    requires BigSupply(s)
    ensures var top, t := Target(s, 0x1000), Alloc(s, 0x1000);
      Inv(t, -1) && UsedHead(t, top) && Near(t, top, [0, 0, 1, 0], [true, false, false], [top + 1], [top + 2])
  {
    hide Up, Low, Flip, Split, Partition, Leftovers;
    SmallPowers();
    SupplyIsFirst(s, 0);
    AllocEffect(s, 0x1000);
    var top, t := Target(s, 0x1000), Alloc(s, 0x1000);
    LowOfBase(top, 2, s.val[top]);
    BaseInRange(top);
    SplitDownNear(Unlink(s, top), top, s.val[top]);
    LastIsStale(t, top);
  }

  lemma {:induction false} LastIsStale(t: State, top: nat)
    requires Inv(t, -1) && top + 4 <= FRAMES && Low(top, 2) == 0 && t.val[top + 2] == 1 && top + 2 in t.free[1]
    ensures t.val[top + 3] == 0
  {
    assert top % 2 == 0;
    OwnerOf(t, top + 3, top + 2);
    StaleIsLower(t, top + 3);
  }

  // ---------------------------------------------------------------- the calls that follow

  /** The second single page is the one behind the first. */
  lemma {:induction false} SecondPage(s: State, top: nat)
    requires Inv(s, -1) && Near(s, top, [0, 0, 1, 0], [true, false, false], [top + 1], [top + 2])
    ensures CanAlloc(s, 0x1000) && Target(s, 0x1000) == top + 1
    ensures Near(Alloc(s, 0x1000), top, [0, 0, 1, 0], [true, true, false], [], [top + 2])
  {
    hide Up, Low, Flip, Split, Partition, Leftovers;
    SmallPowers();
    SupplyIsFirst(s, 0);
  }

  /** The third is cut off the pair behind those. */
  lemma {:induction false} ThirdPage(s: State, top: nat)
    requires Inv(s, -1) && Near(s, top, [0, 0, 1, 0], [true, true, false], [], [top + 2])
    ensures CanAlloc(s, 0x1000) && Target(s, 0x1000) == top + 2
    ensures Near(Alloc(s, 0x1000), top, [0, 0, 0, 0], [true, true, true], [top + 3], [])
  {
    SmallPowers();
    FlipsNear(top);
    hide Up, Low, Flip, Partition, Leftovers;
    SupplyIsFirst(s, 0);
    var u := Unlink(s, top + 2);
    assert SplitDown(u, top + 2, 0) == Split(u, top + 2);
  }

  /** Releasing `top` merges nothing while the page behind it is in use. */
  lemma {:induction false} ReleaseFirst(s: State, top: nat, x: nat, u: bool, l0: seq<nat>, l1: seq<nat>)
    requires Inv(s, -1) && UsedHead(s, top) && Near(s, top, [0, 0, x, 0], [true, true, u], l0, l1)
    ensures Near(Free(s, top), top, [0, 0, x, 0], [false, true, u], [top] + l0, l1)
  {
    FlipsNear(top);
    hide Up, Low, Flip, Partition, Leftovers;
    var r := SetUsed(s, top, false);
    assert MergeUp(r, top) == r;
  }

  /** Releasing the page behind it then merges `top` into it: the pair is headed by its upper frame. */
  lemma {:induction false} ReleaseSecond(s: State, top: nat, x: nat, u: bool, l0: seq<nat>, l1: seq<nat>)
    requires Inv(s, -1) && UsedHead(s, top + 1) && Near(s, top, [0, 0, x, 0], [false, true, u], [top] + l0, l1)
    ensures Near(Free(s, top + 1), top, [0, 1, x, 0], [false, false, u], l0, [top + 1] + l1)
  {
    FlipsNear(top);
    hide Up, Low, Flip, Partition, Leftovers, Listed;
    var r := SetUsed(s, top + 1, false);
    assert Remove([top] + l0, top) == l0;
    var m := Merge(r, top + 1);
    assert m.val[top + 1] == 1 && m.val[top + 3] == 0 && m.free[0] == l0 && m.free[1] == l1;
    assert Mergeable(r, top + 1) && !Mergeable(m, top + 1);
    assert MergeUp(r, top + 1) == MergeUp(m, top + 1) == m;
  }

  lemma {:induction false} TwoPages(s: State, top: nat)
    requires Inv(s, -1) && Near(s, top, [0, 1, 0, 0], [false, false, true], [top + 3], [top + 1])
    ensures CanAlloc(s, 0x2000) && Target(s, 0x2000) == top + 1
  {
    SmallPowers();
    SupplyIsFirst(s, 1);
  }

  // ---------------------------------------------------------------- histories

  lemma {:induction false} CallFirst(s: State, c: Call, later: seq<Call>) returns (calls: seq<Call>)
    requires Inv(s, -1) && Allowed(s, c) && CanRun(After(s, c), later)
    ensures calls == [c] + later && CanRun(s, calls) && Run(s, calls) == Run(After(s, c), later)
  {
    calls := [c] + later;
    assert calls[1..] == later;
  }

  /** Six calls: a two-page range is given out that overlaps a page still held. */
  lemma {:induction false} SixCalls(s: State) returns (calls: seq<Call>, top: nat)
    requires BigSupply(s)
    ensures CanRun(s, calls) && !UsedHead(s, top + 1) && !UsedHead(s, top + 2)
    ensures var t := Run(s, calls);
      && UsedHead(t, top + 1) && UsedHead(t, top + 2)
      && Given(top + 2, top + 1, t.val[top + 1]) && Given(top + 2, top + 2, t.val[top + 2])
  {
    hide Up, Low, Flip, Alloc, Free, Partition, Leftovers, Listed, Near, Target, Supply, CanRun, Run, Aligned;
    top := Target(s, 0x1000);
    FirstPage(s);
    AllocEffect(s, 0x1000);
    var s1 := Alloc(s, 0x1000);
    SecondPage(s1, top);
    AllocEffect(s1, 0x1000);
    var s2 := Alloc(s1, 0x1000);
    ThirdPage(s2, top);
    AllocEffect(s2, 0x1000);
    var s3 := Alloc(s2, 0x1000);
    ReleaseFirst(s3, top, 0, true, [top + 3], []);
    FreeEffect(s3, top);
    var s4 := Free(s3, top);
    ReleaseSecond(s4, top, 0, true, [top + 3], []);
    FreeEffect(s4, top + 1);
    var s5 := Free(s4, top + 1);
    assert [top + 1] + [] == [top + 1];
    TwoPages(s5, top);
    AllocEffect(s5, 0x2000);
    var s6 := Alloc(s5, 0x2000);
    SmallPowers();
    NoCalls(s6);
    calls := CallFirst(s5, AllocCall(0x2000), []);
    calls := CallFirst(s4, FreeCall(top + 1), calls);
    calls := CallFirst(s3, FreeCall(top), calls);
    calls := CallFirst(s2, AllocCall(0x1000), calls);
    calls := CallFirst(s1, AllocCall(0x1000), calls);
    calls := CallFirst(s, AllocCall(0x1000), calls);
  }

  lemma {:induction false} NoCalls(s: State)
    requires Inv(s, -1)
    ensures CanRun(s, []) && Run(s, []) == s
  {
  }

  /** Four calls that release all they allocate, but the lower page first: a pair is left apart from its sibling,
      on a list that was empty before. */
  lemma {:induction false} FourCalls(s: State) returns (calls: seq<Call>, top: nat)
    requires BigSupply(s)
    ensures CanRun(s, calls) && calls == [AllocCall(0x1000), AllocCall(0x1000), FreeCall(top), FreeCall(top + 1)]
    ensures var t := Run(s, calls);
      && (forall g: nat :: UsedHead(t, g) <==> UsedHead(s, g)) && (forall g: nat :: UsedHead(s, g) ==> t.val[g] == s.val[g])
      && s.free[1] == [] && t.free[1] == [top + 1, top + 2]
  {
    hide Up, Low, Flip, Alloc, Free, Partition, Leftovers, Listed, Near, Target, Supply, CanRun, Run, Aligned;
    top := Target(s, 0x1000);
    assert s.free[1] == [] by {
      SmallPowers();
      SupplyIsFirst(s, 0);
    }
    FirstPage(s);
    AllocEffect(s, 0x1000);
    var s1 := Alloc(s, 0x1000);
    SecondPage(s1, top);
    AllocEffect(s1, 0x1000);
    var s2 := Alloc(s1, 0x1000);
    ReleaseFirst(s2, top, 1, false, [], [top + 2]);
    FreeEffect(s2, top);
    var s3 := Free(s2, top);
    ReleaseSecond(s3, top, 1, false, [], [top + 2]);
    FreeEffect(s3, top + 1);
    var s4 := Free(s3, top + 1);
    assert s4.free[1] == [top + 1, top + 2] by {
      assert Near(s4, top, [0, 1, 1, 0], [false, false, false], [], [top + 1] + [top + 2]);
      NearLists(s4, top, [0, 1, 1, 0], [false, false, false], [], [top + 1] + [top + 2]);
    }
    NoCalls(s4);
    calls := CallFirst(s3, FreeCall(top + 1), []);
    calls := CallFirst(s2, FreeCall(top), calls);
    calls := CallFirst(s1, AllocCall(0x1000), calls);
    calls := CallFirst(s, AllocCall(0x1000), calls);
  }

  lemma {:induction false} NearLists(s: State, top: nat, val: seq<nat>, used: seq<bool>, free0: seq<nat>, free1: seq<nat>)
    requires |val| == 4 && |used| == 3 && Near(s, top, val, used, free0, free1)
    ensures s.free[0] == free0 && s.free[1] == free1
  {
  }

  // ---------------------------------------------------------------- from any state with four free pages together

  /** There is a free block of four pages or more. */
  ghost predicate HasBig(s: State)
    requires Shape(s)
  {
    exists v: nat :: 2 <= v <= MAXORDER && s.free[v] != []
  }

  /** A single page from the two shortest lists leaves the longer blocks alone. */
  lemma {:induction false} SmallPage(s: State)
    requires Inv(s, -1) && (s.free[0] != [] || s.free[1] != [])
    ensures CanAlloc(s, 0x1000)
    ensures var t := Alloc(s, 0x1000);
      |t.free[0]| + 2 * |t.free[1]| < |s.free[0]| + 2 * |s.free[1]| && t.free[2..] == s.free[2..]
  {
    hide Up, Low, Flip, Partition, Leftovers;
    SmallPowers();
    SupplyIsFirst(s, 0);
    SupplyIsFirst(s, 1);
    var h := Target(s, 0x1000);
    var u := Unlink(s, h);
    RemoveAt(s.free[s.val[h]], 0);
    if s.val[h] == 1 {
      assert SplitDown(u, h, 0) == Split(u, h);
    }
  }

  /** Single pages are allocated until the next one has to come from a big block. */
  lemma {:induction false} Drain(s: State) returns (calls: seq<Call>)
    requires Inv(s, -1) && Aligned(s) && HasBig(s)
    ensures CanRun(s, calls) && BigSupply(Run(s, calls))
    ensures NoSiblings(s, -1) ==> NoSiblings(Run(s, calls), -1)
    ensures forall g: nat :: UsedHead(s, g) ==> UsedHead(Run(s, calls), g)
    decreases |s.free[0]| + 2 * |s.free[1]|
  {
    hide Up, Low, Flip, Partition, Leftovers, Listed, Aligned, NoSiblings, Alloc, CanRun, Run, Target;
    if s.free[0] == [] && s.free[1] == [] {
      calls := [];
      NoCalls(s);
      SmallPowers();
      SupplyIsFirst(s, 0);
    } else {
      SmallPage(s);
      AllocEffect(s, 0x1000);
      AllocKeepsForm(s, 0x1000);
      var t := Alloc(s, 0x1000);
      assert HasBig(t) by {
        var v: nat :| 2 <= v <= MAXORDER && s.free[v] != [];
        assert t.free[v] == t.free[2..][v - 2];
      }
      calls := Drain(t);
      calls := CallFirst(s, AllocCall(0x1000), calls);
    }
  }

  lemma {:induction false} RunsJoin(s: State, a: seq<Call>, b: seq<Call>)
    requires Inv(s, -1) && CanRun(s, a) && CanRun(Run(s, a), b)
    ensures CanRun(s, a + b) && Run(s, a + b) == Run(Run(s, a), b)
    decreases |a|
  {
    hide Inv, After, Allowed;
    if a == [] {
      assert a + b == b;
    } else {
      RunsJoin(After(s, a[0]), a[1..], b);
      assert (a + b)[1..] == a[1..] + b;
    }
  }

  /** From every state with heads at the base of their blocks and four free pages in one block, some calls lead to two
      callers that are told to use the same frame; neither held it before. */
  lemma {:induction false} GivenRangesOverlap(s: State) returns (calls: seq<Call>, top: nat)
    requires Inv(s, -1) && Aligned(s) && HasBig(s)
    ensures CanRun(s, calls) && !UsedHead(s, top + 1) && !UsedHead(s, top + 2)
    ensures var t := Run(s, calls);
      && UsedHead(t, top + 1) && UsedHead(t, top + 2)
      && Given(top + 2, top + 1, t.val[top + 1]) && Given(top + 2, top + 2, t.val[top + 2])
  {
    hide Inv, Aligned, HasBig, BigSupply, CanRun, Run;
    var drain := Drain(s);
    var six;
    six, top := SixCalls(Run(s, drain));
    RunsJoin(s, drain, six);
    calls := drain + six;
  }

  /** From every such state without free siblings, some calls lead to a state from which a run that releases all it
      allocates does not restore the free lists: the order of the releases matters. */
  lemma {:induction false} ReleasingNeedNotRestore(s: State) returns (drain: seq<Call>, calls: seq<Call>, top: nat)
    requires Inv(s, -1) && Aligned(s) && NoSiblings(s, -1) && HasBig(s)
    ensures CanRun(s, drain) && Aligned(Run(s, drain)) && NoSiblings(Run(s, drain), -1) && CanRun(Run(s, drain), calls)
    ensures var s0, t := Run(s, drain), Run(Run(s, drain), calls);
      && (forall g: nat :: UsedHead(t, g) <==> UsedHead(s0, g)) && (forall g: nat :: UsedHead(s0, g) ==> t.val[g] == s0.val[g])
      && top + 1 in t.free[1] && top + 1 !in s0.free[1] && !LowerHalvesOnly(s0, calls)
  {
    hide Partition, Leftovers, Listed, Aligned, HasBig, CanRun, Run, NoSiblings, LowerHalvesOnly;
    drain := Drain(s);
    var s0 := Run(s, drain);
    calls, top := FourCalls(s0);
    var t := Run(s0, calls);
    assert top + 1 in t.free[1] && top + 1 !in s0.free[1];
    if LowerHalvesOnly(s0, calls) {
      ReleasingAllRestores(s0, calls);
    }
  }

  // ---------------------------------------------------------------- from boot

  /** Four pages that lie together outside all reserved ranges are enough. */
  lemma {:induction false} BootLeavesBig(ranges: seq<(nat, nat)>, x: nat)
    requires AllHarmless(ranges) && x < FRAMES
    requires forall r :: r in ranges ==> r.1 < WORD
    requires forall f: nat, r :: f < FRAMES && Up(f, 2) == Up(x, 2) && r in ranges ==> !Reached(f, r.0, r.1)
    ensures Aligned(Boot(ranges)) && NoSiblings(Boot(ranges), -1) && HasBig(Boot(ranges))
  {
    hide Up, Low, InRange, PageDown, PageUp, Partition, Leftovers, Aligned, Reached;
    BootForm(ranges);
    BootTakes(ranges);
    var s := Boot(ranges);
    hide AllHarmless;
    forall f: nat | f < FRAMES && Up(f, 2) == Up(x, 2)
      ensures FreeFrame(s, f)
    {
      forall r | r in ranges
        ensures !Reached(f, r.0, r.1)
      {
      }
    }
    FreeRegion(s, x, 2);
    BlockHead(s, x);
    var h := s.owner[x];
    var v: nat := s.val[h];
    assert FreeFrame(s, x) && v <= MAXORDER;
    assert h in s.free[v] <==> Head(s, h) && s.val[h] == v && !s.used[h] && h != -1;
  }

  lemma {:induction false} BlockHead(s: State, x: nat)
    requires Blocks(s) && x < FRAMES
    ensures Head(s, s.owner[x])
  {
  }

  /** The two ranges that every boot reserves: the boot page tables and the upper memory. */
  const FIXED: seq<(nat, nat)> := [(FRAME_START + 0x1000, FRAME_START + 0x4000), (FRAME_START + 0x2c00_0000, FRAME_START + 0x3c00_0000)]

  lemma {:induction false} FixedRanges()
    ensures PageDown(FIXED[0].0) == FRAME_START + 0x1000 && PageUp(FIXED[0].1) == FRAME_START + 0x4000
    ensures PageDown(FIXED[1].0) == FRAME_START + 0x2c00_0000 && PageUp(FIXED[1].1) == FRAME_START + 0x3c00_0000
  {
  }

  lemma {:induction false} FrameSixtyFour(f: nat)
    requires Up(f, 2) == Up(64, 2)
    ensures 64 <= f < 68
  {
    CutIsDivMod(f, 2);
    SmallPowers();
    assert Up(64, 2) == 16;
  }

  /** After every boot that leaves four pages together, some calls lead to two callers with the same frame. */
  lemma {:induction false} OverlapAfterBoot(ranges: seq<(nat, nat)>, x: nat) returns (calls: seq<Call>, top: nat)
    requires AllHarmless(ranges) && x < FRAMES
    requires forall r :: r in ranges ==> r.1 < WORD
    requires forall f: nat, r :: f < FRAMES && Up(f, 2) == Up(x, 2) && r in ranges ==> !Reached(f, r.0, r.1)
    ensures CanRun(Boot(ranges), calls)
    ensures var t := Run(Boot(ranges), calls);
      && UsedHead(t, top + 1) && UsedHead(t, top + 2)
      && Given(top + 2, top + 1, t.val[top + 1]) && Given(top + 2, top + 2, t.val[top + 2])
  {
    hide PageDown, PageUp, Up, Boot, CanRun, Run;
    BootLeavesBig(ranges, x);
    calls, top := GivenRangesOverlap(Boot(ranges));
  }

  /** The boot with just the two fixed ranges is one of them. */
  lemma {:induction false} OverlapAfterFixedBoot() returns (calls: seq<Call>, top: nat)
    ensures CanRun(Boot(FIXED), calls)
    ensures var t := Run(Boot(FIXED), calls);
      && UsedHead(t, top + 1) && UsedHead(t, top + 2)
      && Given(top + 2, top + 1, t.val[top + 1]) && Given(top + 2, top + 2, t.val[top + 2])
  {
    FixedRanges();
    hide PageDown, PageUp, Up, Boot, CanRun, Run;
    NonemptyIsHarmless(FIXED);
    forall f: nat, r | f < FRAMES && Up(f, 2) == Up(64, 2) && r in FIXED
      ensures !Reached(f, r.0, r.1)
    {
      FrameSixtyFour(f);
    }
    calls, top := OverlapAfterBoot(FIXED, 64);
  }
}
