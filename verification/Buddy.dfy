/** The page frames of the buddy allocator: records, free lists, splitting and merging.

    The record of frame `f` is `(val[f], used[f])`.  The list `free[v]` holds the frames linked on
    the free list of order `v`, first entry first.  `owner` is not in memory: `owner[f]` is the
    head of the block that `f` lies in, where the block of a head `h` is the aligned block of
    2^val[h] frames that contains `h`.  Records of frames that are no heads are left over from
    earlier splits and merges. */
module Buddy {
  import opened Bits
  import opened Lists

  const MAXORDER: nat := 6
  const FRAMES: nat := 0x3c000

  datatype State = State(val: seq<nat>, used: seq<bool>, owner: seq<nat>, free: seq<seq<nat>>)

  ghost predicate Shape(s: State) {
    && |s.val| == |s.used| == |s.owner| == FRAMES
    && |s.free| == MAXORDER + 1
    && (forall f :: 0 <= f < FRAMES ==> s.val[f] <= MAXORDER)
    && (forall f :: 0 <= f < FRAMES ==> s.owner[f] < FRAMES)
  }

  ghost predicate Head(s: State, h: nat)
    requires Shape(s)
  {
    h < FRAMES && s.owner[h] == h
  }

  ghost predicate InBlock(s: State, f: nat, h: nat)
    requires Shape(s) && h < FRAMES
  {
    Up(f, s.val[h]) == Up(h, s.val[h])
  }

  /** Every frame lies in the block of exactly one head, namely its owner. */
  ghost predicate Partition(s: State)
    requires Shape(s)
  {
    && (forall f :: 0 <= f < FRAMES ==> Head(s, s.owner[f]) && InBlock(s, f, s.owner[f]))
    && (forall f, h :: 0 <= f < FRAMES && Head(s, h) && InBlock(s, f, h) ==> s.owner[f] == h)
  }

  /** A left-over record of order `j` agrees with its head on the low `j` bits. */
  ghost predicate Leftovers(s: State)
    requires Shape(s)
  {
    forall f :: 0 <= f < FRAMES ==> Low(f, s.val[f]) == Low(s.owner[f], s.val[f])
  }

  /** The free list of order `v` holds the unused heads of order `v`, each once, apart from `out`. */
  ghost predicate Listed(s: State, out: int)
    requires Shape(s)
  {
    && (forall v :: 0 <= v <= MAXORDER ==> Distinct(s.free[v]))
    && (forall v: nat, h: nat :: v <= MAXORDER ==>
          (h in s.free[v] <==> Head(s, h) && s.val[h] == v && !s.used[h] && h != out))
  }

  ghost predicate Blocks(s: State) {
    Shape(s) && Partition(s) && Leftovers(s)
  }

  /** The invariant; `out` is the one head held by a running operation, or -1. */
  ghost predicate Inv(s: State, out: int) {
    Blocks(s) && Listed(s, out)
  }

  lemma {:induction false} OwnerOf(s: State, f: nat, h: nat)
    requires Blocks(s) && f < FRAMES && Head(s, h) && Up(f, s.val[h]) == Up(h, s.val[h])
    ensures s.owner[f] == h
  {
    assert InBlock(s, f, h);
  }

  /** A frame that is no head has a record of lower order than its block. */
  lemma {:induction false} StaleIsLower(s: State, f: nat)
    requires Blocks(s) && f < FRAMES && s.owner[f] != f
    ensures s.val[f] < s.val[s.owner[f]]
  {
    var h := s.owner[f];
    if s.val[f] >= s.val[h] {
      LowMono(f, h, s.val[h], s.val[f]);
      assert InBlock(s, f, h);
      UpLowDetermine(f, h, s.val[h]);
    }
  }

  /** The frame count is a multiple of 128, so the buddy of a frame is a frame. */
  lemma {:induction false} TopBlocks(f: nat)
    ensures Up(f, 7) == f / 128
  {
    assert Pow2(7) == 128;
    hide Up, Low, Pow2;
    CutIsDivMod(f, 7);
  }

  lemma {:induction false} FlipInRange(h: nat, v: nat)
    requires h < FRAMES && v <= MAXORDER
    ensures Flip(h, v) < FRAMES
  {
    hide Up, Low, Flip, Pow2;
    FlipBlock(h, v);
    UpMono(Flip(h, v), h, v + 1, 7);
    TopBlocks(h);
    TopBlocks(Flip(h, v));
  }

  // ---------------------------------------------------------------- splitting

  /** The block of the held head `h` is halved; the other half becomes free. */
  ghost function Split(s: State, h: nat): (t: State)
    requires Shape(s) && h < FRAMES && s.val[h] > 0
    ensures Shape(t) && t.val[h] == s.val[h] - 1
  {
    FlipInRange(h, s.val[h] - 1);
    var v: nat := s.val[h] - 1;
    var b := Flip(h, v);
    FlipBlock(h, v);
    State(s.val[h := v][b := v],
          s.used[b := false],
          seq(FRAMES, f requires 0 <= f < FRAMES => if Up(f, v) == Up(b, v) then b else s.owner[f]),
          s.free[v := [b] + s.free[v]])
  }

  lemma {:induction false} SplitShape(s: State, h: nat)
    requires Blocks(s) && Head(s, h) && s.val[h] > 0
    ensures Shape(Split(s, h)) && Head(Split(s, h), h) && Head(Split(s, h), Flip(h, s.val[h] - 1))
    ensures Flip(h, s.val[h] - 1) < FRAMES && !Head(s, Flip(h, s.val[h] - 1))
  {
    var v: nat := s.val[h] - 1;
    FlipInRange(h, v);
    FlipBlock(h, v);
    assert InBlock(s, Flip(h, v), h);
  }

  /** Who owns what after a split: only the frames of the new half change hands. */
  lemma {:induction false} SplitOwner(s: State, h: nat, f: nat)
    requires Blocks(s) && Head(s, h) && s.val[h] > 0 && f < FRAMES
    ensures var v: nat := s.val[h] - 1; var b := Flip(h, v); var o := Split(s, h).owner[f];
            && (Up(f, v) == Up(b, v) ==> o == b && s.owner[f] == h)
            && (Up(f, v) == Up(h, v) ==> o == h && s.owner[f] == h)
            && (s.owner[f] == h ==> o == h || o == b)
            && (s.owner[f] != h ==> o == s.owner[f] && o != b)
            && (o == h ==> Up(f, v) == Up(h, v))
  {
    hide Up, Low, Flip, Pow2;
    var v: nat := s.val[h] - 1;
    var b := Flip(h, v);
    SplitShape(s, h);
    FlipBlock(h, v);
    if s.owner[f] == h {
      assert InBlock(s, f, h);
      Halves(f, h, v);
    } else {
      assert !InBlock(s, f, h);
      if Up(f, v) == Up(b, v) {
        UpMono(f, b, v, v + 1);
      }
      if Up(f, v) == Up(h, v) {
        UpMono(f, h, v, v + 1);
      }
      assert Head(s, s.owner[f]);
    }
  }

  lemma {:induction false} SplitPartition(s: State, h: nat)
    requires Blocks(s) && Head(s, h) && s.val[h] > 0
    ensures Blocks(Split(s, h))
  {
    hide Up, Low, Flip, Pow2;
    var v: nat := s.val[h] - 1;
    var b := Flip(h, v);
    var t := Split(s, h);
    SplitShape(s, h);
    FlipBlock(h, v);
    forall f | 0 <= f < FRAMES
      ensures Head(t, t.owner[f]) && InBlock(t, f, t.owner[f])
      ensures Low(f, t.val[f]) == Low(t.owner[f], t.val[f])
    {
      SplitOwner(s, h, f);
      assert Head(s, s.owner[f]) && InBlock(s, f, s.owner[f]);
      SplitOwner(s, h, s.owner[f]);
      if f != h && f != b {
        if s.owner[f] == h {
          StaleIsLower(s, f);
          LowMono(h, b, s.val[f], v);
        }
      }
    }
    forall f, g | 0 <= f < FRAMES && Head(t, g) && InBlock(t, f, g)
      ensures t.owner[f] == g
    {
      SplitOwner(s, h, f);
      SplitOwner(s, h, g);
      if g != h && g != b {
        assert InBlock(s, f, g);
      }
    }
  }

  lemma {:induction false} SplitListed(s: State, h: nat)
    requires Inv(s, h) && Head(s, h) && s.val[h] > 0
    ensures Listed(Split(s, h), h)
  {
    hide Up, Low, Flip, Pow2;
    var v: nat := s.val[h] - 1;
    var b := Flip(h, v);
    var t := Split(s, h);
    SplitShape(s, h);
    assert b !in s.free[v];
    forall w: nat, g: nat | w <= MAXORDER
      ensures g in t.free[w] <==> Head(t, g) && t.val[g] == w && !t.used[g] && g != h
    {
      if g < FRAMES {
        SplitOwner(s, h, g);
        FlipBlock(h, v);
      }
      assert g in s.free[w] <==> Head(s, g) && s.val[g] == w && !s.used[g] && g != h;
    }
  }

  /** Splitting keeps the invariant. */
  lemma {:induction false} SplitKeepsInv(s: State, h: nat)
    requires Inv(s, h) && Head(s, h) && s.val[h] > 0
    ensures Inv(Split(s, h), h) && Head(Split(s, h), h) && Split(s, h).val[h] == s.val[h] - 1
  {
    SplitShape(s, h);
    SplitPartition(s, h);
    SplitListed(s, h);
  }

  // ---------------------------------------------------------------- merging

  /** The test made before merging the held head `h` with the frame whose number differs in bit `val`. */
  ghost predicate Mergeable(s: State, h: nat)
    requires Shape(s) && h < FRAMES
  {
    s.val[h] < MAXORDER
    && (FlipInRange(h, s.val[h]); var b := Flip(h, s.val[h]); s.val[b] == s.val[h] && !s.used[b])
  }

  /** A record of the same order across the merge bit belongs to a live head, never to a stale record. */
  lemma {:induction false} MatchIsHead(s: State, h: nat)
    requires Blocks(s) && Head(s, h) && s.val[h] < MAXORDER
    ensures Flip(h, s.val[h]) < FRAMES
    ensures s.val[Flip(h, s.val[h])] == s.val[h] ==> Head(s, Flip(h, s.val[h]))
  {
    var v := s.val[h];
    var b := Flip(h, v);
    FlipInRange(h, v);
    FlipBlock(h, v);
    if s.val[b] == v && !Head(s, b) {
      var o := s.owner[b];
      StaleIsLower(s, b);
      assert Head(s, o) && InBlock(s, b, o);
      UpMono(h, b, v + 1, s.val[o]);
      OwnerOf(s, h, o);
      assert false;
    }
  }

  /** The record that passes the merge test is the live head of exactly the sibling block. */
  lemma {:induction false} MergeSafety(s: State, h: nat)
    requires Blocks(s) && Head(s, h) && Mergeable(s, h)
    ensures Flip(h, s.val[h]) < FRAMES && Head(s, Flip(h, s.val[h]))
    ensures forall f :: 0 <= f < FRAMES ==>
      (s.owner[f] == Flip(h, s.val[h]) <==> Up(f, s.val[h]) != Up(h, s.val[h]) && Up(f, s.val[h] + 1) == Up(h, s.val[h] + 1))
  {
    hide Up, Low, Flip, Pow2;
    var v := s.val[h];
    var b := Flip(h, v);
    MatchIsHead(s, h);
    FlipBlock(h, v);
    forall f | 0 <= f < FRAMES
      ensures s.owner[f] == b <==> Up(f, v) != Up(h, v) && Up(f, v + 1) == Up(h, v + 1)
    {
      UpStep(f, v);
      UpStep(h, v);
      assert InBlock(s, f, s.owner[f]);
      assert s.owner[f] == b <==> InBlock(s, f, b);
    }
  }

  /** The held head `h` takes over its sibling block, as `combine_page` does when the test passes. */
  ghost function Merge(s: State, h: nat): (t: State)
    requires Shape(s) && h < FRAMES && s.val[h] < MAXORDER
    ensures Shape(t) && t.val[h] == s.val[h] + 1
  {
    var v := s.val[h];
    var b := Flip(h, v);
    State(s.val[h := v + 1],
          s.used,
          seq(FRAMES, f requires 0 <= f < FRAMES => if s.owner[f] == b then h else s.owner[f]),
          s.free[v := Remove(s.free[v], b)])
  }

  /** Who owns what after a merge. */
  lemma {:induction false} MergePartition(s: State, h: nat)
    requires Blocks(s) && Head(s, h) && Mergeable(s, h)
    ensures Shape(Merge(s, h)) && Partition(Merge(s, h))
  {
    hide Up, Low, Flip, Pow2;
    var v := s.val[h];
    var b := Flip(h, v);
    var t := Merge(s, h);
    MergeSafety(s, h);
    FlipBlock(h, v);
    forall f | 0 <= f < FRAMES
      ensures Head(t, t.owner[f]) && InBlock(t, f, t.owner[f])
    {
      assert Head(s, s.owner[f]) && InBlock(s, f, s.owner[f]);
      if s.owner[f] == h {
        UpMono(f, h, v, v + 1);
      }
    }
    forall f, g | 0 <= f < FRAMES && Head(t, g) && InBlock(t, f, g)
      ensures t.owner[f] == g
    {
      if g == h {
        Halves(f, h, v);
        assert InBlock(s, f, h) || InBlock(s, f, b);
      } else {
        assert InBlock(s, f, g);
      }
    }
  }

  lemma {:induction false} MergeLeftovers(s: State, h: nat)
    requires Blocks(s) && Head(s, h) && Mergeable(s, h)
    ensures Shape(Merge(s, h)) && Leftovers(Merge(s, h))
  {
    hide Up, Low, Flip, Pow2;
    var v := s.val[h];
    var b := Flip(h, v);
    var t := Merge(s, h);
    MergeSafety(s, h);
    FlipBlock(h, v);
    forall f | 0 <= f < FRAMES
      ensures Low(f, t.val[f]) == Low(t.owner[f], t.val[f])
    {
      if s.owner[f] == b && f != h {
        if f != b {
          StaleIsLower(s, f);
        }
        LowMono(h, b, s.val[f], v);
      }
    }
  }

  lemma {:induction false} MergeListed(s: State, h: nat)
    requires Inv(s, h) && Head(s, h) && Mergeable(s, h)
    ensures Listed(Merge(s, h), h)
  {
    var v := s.val[h];
    var b := Flip(h, v);
    var t := Merge(s, h);
    MatchIsHead(s, h);
    FlipBlock(h, v);
    RemoveMembers(s.free[v], b);
    forall w: nat, g: nat | w <= MAXORDER
      ensures g in t.free[w] <==> Head(t, g) && t.val[g] == w && !t.used[g] && g != h
    {
      assert g in s.free[w] <==> Head(s, g) && s.val[g] == w && !s.used[g] && g != h;
    }
  }

  /** Merging keeps the invariant; the buddy was on the list it is unlinked from. */
  lemma {:induction false} MergeKeepsInv(s: State, h: nat)
    requires Inv(s, h) && Head(s, h) && Mergeable(s, h)
    ensures Inv(Merge(s, h), h) && Head(Merge(s, h), h) && Merge(s, h).val[h] == s.val[h] + 1
    ensures Flip(h, s.val[h]) in s.free[s.val[h]]
  {
    MatchIsHead(s, h);
    FlipBlock(h, s.val[h]);
    MergePartition(s, h);
    MergeLeftovers(s, h);
    MergeListed(s, h);
  }
}
