/** The form of the free lists: which free blocks can lie side by side, when freeing undoes
    allocating, and when the free lists are determined by the free frames. */
module BuddyForm {
  import opened Bits
  import opened Lists
  import opened Buddy
  import opened BuddyRuns

  // ---------------------------------------------------------------- no mergeable pair is left

  /** Every free head that passes the merge test passes it against the held head `out`. */
  ghost predicate NoPairs(s: State, out: int)
    requires Shape(s)
  {
    forall g: nat :: Head(s, g) && !s.used[g] && g != out && Mergeable(s, g) ==> Flip(g, s.val[g]) == out
  }

  /** The merge test looks at two records only. */
  lemma {:induction false} SameTest(s: State, t: State, g: nat)
    requires Shape(s) && Shape(t) && g < FRAMES && s.val[g] == t.val[g]
    requires forall p: nat :: p < FRAMES && p == Flip(g, s.val[g]) ==> s.val[p] == t.val[p] && s.used[p] == t.used[p]
    ensures Mergeable(s, g) <==> Mergeable(t, g)
  {
    if s.val[g] < MAXORDER {
      FlipInRange(g, s.val[g]);
    }
  }

  lemma {:induction false} SplitPairBefore(s: State, h: nat, g: nat)
    requires Blocks(s) && Head(s, h) && s.val[h] > 0
    requires Head(Split(s, h), g) && g != h && Mergeable(Split(s, h), g) && Flip(g, Split(s, h).val[g]) != h
    ensures Head(s, g) && s.val[g] == Split(s, h).val[g] && s.used[g] == Split(s, h).used[g] && Mergeable(s, g)
  {
    hide Up, Low, Flip, Pow2;
    var v: nat := s.val[h] - 1;
    var t := Split(s, h);
    SplitShape(s, h);
    FlipBlock(h, v);
    SplitOwner(s, h, g);
    FlipBlock(g, t.val[g]);
    SameTest(s, t, g);
  }

  lemma {:induction false} SplitNoPairs(s: State, h: nat)
    requires Inv(s, h) && Head(s, h) && s.val[h] > 0 && NoPairs(s, h)
    ensures NoPairs(Split(s, h), h)
  {
    var t := Split(s, h);
    forall g: nat | Head(t, g) && !t.used[g] && g != h && Mergeable(t, g)
      ensures Flip(g, t.val[g]) == h
    {
      if Flip(g, t.val[g]) != h {
        SplitPairBefore(s, h, g);
      }
    }
  }

  lemma {:induction false} MergeNoPairs(s: State, h: nat)
    requires Inv(s, h) && Head(s, h) && Mergeable(s, h) && NoPairs(s, h)
    ensures NoPairs(Merge(s, h), h)
  {
    var t := Merge(s, h);
    forall g: nat | Head(t, g) && !t.used[g] && g != h && Mergeable(t, g)
      ensures Flip(g, t.val[g]) == h
    {
      if Flip(g, t.val[g]) != h {
        SameTest(s, t, g);
      }
    }
  }

  lemma {:induction false} SplitDownNoPairs(s: State, h: nat, v: nat)
    requires Inv(s, h) && Head(s, h) && !s.used[h] && s.val[h] >= v && NoPairs(s, h)
    ensures NoPairs(SplitDown(s, h, v), h)
    decreases s.val[h]
  {
    if s.val[h] > v {
      SplitNoPairs(s, h);
      SplitKeepsInv(s, h);
      FlipBlock(h, s.val[h] - 1);
      SplitDownNoPairs(Split(s, h), h, v);
    }
  }

  lemma {:induction false} MergeUpNoPairs(s: State, h: nat)
    requires Inv(s, h) && Head(s, h) && !s.used[h] && NoPairs(s, h)
    ensures NoPairs(MergeUp(s, h), h)
    decreases MAXORDER - s.val[h]
  {
    if Mergeable(s, h) {
      MergeNoPairs(s, h);
      MergeKeepsInv(s, h);
      MergeUpNoPairs(Merge(s, h), h);
    }
  }

  lemma {:induction false} AllocNoPairs(s: State, size: nat)
    requires Inv(s, -1) && CanAlloc(s, size) && NoPairs(s, -1)
    ensures NoPairs(Alloc(s, size), -1)
  {
    var h := Target(s, size);
    var u := Unlink(s, h);
    UnlinkKeepsInv(s, h);
    forall g: nat | g < FRAMES
      ensures Mergeable(u, g) <==> Mergeable(s, g)
    {
      SameTest(s, u, g);
    }
    assert forall g: nat :: Head(u, g) <==> Head(s, g);
    SplitDownKeeps(u, h, Order(size));
    SplitDownNoPairs(u, h, Order(size));
    ClaimNoPairs(SplitDown(u, h, Order(size)), h);
  }

  lemma {:induction false} ClaimNoPairs(s: State, h: nat)
    requires Shape(s) && Head(s, h) && NoPairs(s, h)
    ensures NoPairs(SetUsed(s, h, true), -1)
  {
    var t := SetUsed(s, h, true);
    forall g: nat | Head(t, g) && !t.used[g] && Mergeable(t, g)
      ensures Mergeable(s, g) && Flip(g, s.val[g]) != h && Head(s, g)
    {
      FlipInRange(g, t.val[g]);
      SameTest(s, t, g);
    }
  }

  lemma {:induction false} ReleaseNoPairs(s: State, h: nat)
    requires Shape(s) && Head(s, h) && NoPairs(s, -1)
    ensures NoPairs(SetUsed(s, h, false), h)
  {
    var t := SetUsed(s, h, false);
    forall g: nat | Head(t, g) && !t.used[g] && g != h && Mergeable(t, g)
      ensures Flip(g, t.val[g]) == h
    {
      if Flip(g, t.val[g]) != h {
        SameTest(s, t, g);
      }
    }
  }

  lemma {:induction false} LinkNoPairs(s: State, h: nat)
    requires Shape(s) && Head(s, h) && !s.used[h] && NoPairs(s, h) && !Mergeable(s, h)
    ensures NoPairs(Link(s, h), -1)
  {
    var t := Link(s, h);
    forall g: nat | Head(t, g) && !t.used[g] && Mergeable(t, g)
      ensures Mergeable(s, g) && g != h && Flip(g, s.val[g]) != h
    {
      SameTest(s, t, g);
      FlipBlock(g, s.val[g]);
    }
  }

  lemma {:induction false} FreeNoPairs(s: State, h: nat)
    requires Inv(s, -1) && UsedHead(s, h) && NoPairs(s, -1)
    ensures NoPairs(Free(s, h), -1)
  {
    var u := SetUsed(s, h, false);
    ReleaseKeepsInv(s, h);
    ReleaseNoPairs(s, h);
    MergeUpKeeps(u, h);
    MergeUpNoPairs(u, h);
    LinkNoPairs(MergeUp(u, h), h);
  }

  // ---------------------------------------------------------------- freeing undoes allocating

  /** Equal but for left-over records. */
  ghost predicate Same(s: State, t: State)
    requires Shape(s) && Shape(t)
  {
    && s.owner == t.owner && s.free == t.free
    && (forall g: nat :: Head(s, g) ==> s.val[g] == t.val[g] && s.used[g] == t.used[g])
  }

  lemma {:induction false} MergeUndoesSplit(s: State, h: nat)
    requires Inv(s, h) && Head(s, h) && !s.used[h] && s.val[h] > 0
    ensures Mergeable(Split(s, h), h) && Same(Merge(Split(s, h), h), s)
  {
    var v: nat := s.val[h] - 1;
    var b := Flip(h, v);
    var t := Split(s, h);
    SplitShape(s, h);
    FlipBlock(h, v);
    var m := Merge(t, h);
    forall f: nat | f < FRAMES
      ensures m.owner[f] == s.owner[f]
    {
      SplitOwner(s, h, f);
    }
    assert m.owner == s.owner;
    assert Remove([b] + s.free[v], b) == s.free[v];
    assert m.free == s.free;
  }

  lemma {:induction false} MergeRespectsSame(s: State, t: State, h: nat)
    requires Inv(s, h) && Inv(t, h) && Same(s, t) && Head(s, h)
    ensures Mergeable(s, h) <==> Mergeable(t, h)
    ensures Mergeable(s, h) ==> Same(Merge(s, h), Merge(t, h))
  {
    if s.val[h] < MAXORDER {
      MatchIsHead(s, h);
      MatchIsHead(t, h);
    }
  }

  lemma {:induction false} MergeUpRespectsSame(s: State, t: State, h: nat)
    requires Inv(s, h) && Inv(t, h) && Same(s, t) && Head(s, h)
    ensures Same(MergeUp(s, h), MergeUp(t, h))
    decreases MAXORDER - s.val[h]
  {
    MergeRespectsSame(s, t, h);
    if Mergeable(s, h) {
      MergeKeepsInv(s, h);
      MergeKeepsInv(t, h);
      MergeUpRespectsSame(Merge(s, h), Merge(t, h), h);
    }
  }

  lemma {:induction false} MergeUpUndoesSplitDown(s: State, h: nat, v: nat)
    requires Inv(s, h) && Head(s, h) && !s.used[h] && s.val[h] >= v
    ensures Same(MergeUp(SplitDown(s, h, v), h), MergeUp(s, h))
    decreases s.val[h]
  {
    if s.val[h] > v {
      var t := Split(s, h);
      SplitKeepsInv(s, h);
      FlipBlock(h, s.val[h] - 1);
      MergeUpUndoesSplitDown(t, h, v);
      MergeUndoesSplit(s, h);
      MergeKeepsInv(t, h);
      MergeUpRespectsSame(Merge(t, h), s, h);
    }
  }

  /** Freeing the page just allocated restores every list, in order, and every head. */
  lemma {:induction false} FreeUndoesAlloc(s: State, size: nat)
    requires Inv(s, -1) && CanAlloc(s, size) && NoPairs(s, -1)
    ensures Same(Free(Alloc(s, size), Target(s, size)), s)
  {
    hide Up, Low, Flip, Pow2, Partition, Leftovers;
    var h := Target(s, size);
    var u := Unlink(s, h);
    UnlinkKeepsInv(s, h);
    SplitDownKeeps(u, h, Order(size));
    var w := SplitDown(u, h, Order(size));
    assert SetUsed(SetUsed(w, h, true), h, false) == w;
    MergeUpUndoesSplitDown(u, h, Order(size));
    assert !Mergeable(u, h) by {
      assert Mergeable(u, h) <==> Mergeable(s, h);
    }
    SupplyIsFirst(s, Order(size));
    var l := s.free[s.val[h]];
    assert l == [h] + l[1..];
    assert Link(u, h).free == s.free;
  }
}
