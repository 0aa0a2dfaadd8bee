/** The address space of a thread as the code updates it: page tables written entry by entry, and a
    list of areas. */
module AddressSpace {
  import opened MemoryMap
  import opened Options
  import opened PageTable
  import opened DemandPaging
  import opened MmapSearch

  /** `n` pages from `va` on, mapped one after the other: the entry that then translates `vb`. */
  function RunEntry(vb: nat, va: nat, pa: nat, flags: nat, n: nat, before: Option<nat>): Option<nat> {
    if n == 0 then before
    else if PageNo(vb) == PageNo(va + (n - 1) * PAGE) then Some(Leaf(pa + (n - 1) * PAGE, flags))
    else RunEntry(vb, va, pa, flags, n - 1, before)
  }

  lemma {:induction false} InPage(vb: nat, a: nat)
    requires a % PAGE == 0 && a < SPACE_END && vb < SPACE_END
    ensures PageNo(vb) == PageNo(a) <==> a <= vb < a + PAGE
    ensures a <= vb < a + PAGE <==> Base(vb) == a
  {
    hide PageNo;
    SamePage(vb, a);
  }

  lemma {:induction false} PagesOn(va: nat, n: nat)
    requires va % PAGE == 0
    ensures (va + n * PAGE) % PAGE == 0
  {
  }

  /** `map_pages` maps exactly the pages of the range, each to its own physical page. */
  lemma {:induction false} RunIsRange(vb: nat, va: nat, pa: nat, flags: nat, n: nat, before: Option<nat>)
    requires va % PAGE == 0 && va + n * PAGE <= SPACE_END && vb < SPACE_END
    ensures RunEntry(vb, va, pa, flags, n, before) ==
      if va <= vb < va + n * PAGE then Some(Leaf(pa + (Base(vb) - va), flags)) else before
  {
    hide PageNo, Leaf, Base;
    if n > 0 {
      RunIsRange(vb, va, pa, flags, n - 1, before);
      PagesOn(va, n - 1);
      InPage(vb, va + (n - 1) * PAGE);
    }
  }

  const TRANSLATION_FAULTS: set<nat> := {4, 5, 6, 7}

  datatype Outcome = Mapped | Killed

  class Space {
    var mem: Memory
    const pgd: nat
    var vmas: seq<Vma>
    var pool: seq<nat>  // pages that the page allocator hands out next
    ghost var place: map<nat, (nat, nat)>

    ghost predicate Valid()
      reads this
    {
      Tree(mem, pgd, place) && Fresh(pool, place)
    }

    /** A new thread: one zeroed root table and no areas. */
    constructor (mem: Memory, pgd: nat, pool: seq<nat>)
      requires PageAddress(pgd) && Fresh(pool, map[pgd := (0, 0)])
      ensures Valid() && vmas == [] && this.pool == pool
      ensures forall va: nat :: Walk(this.mem, pgd, va) == None
    {
      this.mem := Cleared(mem, pgd);
      this.pgd := pgd;
      this.vmas := [];
      this.pool := pool;
      this.place := map[pgd := (0, 0)];
      new;
      assert !Present(0);
      forall va: nat
        ensures Walk(this.mem, pgd, va) == None
      {
        assert Descend(this.mem, pgd, va, 0) == Some(pgd);
        assert Descend(this.mem, pgd, va, 1) == None;
        assert Descend(this.mem, pgd, va, 2) == None;
      }
    }

    /** One turn of the loop of `mapping`: the table that entry `Index(va, level)` of `table` leads to,
        made first if there is none. */
    method NextTable(va: nat, level: nat, table: nat, ghost e: nat) returns (next: nat)
      requires level < 3 && |pool| + level >= 3 && PageAddress(pool[0])
      modifies this
      ensures vmas == old(vmas) && |pool| <= |old(pool)| <= |pool| + 1 && pool == old(pool)[|old(pool)| - |pool|..]
      ensures MapFrom(mem, next, va, e, pool, level + 1).0 == MapFrom(old(mem), table, va, e, old(pool), level).0
      ensures MapFrom(mem, next, va, e, pool, level + 1).1 + (|old(pool)| - |pool|) == MapFrom(old(mem), table, va, e, old(pool), level).1
      ensures PlaceFrom(mem, place, next, va, pool, level + 1) == PlaceFrom(old(mem), old(place), table, va, old(pool), level)
    {
      hide Index, AddressField, PageAddress, Present, TableEntry;
      var idx := Index(va, level);
      if !Present(mem(table, idx)) {
        var newTable := pool[0];
        pool := pool[1..];
        place := place[newTable := (level + 1, Path(va, level + 1))];
        mem := Link(mem, table, idx, newTable);
        LinkLeads(old(mem), table, idx, newTable);
      }
      next := AddressField(mem(table, idx));
    }

    /** The loop of `mapping` down to the last level: the table whose entry is then written. */
    method LastTable(va: nat, ghost e: nat) returns (table: nat)
      requires |pool| >= 3 && forall k :: 0 <= k < |pool| ==> PageAddress(pool[k])
      modifies this
      ensures vmas == old(vmas) && |old(pool)| - 3 <= |pool| <= |old(pool)| && pool == old(pool)[|old(pool)| - |pool|..]
      ensures MapFrom(mem, table, va, e, pool, 3).0 == MapFrom(old(mem), pgd, va, e, old(pool), 0).0
      ensures MapFrom(mem, table, va, e, pool, 3).1 + (|old(pool)| - |pool|) == MapFrom(old(mem), pgd, va, e, old(pool), 0).1
      ensures PlaceFrom(mem, place, table, va, pool, 3) == PlaceFrom(old(mem), old(place), pgd, va, old(pool), 0)
    {
      hide Index, PageAddress, MapFrom, PlaceFrom;
      ghost var pool0 := pool;
      table := pgd;
      var level: nat := 0;
      while level < 3
        invariant level <= 3 && |pool0| - level <= |pool| <= |pool0|
        invariant MapFrom(mem, table, va, e, pool, level).0 == MapFrom(old(mem), pgd, va, e, pool0, 0).0
        invariant MapFrom(mem, table, va, e, pool, level).1 + (|pool0| - |pool|) == MapFrom(old(mem), pgd, va, e, pool0, 0).1
        invariant PlaceFrom(mem, place, table, va, pool, level) == PlaceFrom(old(mem), old(place), pgd, va, pool0, 0)
        invariant pool == pool0[|pool0| - |pool|..] && vmas == old(vmas)
      {
        table := NextTable(va, level, table, e);
        level := level + 1;
      }
    }

    /** `mapping`: the four levels are walked, and missing tables made on the way. */
    method Mapping(va: nat, pa: nat, flags: nat)
      requires Valid() && |pool| >= 3 && AddressField(flags) == 0
      modifies this
      ensures Valid() && Remaps(old(mem), mem, pgd, va, Leaf(pa, flags)) && vmas == old(vmas)
      ensures |pool| >= |old(pool)| - 3
    {
      hide Index, AddressField, PageAddress, Present, Leaf, Tree, Fresh, Remaps, MapFrom, PlaceFrom;
      LeafAddress(pa, flags);
      ghost var e := Leaf(pa, flags);
      MappingIsRight(mem, place, pgd, va, e, pool);
      var table := LastTable(va, e);
      LastLevel(mem, place, table, va, e, pool);
      mem := Write(mem, table, Index(va, 3), Leaf(pa, flags));
    }

    /** `mapping_set_prot`. */
    method MappingSetProt(va: nat, pa: nat, prot: nat)
      requires Valid() && |pool| >= 3
      modifies this
      ensures Valid() && Remaps(old(mem), mem, pgd, va, Leaf(pa, ProtFlags(prot))) && vmas == old(vmas)
      ensures PageAddress(pa) ==>
        Walk(mem, pgd, va).Some? && AddressField(Walk(mem, pgd, va).value) == pa && HasAttributes(prot, Walk(mem, pgd, va).value)
      ensures |pool| >= |old(pool)| - 3
    {
      ProtFlagsOutsideAddress(prot);
      if PageAddress(pa) {
        ProtectedPage(pa, prot);
      }
      hide Leaf, ProtFlags, AddressField, HasAttributes, Walk, Tree, Fresh;
      Mapping(va, pa, ProtFlags(prot));
    }

    /** `map_pages`: the physical address is rounded down and the pages of the range mapped in turn. */
    method MapPages(va: nat, size: nat, pa: nat, flags: nat)
      requires Valid() && |pool| >= 3 * ((size + PAGE - 1) / PAGE) && AddressField(flags) == 0
      modifies this
      ensures Valid() && vmas == old(vmas)
      ensures forall vb: nat ::
        Walk(mem, pgd, vb) == RunEntry(vb, va, pa - pa % PAGE, flags, (size + PAGE - 1) / PAGE, Walk(old(mem), pgd, vb))
    {
      hide Leaf, AddressField, Walk, PageNo, Tree, Fresh;
      var base := pa - pa % PAGE;
      var s := 0;
      ghost var n: nat := 0;
      ghost var pages := (size + PAGE - 1) / PAGE;
      while s < size
        invariant s == n * PAGE && n <= pages && Valid() && vmas == old(vmas)
        invariant |pool| >= 3 * (pages - n)
        invariant forall vb: nat :: Walk(mem, pgd, vb) == RunEntry(vb, va, base, flags, n, Walk(old(mem), pgd, vb))
        decreases pages - n
      {
        Mapping(va + s, base + s, flags);
        s := s + PAGE;
        n := n + 1;
      }
    }

    /** `add_vma`: the size is rounded up and the area put at the end of the list. */
    method AddVma(virt: nat, size: nat, phys: nat, prot: nat, owned: bool)
      modifies `vmas
      ensures vmas == old(vmas) + [Vma(virt, RoundUp(size), phys, prot, owned)]
    {
      var rounded := if size % PAGE != 0 then (size + (PAGE - size % PAGE)) % WORD else size;
      vmas := vmas + [Vma(virt, rounded, phys, prot, owned)];
    }

    /** The loop of `handle_abort`: the first area whose closed range holds the address. */
    method AreaAt(far: nat) returns (k: nat)
      ensures k == Find(vmas, far)
    {
      k := 0;
      while k < |vmas|
        invariant k <= |vmas|
        invariant Find(vmas, far) == k + Find(vmas[k..], far)
      {
        if vmas[k].virt <= far && far <= vmas[k].virt + vmas[k].size {
          break;
        }
        k := k + 1;
      }
    }

    /** `handle_abort`: an address in no area, and any fault but a translation fault, kills the thread. */
    method HandleAbort(far: nat, iss: nat) returns (outcome: Outcome)
      requires Valid() && |pool| >= 3
      modifies this
      ensures Valid() && vmas == old(vmas)
      ensures outcome == Mapped <==> Find(vmas, far) < |vmas| && 4 <= iss % 64 <= 7
      ensures outcome == Mapped ==> Faults(old(mem), mem, pgd, vmas, far)
      ensures outcome == Killed ==> mem == old(mem)
    {
      hide Leaf, ProtFlags, Tree, Fresh, Remaps, Find;
      var ifsc := iss % 64;
      var k := AreaAt(far);
      if k == |vmas| || ifsc !in TRANSLATION_FAULTS {
        return Killed;
      }
      var pos := vmas[k];
      var addr := far - pos.virt;
      addr := if addr % PAGE == 0 then addr else addr - addr % PAGE;
      MappingSetProt(pos.virt + addr, pos.phys + addr, pos.prot);
      outcome := Mapped;
    }

    /** The loop of `sys_mmap`: the first area in the way. */
    method FirstInTheWay(start: nat, size: nat) returns (k: nat)
      ensures k == Clash(vmas, start, size)
    {
      k := 0;
      while k < |vmas|
        invariant k <= |vmas|
        invariant Clash(vmas, start, size) == k + Clash(vmas[k..], start, size)
      {
        if !(vmas[k].virt >= (start + size) % WORD || vmas[k].virt + vmas[k].size <= start) {
          break;
        }
        k := k + 1;
      }
    }

    /** `sys_mmap`; `phys` is the block that the allocator gives for the area. */
    method SysMmap(addr: nat, len: nat, prot: nat, phys: nat, ghost fuel: nat) returns (r: nat)
      requires Search(vmas, addr, len, fuel).Some?
      modifies `vmas
      ensures Some(r) == Search(old(vmas), addr, len, fuel)
      ensures vmas == old(vmas) + [Vma(r, RoundUp(len), phys, prot, true)]
      ensures addr < WORD && len < WORD && Areas(old(vmas)) && SomeBelow(old(vmas)) ==>
        (Areas(vmas) <==> KeepsToSpace(old(vmas), addr, len))
      decreases fuel
    {
      hide RoundUp, Clash, Areas, SomeBelow, KeepsToSpace;
      MmapKeepsOrder(vmas, addr, len, fuel, phys, prot);
      var start := addr;
      if (len + addr) % WORD >= LIMIT {
        start := 0;
      }
      var size := RoundUp(len);
      start := RoundUp(start);
      var k := FirstInTheWay(start, size);
      RoundUpTwice(len);
      if k < |vmas| {
        r := SysMmap(vmas[k].virt + vmas[k].size, size, prot, phys, fuel - 1);
        return;
      }
      AddVma(start, size, phys, prot, true);
      r := start;
    }
  }

  /** Mapping from the root: the translations, the tables, and the pages left. */
  lemma {:induction false} MappingIsRight(mem: Memory, place: map<nat, (nat, nat)>, pgd: nat, va: nat, e: nat, pool: seq<nat>)
    requires Tree(mem, pgd, place) && Fresh(pool, place) && |pool| >= 3 && Present(e)
    ensures var (m, k) := MapFrom(mem, pgd, va, e, pool, 0); var p := PlaceFrom(mem, place, pgd, va, pool, 0);
      Tree(m, pgd, p) && Remaps(mem, m, pgd, va, e) && k <= |pool| && Fresh(pool[k..], p)
    ensures forall k :: 0 <= k < |pool| ==> PageAddress(pool[k])
  {
    hide Tree, Remaps, MapFrom, PlaceFrom;
    MapFromIsRight(mem, pgd, place, pgd, va, e, pool, 0);
    FreshAfter(mem, place, pgd, va, e, pool);
    FreshIsAligned(pool, place);
  }

  lemma {:induction false} MmapKeepsOrder(vmas: seq<Vma>, addr: nat, len: nat, fuel: nat, phys: nat, prot: nat)
    requires Search(vmas, addr, len, fuel).Some?
    ensures addr < WORD && len < WORD && Areas(vmas) && SomeBelow(vmas) ==>
      (Areas(vmas + [Vma(Search(vmas, addr, len, fuel).value, RoundUp(len), phys, prot, true)]) <==> KeepsToSpace(vmas, addr, len))
  {
    hide Search, RoundUp, Areas, SomeBelow, KeepsToSpace;
    if addr < WORD && len < WORD && Areas(vmas) && SomeBelow(vmas) {
      MmapKeepsAreas(vmas, addr, len, fuel, phys, prot);
    }
  }

  lemma {:induction false} RoundUpTwice(n: nat)
    ensures RoundUp(RoundUp(n)) == RoundUp(n)
  {
  }

  /** A link to a page-aligned table leads to it. */
  lemma {:induction false} LinkLeads(mem: Memory, t: nat, i: nat, n: nat)
    requires PageAddress(n)
    ensures Present(Link(mem, t, i, n)(t, i)) && AddressField(Link(mem, t, i, n)(t, i)) == n
  {
    TableEntryLinks(n);
  }

  lemma {:induction false} FreshIsAligned(pool: seq<nat>, place: map<nat, (nat, nat)>)
    requires Fresh(pool, place)
    ensures forall k :: 0 <= k < |pool| ==> PageAddress(pool[k])
  {
  }

  lemma {:induction false} LastLevel(mem: Memory, place: map<nat, (nat, nat)>, t: nat, va: nat, e: nat, pool: seq<nat>)
    ensures MapFrom(mem, t, va, e, pool, 3) == (Write(mem, t, Index(va, 3), e), 0)
    ensures PlaceFrom(mem, place, t, va, pool, 3) == place
  {
  }

  /** The pages left in the pool are fresh for the tables after `MapFrom`. */
  lemma {:induction false} FreshAfter(mem: Memory, place: map<nat, (nat, nat)>, t: nat, va: nat, e: nat, pool: seq<nat>)
    requires |pool| >= 3 && Fresh(pool, place)
    ensures var k := MapFrom(mem, t, va, e, pool, 0).1;
      k <= |pool| && k <= 3 && Fresh(pool[k..], PlaceFrom(mem, place, t, va, pool, 0))
  {
    MapFromTakes(mem, place, t, va, e, pool, 0);
    hide PageAddress;
  }
}
