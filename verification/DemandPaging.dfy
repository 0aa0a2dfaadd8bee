/** Virtual memory areas and the page faults that fill in their translations. */
module DemandPaging {
  import opened Options
  import opened Bits
  import opened MemoryMap
  import opened PageTable

  const SPACE_END: nat := 0x1_0000_0000_0000

  datatype Vma = Vma(virt: nat, size: nat, phys: nat, prot: nat, owned: bool) {
    function End(): nat { virt + size }
  }

  predicate Overlap(v: Vma, w: Vma) {
    v.virt < w.End() && w.virt < v.End()
  }

  /** The areas of a thread: page-aligned, inside the 48-bit space, pairwise disjoint. */
  predicate Areas(vmas: seq<Vma>) {
    && (forall k :: 0 <= k < |vmas| ==> vmas[k].virt % PAGE == 0 && vmas[k].size % PAGE == 0 && vmas[k].End() <= SPACE_END)
    && (forall j, k :: 0 <= j < k < |vmas| ==> !Overlap(vmas[j], vmas[k]))
  }

  /** The areas that `exec_thread` and `sys_exec` set up, for a program of `text` bytes at `data`. */
  function ThreadAreas(text: nat, data: nat, ustack: nat, wrapper: nat): seq<Vma> {
    [Vma(0, text, data, 7, true), Vma(STACK, STACK_SIZE, ustack, 7, true),
     Vma(DEVICE, DEVICE_SIZE, DEVICE, 3, false), Vma(SIGNAL, SIGNAL_SIZE, wrapper, 5, false)]
  }

  /** The search of `handle_abort`: the first area whose closed range holds the address. */
  function Find(vmas: seq<Vma>, far: nat): (k: nat)
    ensures k <= |vmas|
    ensures k < |vmas| ==> vmas[k].virt <= far <= vmas[k].End()
    ensures forall j :: 0 <= j < k ==> !(vmas[j].virt <= far <= vmas[j].End())
  {
    if vmas == [] || vmas[0].virt <= far <= vmas[0].End() then 0 else 1 + Find(vmas[1..], far)
  }

  function Base(va: nat): nat {
    va - va % PAGE
  }

  /** The entry that belongs to the page at `page` of area `v`. */
  function EntryOf(v: Vma, page: nat): nat
    requires v.virt <= page
  {
    Leaf(v.phys + (page - v.virt), ProtFlags(v.prot))
  }

  predicate Holds(v: Vma, page: nat) {
    v.virt <= page < v.End()
  }

  /** Some area holds the page and would map it by `e`. */
  predicate Backed(vmas: seq<Vma>, page: nat, e: nat) {
    exists k :: 0 <= k < |vmas| && Holds(vmas[k], page) && e == EntryOf(vmas[k], page)
  }

  /** Every translation in the tables is the one that an area gives. */
  ghost predicate Sound(mem: Memory, pgd: nat, vmas: seq<Vma>) {
    forall va: nat :: va < SPACE_END && Walk(mem, pgd, va).Some? ==> Backed(vmas, Base(va), Walk(mem, pgd, va).value)
  }

  /** What a translation fault at `far` writes for the area it finds: the page and its entry. */
  function FaultPage(v: Vma, far: nat): nat
    requires v.virt <= far
  {
    v.virt + ((far - v.virt) - (far - v.virt) % PAGE)
  }

  ghost predicate Faults(mem: Memory, m: Memory, pgd: nat, vmas: seq<Vma>, far: nat) {
    var k := Find(vmas, far);
    k < |vmas| && Remaps(mem, m, pgd, FaultPage(vmas[k], far), EntryOf(vmas[k], FaultPage(vmas[k], far)))
  }

  lemma {:induction false} FaultPageIsBase(v: Vma, far: nat)
    requires v.virt <= far && v.virt % PAGE == 0
    ensures FaultPage(v, far) == Base(far) && v.virt <= Base(far)
  {
  }

  lemma {:induction false} SamePage(va: nat, vb: nat)
    requires va < SPACE_END && vb < SPACE_END
    ensures PageNo(va) == PageNo(vb) <==> Base(va) == Base(vb)
  {
  }

  lemma {:induction false} HoldersOverlap(v: Vma, w: Vma, page: nat)
    requires Holds(v, page) && Holds(w, page)
    ensures Overlap(v, w)
  {
  }

  /** At most one area holds a page. */
  lemma {:induction false} AreaIsUnique(vmas: seq<Vma>, j: nat, k: nat, page: nat)
    requires Areas(vmas) && j < |vmas| && k < |vmas| && Holds(vmas[j], page) && Holds(vmas[k], page)
    ensures j == k
  {
    if j < k {
      HoldersOverlap(vmas[j], vmas[k], page);
      assert false;
    } else if k < j {
      HoldersOverlap(vmas[k], vmas[j], page);
      assert false;
    }
  }

  /** One new translation is sound exactly when some area gives it. */
  lemma {:induction false} RemapKeepsSound(mem: Memory, m: Memory, pgd: nat, vmas: seq<Vma>, page: nat, e: nat)
    requires Sound(mem, pgd, vmas) && page < SPACE_END && page % PAGE == 0 && Remaps(mem, m, pgd, page, e)
    ensures Sound(m, pgd, vmas) <==> Backed(vmas, page, e)
  {
    hide Walk, PageNo, Backed;
    assert Walk(m, pgd, page) == Some(e) && Base(page) == page;
    if Backed(vmas, page, e) {
      forall va: nat | va < SPACE_END && Walk(m, pgd, va).Some?
        ensures Backed(vmas, Base(va), Walk(m, pgd, va).value)
      {
        SamePage(va, page);
      }
    }
  }

  /** A fault keeps the translations sound exactly when its address is below the end of the area found,
      or is that end and another area would map the page there by the very same entry. */
  lemma {:induction false} FaultKeepsSound(mem: Memory, m: Memory, pgd: nat, vmas: seq<Vma>, far: nat)
    requires Areas(vmas) && Sound(mem, pgd, vmas) && far < SPACE_END && Faults(mem, m, pgd, vmas, far)
    ensures var v := vmas[Find(vmas, far)];
      Sound(m, pgd, vmas) <==> far < v.End() || Backed(vmas, Base(far), EntryOf(v, FaultPage(v, far)))
    ensures var v := vmas[Find(vmas, far)];
      Walk(m, pgd, far) == Some(EntryOf(v, FaultPage(v, far)))
  {
    hide Walk, PageNo, EntryOf, Backed, Sound, Find;
    var k := Find(vmas, far);
    var v := vmas[k];
    var e := EntryOf(v, FaultPage(v, far));
    FaultPageIsBase(v, far);
    SamePage(Base(far), far);
    RemapKeepsSound(mem, m, pgd, vmas, Base(far), e);
    assert Walk(m, pgd, far) == Some(e);
    if far < v.End() {
      InsideIsBacked(vmas, k, far);
    }
  }

  lemma {:induction false} InsideIsBacked(vmas: seq<Vma>, k: nat, far: nat)
    requires k < |vmas| && vmas[k].virt <= far < vmas[k].End() && vmas[k].virt % PAGE == 0
    ensures vmas[k].virt <= Base(far) && Backed(vmas, Base(far), EntryOf(vmas[k], Base(far)))
  {
    assert Holds(vmas[k], Base(far));
  }

  /** A second fault at the same address changes no translation. */
  lemma {:induction false} FaultTwice(mem: Memory, m: Memory, n: Memory, pgd: nat, vmas: seq<Vma>, far: nat, va: nat)
    requires Faults(mem, m, pgd, vmas, far) && Faults(m, n, pgd, vmas, far)
    ensures Walk(n, pgd, va) == Walk(m, pgd, va)
  {
    hide Walk, PageNo, Leaf, ProtFlags;
  }

  /** After any sequence of faults below the ends of the areas they find, every translation is the entry that is
      computed for the area that holds the page. */
  lemma {:induction false} FaultsKeepSound(mems: seq<Memory>, pgd: nat, vmas: seq<Vma>, fars: seq<nat>)
    requires Areas(vmas) && |mems| == |fars| + 1 && Sound(mems[0], pgd, vmas)
    requires forall i :: 0 <= i < |fars| ==> fars[i] < SPACE_END && Faults(mems[i], mems[i + 1], pgd, vmas, fars[i])
    requires forall i :: 0 <= i < |fars| ==> Find(vmas, fars[i]) < |vmas| && fars[i] < vmas[Find(vmas, fars[i])].End()
    ensures Sound(mems[|fars|], pgd, vmas)
    decreases |fars|
  {
    hide Sound, Faults, Areas, Find;
    if |fars| > 0 {
      FaultKeepsSound(mems[0], mems[1], pgd, vmas, fars[0]);
      FaultsKeepSound(mems[1..], pgd, vmas, fars[1..]);
    }
  }

  /** A new area leaves the translations sound. */
  lemma {:induction false} NewAreaKeepsSound(mem: Memory, pgd: nat, vmas: seq<Vma>, v: Vma)
    requires Sound(mem, pgd, vmas)
    ensures Sound(mem, pgd, vmas + [v])
  {
    hide Walk, PageNo, Leaf, ProtFlags;
    forall va: nat | va < SPACE_END && Walk(mem, pgd, va).Some?
      ensures Backed(vmas + [v], Base(va), Walk(mem, pgd, va).value)
    {
      var k :| 0 <= k < |vmas| && Holds(vmas[k], Base(va)) && Walk(mem, pgd, va).value == EntryOf(vmas[k], Base(va));
      assert (vmas + [v])[k] == vmas[k];
    }
  }

  // ---------------------------------------------------------------- what the translations say

  /** The entry leads to the byte of the area's memory at the same offset, and has the attributes of its
      protection and no others. */
  ghost predicate Exact(v: Vma, page: nat, e: nat)
    requires v.virt <= page
  {
    AddressField(e) == v.phys + (page - v.virt) && HasAttributes(v.prot, e)
  }

  /** The entry of a page is exact if and only if the memory of the area is page-aligned. */
  lemma {:induction false} EntryIsExact(v: Vma, page: nat)
    requires Holds(v, page) && v.virt % PAGE == 0 && page % PAGE == 0 && v.phys + v.size <= SPACE_END
    ensures Exact(v, page, EntryOf(v, page)) <==> v.phys % PAGE == 0
  {
    var pa, flags := v.phys + (page - v.virt), ProtFlags(v.prot);
    hide Leaf, ProtFlags, AddressField, HasAttributes;
    OffsetAligned(v.phys, v.virt, page);
    PageAddressIs(pa);
    if v.phys % PAGE == 0 {
      ProtectedPage(pa, v.prot);
    } else {
      ProtFlagsOutsideAddress(v.prot);
      LeafAddress(pa, flags);
    }
  }

  lemma {:induction false} OffsetAligned(phys: nat, virt: nat, page: nat)
    requires virt <= page && virt % PAGE == 0 && page % PAGE == 0
    ensures (phys + (page - virt)) % PAGE == 0 <==> phys % PAGE == 0
  {
    var n := page / PAGE - virt / PAGE;
    assert page - virt == n * PAGE;
  }

  lemma {:induction false} PageAddressIs(pa: nat)
    requires pa < SPACE_END
    ensures PageAddress(pa) <==> pa % PAGE == 0
  {
  }

  /** Every translated page is mapped to the memory of the area that holds it, at the same offset, with the
      attributes of its protection. */
  ghost predicate Precise(mem: Memory, pgd: nat, vmas: seq<Vma>) {
    forall va: nat :: va < SPACE_END && Walk(mem, pgd, va).Some? ==>
      exists k :: 0 <= k < |vmas| && Holds(vmas[k], Base(va)) && Exact(vmas[k], Base(va), Walk(mem, pgd, va).value)
  }

  /** The memory behind area `k`, if anything in the area is translated, is page-aligned. */
  ghost predicate AlignedIfUsed(mem: Memory, pgd: nat, v: Vma) {
    forall va: nat :: va < SPACE_END && Walk(mem, pgd, va).Some? && Holds(v, Base(va)) ==> v.phys % PAGE == 0
  }

  /** Sound translations are precise if and only if the areas in use lie over page-aligned memory. */
  lemma {:induction false} SoundIsPrecise(mem: Memory, pgd: nat, vmas: seq<Vma>)
    requires Areas(vmas) && Sound(mem, pgd, vmas) && forall k :: 0 <= k < |vmas| ==> vmas[k].phys + vmas[k].size <= SPACE_END
    ensures Precise(mem, pgd, vmas) <==> forall k :: 0 <= k < |vmas| ==> AlignedIfUsed(mem, pgd, vmas[k])
  {
    hide Walk, Exact, EntryOf, Base;
    forall va: nat, k | va < SPACE_END && Walk(mem, pgd, va).Some? && 0 <= k < |vmas| && Holds(vmas[k], Base(va))
      ensures Exact(vmas[k], Base(va), Walk(mem, pgd, va).value) <==> vmas[k].phys % PAGE == 0
    {
      HolderSays(mem, pgd, vmas, va, k);
    }
    if Precise(mem, pgd, vmas) {
      forall va: nat, k | va < SPACE_END && Walk(mem, pgd, va).Some? && 0 <= k < |vmas| && Holds(vmas[k], Base(va))
        ensures vmas[k].phys % PAGE == 0
      {
        var j :| 0 <= j < |vmas| && Holds(vmas[j], Base(va)) && Exact(vmas[j], Base(va), Walk(mem, pgd, va).value);
        AreaIsUnique(vmas, j, k, Base(va));
      }
    }
    if forall k :: 0 <= k < |vmas| ==> AlignedIfUsed(mem, pgd, vmas[k]) {
      forall va: nat | va < SPACE_END && Walk(mem, pgd, va).Some?
        ensures exists k :: 0 <= k < |vmas| && Holds(vmas[k], Base(va)) && Exact(vmas[k], Base(va), Walk(mem, pgd, va).value)
      {
        var k :| 0 <= k < |vmas| && Holds(vmas[k], Base(va)) && Walk(mem, pgd, va).value == EntryOf(vmas[k], Base(va));
        assert AlignedIfUsed(mem, pgd, vmas[k]);
      }
    }
  }

  lemma {:induction false} HolderSays(mem: Memory, pgd: nat, vmas: seq<Vma>, va: nat, k: nat)
    requires Areas(vmas) && Sound(mem, pgd, vmas) && k < |vmas| && vmas[k].phys + vmas[k].size <= SPACE_END
    requires va < SPACE_END && Walk(mem, pgd, va).Some? && Holds(vmas[k], Base(va))
    ensures Exact(vmas[k], Base(va), Walk(mem, pgd, va).value) <==> vmas[k].phys % PAGE == 0
  {
    hide Walk, Exact, EntryOf;
    var j :| 0 <= j < |vmas| && Holds(vmas[j], Base(va)) && Walk(mem, pgd, va).value == EntryOf(vmas[j], Base(va));
    AreaIsUnique(vmas, j, k, Base(va));
    EntryIsExact(vmas[k], Base(va));
  }

  /** After any sequence of faults below the ends of the areas they find, over areas of page-aligned memory,
      every translated page is mapped to its area's memory at the same offset, with its protection. */
  lemma {:induction false} FaultsMapExactly(mems: seq<Memory>, pgd: nat, vmas: seq<Vma>, fars: seq<nat>)
    requires Areas(vmas) && |mems| == |fars| + 1 && Sound(mems[0], pgd, vmas)
    requires forall i :: 0 <= i < |fars| ==> fars[i] < SPACE_END && Faults(mems[i], mems[i + 1], pgd, vmas, fars[i])
    requires forall i :: 0 <= i < |fars| ==> Find(vmas, fars[i]) < |vmas| && fars[i] < vmas[Find(vmas, fars[i])].End()
    requires forall k :: 0 <= k < |vmas| ==> vmas[k].phys % PAGE == 0 && vmas[k].phys + vmas[k].size <= SPACE_END
    ensures Precise(mems[|fars|], pgd, vmas)
  {
    FaultsKeepSound(mems, pgd, vmas, fars);
    hide Walk, Sound, Faults, Areas, Find, Precise;
    SoundIsPrecise(mems[|fars|], pgd, vmas);
  }

  // ---------------------------------------------------------------- faults and mappings, in turn

  /** A fault, or a new area. */
  datatype Step = FaultAt(far: nat) | NewArea(v: Vma)

  /** The tables and areas `at` become `to` by the step; a fault is below the end of the area it finds. */
  ghost predicate Leads(at: (Memory, seq<Vma>), to: (Memory, seq<Vma>), pgd: nat, step: Step) {
    match step
    case FaultAt(far) =>
      to.1 == at.1 && far < SPACE_END && Faults(at.0, to.0, pgd, at.1, far) && far < at.1[Find(at.1, far)].End()
    case NewArea(v) => to.0 == at.0 && to.1 == at.1 + [v]
  }

  ghost predicate IsRun(states: seq<(Memory, seq<Vma>)>, pgd: nat, steps: seq<Step>) {
    && |states| == |steps| + 1
    && (forall i :: 0 <= i < |steps| ==> Leads(states[i], states[i + 1], pgd, steps[i]))
    && (forall i :: 0 <= i < |states| ==> Areas(states[i].1))
  }

  /** In any run of faults and new areas every translation is the entry computed for the area that holds the page. */
  lemma {:induction false} RunKeepsSound(states: seq<(Memory, seq<Vma>)>, pgd: nat, steps: seq<Step>)
    requires IsRun(states, pgd, steps) && Sound(states[0].0, pgd, states[0].1)
    ensures Sound(states[|steps|].0, pgd, states[|steps|].1)
    decreases |steps|
  {
    hide Sound, Areas, Faults, Find;
    if steps != [] {
      assert Leads(states[0], states[1], pgd, steps[0]) && Areas(states[0].1);
      StepKeepsSound(states[0], states[1], pgd, steps[0]);
      hide Leads;
      RunKeepsSound(states[1..], pgd, steps[1..]);
    }
  }

  lemma {:induction false} StepKeepsSound(at: (Memory, seq<Vma>), to: (Memory, seq<Vma>), pgd: nat, step: Step)
    requires Leads(at, to, pgd, step) && Areas(at.1) && Sound(at.0, pgd, at.1)
    ensures Sound(to.0, pgd, to.1)
  {
    hide Sound, Areas, Remaps, EntryOf;
    match step {
      case FaultAt(far) => FaultKeepsSound(at.0, to.0, pgd, at.1, far);
      case NewArea(v) => NewAreaKeepsSound(at.0, pgd, at.1, v);
    }
  }

  /** If the areas at the end of the run lie over page-aligned memory, every translated page is mapped to its area's
      memory at the same offset, with its protection. */
  lemma {:induction false} RunMapsExactly(states: seq<(Memory, seq<Vma>)>, pgd: nat, steps: seq<Step>)
    requires IsRun(states, pgd, steps) && Sound(states[0].0, pgd, states[0].1)
    requires var vmas := states[|steps|].1;
      forall k :: 0 <= k < |vmas| ==> vmas[k].phys % PAGE == 0 && vmas[k].phys + vmas[k].size <= SPACE_END
    ensures Precise(states[|steps|].0, pgd, states[|steps|].1)
  {
    RunKeepsSound(states, pgd, steps);
    hide Walk, Sound, Leads, Areas, Precise;
    SoundIsPrecise(states[|steps|].0, pgd, states[|steps|].1);
  }

  // ---------------------------------------------------------------- in the areas of a thread

  lemma {:induction false} SeventhBit(a: nat)
    ensures Bit(a, 7) == a / 128 % 2
  {
    assert Pow2(7) == 128;
    hide Up, Low, Pow2;
    CutIsDivMod(a, 7);
  }

  lemma {:induction false} AllRights()
    ensures Bit(7, 1) == 1 && !AttributeBit(7, 7)
  {
  }

  lemma {:induction false} BinAddress()
    ensures AddressField(0x10_0080) == 0x10_0000
  {
  }

  /** The text of a program of at most 512 bytes lies in a bin.  Its page is then mapped to the start of the slab
      page, not to the bin; and from this bin it is mapped read-only, against its protection. */
  lemma {:induction false} TextInABin(ustack: nat, wrapper: nat)
    ensures var v := ThreadAreas(PAGE, 0x10_0080, ustack, wrapper)[0];
      && AddressField(EntryOf(v, 0)) == 0x10_0000 != v.phys
      && Bit(EntryOf(v, 0), 7) == 1 && Bit(v.prot, 1) == 1 && !AttributeBit(v.prot, 7)
  {
    hide Leaf, ProtFlags, Bit, AddressField, AttributeBit;
    AllRights();
    BinAddress();
    SeventhBit(0x10_0080);
    ProtFlagsOutsideAddress(7);
    LeafAddress(0x10_0080, ProtFlags(7));
    LeafBits(0x10_0080, ProtFlags(7), 7);
  }

  /** A thread whose text fills one page, with a mapping right behind it. */
  function Touching(data: nat, ustack: nat, wrapper: nat, phys: nat): seq<Vma> {
    ThreadAreas(PAGE, data, ustack, wrapper) + [Vma(PAGE, PAGE, phys, 7, true)]
  }

  lemma {:induction false} TouchingAreas(data: nat, ustack: nat, wrapper: nat, phys: nat)
    ensures var vmas := Touching(data, ustack, wrapper, phys);
      Areas(vmas) && Find(vmas, PAGE) == 0 && Base(PAGE) == PAGE && FaultPage(vmas[0], PAGE) == PAGE
    ensures var vmas := Touching(data, ustack, wrapper, phys);
      forall k :: 0 <= k < |vmas| ==> (Holds(vmas[k], PAGE) <==> k == 4)
  {
  }

  lemma {:induction false} OnlyHolder(vmas: seq<Vma>, k: nat, page: nat, e: nat)
    requires k < |vmas| && Holds(vmas[k], page) && forall j :: 0 <= j < |vmas| ==> (Holds(vmas[j], page) <==> j == k)
    ensures Backed(vmas, page, e) <==> e == EntryOf(vmas[k], page)
  {
    hide EntryOf;
  }

  /** A fault on the first page of the mapping is answered from the text, whose area ends there; the translation is
      then right if and only if the mapping's memory happens to follow the text's. */
  lemma {:induction false} FaultAtSharedEnd(mem: Memory, m: Memory, pgd: nat, data: nat, ustack: nat, wrapper: nat, phys: nat)
    requires PageAddress(data + PAGE) && PageAddress(phys)
    requires Sound(mem, pgd, Touching(data, ustack, wrapper, phys)) && Faults(mem, m, pgd, Touching(data, ustack, wrapper, phys), PAGE)
    ensures Sound(m, pgd, Touching(data, ustack, wrapper, phys)) <==> phys == data + PAGE
  {
    var vmas := Touching(data, ustack, wrapper, phys);
    TouchingAreas(data, ustack, wrapper, phys);
    assert vmas[0] == Vma(0, PAGE, data, 7, true) && vmas[4] == Vma(PAGE, PAGE, phys, 7, true);
    var e := Leaf(data + PAGE, ProtFlags(7));
    assert EntryOf(vmas[0], PAGE) == e && EntryOf(vmas[4], PAGE) == Leaf(phys, ProtFlags(7));
    OnlyHolder(vmas, 4, PAGE, e);
    ProtFlagsOutsideAddress(7);
    hide Sound, Faults, Find, Areas, Walk, Leaf, ProtFlags, AddressField, Touching, Holds, Backed, EntryOf, ThreadAreas;
    LeafAddress(data + PAGE, ProtFlags(7));
    LeafAddress(phys, ProtFlags(7));
    FaultKeepsSound(mem, m, pgd, vmas, PAGE);
  }
}
