/** Four-level page tables.  `mem(t, i)` is entry `i` of the table page at physical address `t`.
    A table page is known by its physical address; the kernel's fixed offset between physical and
    virtual addresses cancels out of every access.  Words are natural numbers. */
module PageTable {
  import opened Options
  import opened Bits

  type Memory = (nat, nat) -> nat

  const PD_UNX: nat := 0x40_0000_0000_0000
  const PD_KNX: nat := 0x20_0000_0000_0000
  const PD_ACCESS: nat := 0x400
  const PD_RDONLY: nat := 0x80
  const PD_UK_ACCESS: nat := 0x40
  const PD_TABLE: nat := 3
  const NORMAL_NOCACHE: nat := 4  // MAIR index 1, shifted by 2

  /** `(va >> (39 - level * 9)) & 0x1ff`. */
  function Index(va: nat, level: nat): nat
    requires level <= 3
  {
    if level == 0 then va / 0x80_0000_0000 % 512
    else if level == 1 then va / 0x4000_0000 % 512
    else if level == 2 then va / 0x20_0000 % 512
    else va / 0x1000 % 512
  }

  /** The number of the 4 KiB page of `va` in a 48-bit address space. */
  function PageNo(va: nat): nat {
    va / 0x1000 % 0x10_0000_0000
  }

  predicate Present(e: nat) {
    e % 2 == 1
  }

  /** `e & ENTRY_ADDR_MASK`: bits 12 to 47. */
  function AddressField(e: nat): nat {
    e / 0x1000 % 0x10_0000_0000 * 0x1000
  }

  predicate PageAddress(a: nat) {
    AddressField(a) == a
  }

  function TableEntry(t: nat): nat {
    Or(t, Or(PD_ACCESS, Or(PD_TABLE, NORMAL_NOCACHE)))
  }

  function LeafAttributes(flags: nat): nat {
    Or(PD_ACCESS, Or(PD_TABLE, Or(NORMAL_NOCACHE, Or(PD_KNX, flags))))
  }

  /** The entry that `mapping` writes for a page. */
  function Leaf(pa: nat, flags: nat): nat {
    Or(pa, LeafAttributes(flags))
  }

  /** Protection bits: 4 execute, 2 write, 1 read. */
  function ProtFlags(prot: nat): nat {
    Or(if Bit(prot, 2) == 0 then PD_UNX else 0, Or(if Bit(prot, 1) == 0 then PD_RDONLY else 0, if Bit(prot, 0) == 1 then PD_UK_ACCESS else 0))
  }

  // ---------------------------------------------------------------- what an entry says

  lemma {:induction false} OrFields(a: nat, b: nat)
    ensures Or(a, b) / 0x1000 == Or(a / 0x1000, b / 0x1000)
    ensures Or(a, b) / 0x1000 % 0x10_0000_0000 == Or(a / 0x1000 % 0x10_0000_0000, b / 0x1000 % 0x10_0000_0000)
    ensures Or(a, b) % 2 == 1 <==> a % 2 == 1 || b % 2 == 1
  {
    hide *;
    OrUp(a, b, 12);
    UpTwelve(a);
    UpTwelve(b);
    UpTwelve(Or(a, b));
    OrLow(a / 0x1000, b / 0x1000, 36);
    LowThirtySix(a / 0x1000);
    LowThirtySix(b / 0x1000);
    LowThirtySix(Or(a, b) / 0x1000);
    OrHalf(a, b);
  }

  lemma {:induction false} OrZero(a: nat)
    ensures Or(a, 0) == a && Or(0, a) == a
  {
  }

  /** A link leads to the table it was made for. */
  lemma {:induction false} TableEntryLinks(t: nat)
    requires PageAddress(t)
    ensures Present(TableEntry(t)) && AddressField(TableEntry(t)) == t
  {
    var f := Or(PD_ACCESS, Or(PD_TABLE, NORMAL_NOCACHE));
    OrFields(PD_TABLE, NORMAL_NOCACHE);
    OrFields(PD_ACCESS, Or(PD_TABLE, NORMAL_NOCACHE));
    OrFields(t, f);
    OrZero(t / 0x1000 % 0x10_0000_0000);
  }

  lemma {:induction false} AttributesOutsideAddress(flags: nat)
    requires AddressField(flags) == 0
    ensures LeafAttributes(flags) % 2 == 1 && LeafAttributes(flags) / 0x1000 % 0x10_0000_0000 == 0
  {
    hide Or;
    OrFields(PD_KNX, flags);
    OrFields(NORMAL_NOCACHE, Or(PD_KNX, flags));
    OrFields(PD_TABLE, Or(NORMAL_NOCACHE, Or(PD_KNX, flags)));
    OrFields(PD_ACCESS, Or(PD_TABLE, Or(NORMAL_NOCACHE, Or(PD_KNX, flags))));
    OrZero(0);
  }

  /** The entry for a page is present and its address field is that of the physical address. */
  lemma {:induction false} LeafAddress(pa: nat, flags: nat)
    requires AddressField(flags) == 0
    ensures Present(Leaf(pa, flags)) && AddressField(Leaf(pa, flags)) == AddressField(pa)
  {
    AttributesOutsideAddress(flags);
    OrFields(pa, LeafAttributes(flags));
    OrZero(pa / 0x1000 % 0x10_0000_0000);
  }

  lemma {:induction false} FlagPowers()
    ensures PD_UNX == Pow2(54) && PD_KNX == Pow2(53) && PD_ACCESS == Pow2(10) && PD_RDONLY == Pow2(7) && PD_UK_ACCESS == Pow2(6)
    ensures NORMAL_NOCACHE == Pow2(2) && PD_TABLE == Or(Pow2(1), Pow2(0)) && Pow2(48) == 0x1_0000_0000_0000
  {
    Powers();
    Pow2Sum(12, 36);
    Pow2Sum(48, 6);
    Pow2Sum(48, 5);
    assert Pow2(5) == 32 && Pow2(6) == 64 && Pow2(7) == 128 && Pow2(10) == 1024;
    assert Pow2(0) == 1 && Pow2(1) == 2 && Pow2(2) == 4 && Or(2, 1) == 3;
  }

  /** What `mapping_set_prot` makes of the protection: no execution by the user without the execute bit, no writing
      without the write bit, access by the user with the read bit. */
  lemma {:induction false} ProtFlagBits(prot: nat, j: nat)
    ensures Bit(ProtFlags(prot), j) == 1 <==>
      (j == 54 && Bit(prot, 2) == 0) || (j == 7 && Bit(prot, 1) == 0) || (j == 6 && Bit(prot, 0) == 1)
  {
    var x := if Bit(prot, 2) == 0 then PD_UNX else 0;
    var w := if Bit(prot, 1) == 0 then PD_RDONLY else 0;
    var r := if Bit(prot, 0) == 1 then PD_UK_ACCESS else 0;
    assert ProtFlags(prot) == Or(x, Or(w, r));
    FlagPowers();
    UpOfZero(j);
    assert Bit(0, j) == 0;
    hide Or, Bit, Up, Pow2, ProtFlags;
    BitOfPower(54, j);
    BitOfPower(7, j);
    BitOfPower(6, j);
    OrBit(w, r, j);
    OrBit(x, Or(w, r), j);
  }

  lemma {:induction false} TableTypeBits(j: nat)
    ensures Bit(PD_TABLE, j) == 1 <==> j <= 1
  {
    FlagPowers();
    hide Or, Bit, Up, Pow2;
    BitOfPower(1, j);
    BitOfPower(0, j);
    OrBit(Pow2(1), Pow2(0), j);
  }

  /** The bits of an entry for a page: those of the address and the flags; valid, page, memory type 1, accessed,
      and no execution by the kernel. */
  lemma {:induction false} LeafBits(pa: nat, flags: nat, j: nat)
    ensures Bit(Leaf(pa, flags), j) == 1 <==>
      Bit(pa, j) == 1 || j == 0 || j == 1 || j == 2 || j == 10 || j == 53 || Bit(flags, j) == 1
  {
    FlagPowers();
    hide Or, Bit, Up, Pow2;
    TableTypeBits(j);
    BitOfPower(2, j);
    BitOfPower(10, j);
    BitOfPower(53, j);
    OrBit(PD_KNX, flags, j);
    OrBit(NORMAL_NOCACHE, Or(PD_KNX, flags), j);
    OrBit(PD_TABLE, Or(NORMAL_NOCACHE, Or(PD_KNX, flags)), j);
    OrBit(PD_ACCESS, Or(PD_TABLE, Or(NORMAL_NOCACHE, Or(PD_KNX, flags))), j);
    OrBit(pa, LeafAttributes(flags), j);
  }

  /** The bits of a link: those of the table's address; valid, table, memory type 1, accessed. */
  lemma {:induction false} TableEntryBits(t: nat, j: nat)
    ensures Bit(TableEntry(t), j) == 1 <==> Bit(t, j) == 1 || j == 0 || j == 1 || j == 2 || j == 10
  {
    FlagPowers();
    hide Or, Bit, Up, Pow2;
    TableTypeBits(j);
    BitOfPower(2, j);
    BitOfPower(10, j);
    OrBit(PD_TABLE, NORMAL_NOCACHE, j);
    OrBit(PD_ACCESS, Or(PD_TABLE, NORMAL_NOCACHE), j);
    OrBit(t, Or(PD_ACCESS, Or(PD_TABLE, NORMAL_NOCACHE)), j);
  }

  lemma {:induction false} PageBits(pa: nat, j: nat)
    requires PageAddress(pa) && !(12 <= j < 48)
    ensures Bit(pa, j) == 0
  {
    FlagPowers();
    assert pa < 0x1_0000_0000_0000 && pa % 0x1000 == 0;
    Cuts(pa);
    hide Or, Up, Pow2, Low;
    if j < 12 {
      NoLowBits(pa, 12, j);
    } else {
      NoHighBits(pa, 48, j);
    }
  }

  /** Bit `j` belongs to the attributes of a user page of this protection. */
  predicate AttributeBit(prot: nat, j: nat) {
    || j == 0 || j == 1 || j == 2 || j == 10 || j == 53
    || (j == 54 && Bit(prot, 2) == 0) || (j == 7 && Bit(prot, 1) == 0) || (j == 6 && Bit(prot, 0) == 1)
  }

  /** Outside the address field the entry has the attribute bits of its protection, and no others. */
  ghost predicate HasAttributes(prot: nat, e: nat) {
    forall j: nat :: !(12 <= j < 48) ==> (Bit(e, j) == 1 <==> AttributeBit(prot, j))
  }

  /** The entry that `mapping_set_prot` writes for an aligned page. */
  lemma {:induction false} ProtectedPage(pa: nat, prot: nat)
    requires PageAddress(pa)
    ensures AddressField(Leaf(pa, ProtFlags(prot))) == pa && HasAttributes(prot, Leaf(pa, ProtFlags(prot)))
  {
    ProtFlagsOutsideAddress(prot);
    hide Or, Bit, Up, Pow2, ProtFlags, Leaf, AddressField;
    LeafAddress(pa, ProtFlags(prot));
    forall j: nat | !(12 <= j < 48)
      ensures Bit(Leaf(pa, ProtFlags(prot)), j) == 1 <==> AttributeBit(prot, j)
    {
      LeafBits(pa, ProtFlags(prot), j);
      ProtFlagBits(prot, j);
      PageBits(pa, j);
    }
  }

  /** The entry for an aligned page is its address and the attributes, side by side. */
  lemma {:induction false} LeafOfPage(pa: nat, flags: nat)
    requires PageAddress(pa) && AddressField(flags) == 0
    ensures Leaf(pa, flags) == pa + LeafAttributes(flags)
  {
    var attributes := LeafAttributes(flags);
    AttributesOutsideAddress(flags);
    hide LeafAttributes;
    SideBySide(pa, attributes);
  }

  lemma {:induction false} SideBySide(pa: nat, b: nat)
    requires PageAddress(pa) && b / 0x1000 % 0x10_0000_0000 == 0
    ensures Or(pa, b) == pa + b
  {
    hide Or, Up, Low, Pow2;
    OrLow(pa, b, 12);
    OrUp(pa, b, 12);
    OrLow(pa / 0x1000, b / 0x1000, 36);
    OrUp(pa / 0x1000, b / 0x1000, 36);
    Cuts(pa);
    Cuts(b);
    Cuts(Or(pa, b));
    OrZero(Low(b, 12));
    OrZero(pa / 0x1000);
    OrZero(Up(b / 0x1000, 36));
  }

  /** A word is its low 12 bits, the address bits, and the bits above those. */
  lemma {:induction false} Cuts(a: nat)
    ensures Up(a, 12) == a / 0x1000 && Low(a, 12) == a % 0x1000
    ensures Low(a / 0x1000, 36) == a / 0x1000 % 0x10_0000_0000 && Up(a / 0x1000, 36) == a / 0x1000 / 0x10_0000_0000
    ensures a == a % 0x1000 + (a / 0x1000 % 0x10_0000_0000 + a / 0x1000 / 0x10_0000_0000 * 0x10_0000_0000) * 0x1000
  {
    hide *;
    CutIsDivMod(a, 12);
    CutIsDivMod(a / 0x1000, 36);
    Powers();
  }

  /** A bit of the entry is the intended attribute exactly when the physical address does not set it
      where the attributes do not. */
  lemma {:induction false} LeafBit(pa: nat, flags: nat, j: nat)
    ensures Bit(Leaf(pa, flags), j) == Bit(LeafAttributes(flags), j) <==> Bit(pa, j) == 0 || Bit(LeafAttributes(flags), j) == 1
  {
    hide Or, Up;
    OrBit(pa, LeafAttributes(flags), j);
  }

  lemma {:induction false} ProtFlagsOutsideAddress(prot: nat)
    ensures AddressField(ProtFlags(prot)) == 0
  {
    var x := if Bit(prot, 2) == 0 then PD_UNX else 0;
    var w := if Bit(prot, 1) == 0 then PD_RDONLY else 0;
    var r := if Bit(prot, 0) == 1 then PD_UK_ACCESS else 0;
    hide Or, Bit, Up;
    assert x / 0x1000 % 0x10_0000_0000 == 0 && w / 0x1000 % 0x10_0000_0000 == 0 && r / 0x1000 % 0x10_0000_0000 == 0;
    OrFields(w, r);
    OrFields(x, Or(w, r));
    OrZero(0);
  }

  // ---------------------------------------------------------------- translation

  /** The table of level `l` that translating `va` comes to. */
  function Descend(mem: Memory, pgd: nat, va: nat, l: nat): Option<nat>
    requires l <= 3
  {
    if l == 0 then Some(pgd)
    else match Descend(mem, pgd, va, l - 1)
      case None => None
      case Some(t) =>
        if Present(mem(t, Index(va, l - 1))) then Some(AddressField(mem(t, Index(va, l - 1)))) else None
  }

  /** The last-level entry that translates `va`, if there is one. */
  function Walk(mem: Memory, pgd: nat, va: nat): Option<nat> {
    match Descend(mem, pgd, va, 3)
    case None => None
    case Some(t) => if Present(mem(t, Index(va, 3))) then Some(mem(t, Index(va, 3))) else None
  }

  /** The indices used above level `l`, as one number. */
  function Path(va: nat, l: nat): nat
    requires l <= 4
  {
    if l == 0 then 0 else Path(va, l - 1) * 512 + Index(va, l - 1)
  }

  lemma {:induction false} Digits(p: nat)
    ensures ((p / 512 / 512 / 512 % 512 * 512 + p / 512 / 512 % 512) * 512 + p / 512 % 512) * 512 + p % 512 == p % 0x10_0000_0000
  {
    var q := p / 512;
    var r := q / 512;
    var s := r / 512;
    var low := ((s % 512 * 512 + r % 512) * 512 + q % 512) * 512 + p % 512;
    assert p == s / 512 * 0x10_0000_0000 + low && low < 0x10_0000_0000;
    DivUnique(p, 0x10_0000_0000, s / 512, low);
  }

  lemma {:induction false} IndexDigits(va: nat)
    ensures Index(va, 0) == va / 0x1000 / 512 / 512 / 512 % 512 && Index(va, 1) == va / 0x1000 / 512 / 512 % 512
    ensures Index(va, 2) == va / 0x1000 / 512 % 512 && Index(va, 3) == va / 0x1000 % 512
  {
  }

  /** Four indices are exactly the page number. */
  lemma {:induction false} PathIsPageNo(va: nat)
    ensures Path(va, 4) == PageNo(va)
  {
    IndexDigits(va);
    Digits(va / 0x1000);
    hide Index;
    assert Path(va, 1) == Index(va, 0);
    assert Path(va, 2) == Index(va, 0) * 512 + Index(va, 1);
    assert Path(va, 3) == (Index(va, 0) * 512 + Index(va, 1)) * 512 + Index(va, 2);
  }

  lemma {:induction false} PathSplits(va: nat, vb: nat, l: nat)
    requires l <= 3
    ensures Path(va, l + 1) == Path(vb, l + 1) <==> Path(va, l) == Path(vb, l) && Index(va, l) == Index(vb, l)
  {
  }

  // ---------------------------------------------------------------- the tree of tables

  /** Table `t` has the entry that leads to table `u`. */
  ghost predicate Parent(mem: Memory, place: map<nat, (nat, nat)>, t: nat, u: nat)
    requires u in place
  {
    && t in place && place[t].0 + 1 == place[u].0 && place[t].1 == place[u].1 / 512
    && Present(mem(t, place[u].1 % 512)) && AddressField(mem(t, place[u].1 % 512)) == u
  }

  /** The tables in use, each with its level and the path that leads to it; `pgd` is the root.  No two
      tables share a place, and a present entry leads to the table of the longer path. */
  ghost predicate Placed(mem: Memory, pgd: nat, place: map<nat, (nat, nat)>) {
    && pgd in place && place[pgd] == (0, 0)
    && (forall t :: t in place ==> place[t].0 <= 3 && PageAddress(t))
    && (forall t, u :: t in place && u in place && place[t] == place[u] ==> t == u)
    && (forall t, i: nat :: t in place && place[t].0 < 3 && i < 512 && Present(mem(t, i)) ==>
          AddressField(mem(t, i)) in place && place[AddressField(mem(t, i))] == (place[t].0 + 1, place[t].1 * 512 + i))
  }

  /** Every table but the root is led to. */
  ghost predicate Linked(mem: Memory, place: map<nat, (nat, nat)>) {
    forall u :: u in place && place[u].0 > 0 ==> exists t :: Parent(mem, place, t, u)
  }

  ghost predicate Tree(mem: Memory, pgd: nat, place: map<nat, (nat, nat)>) {
    Placed(mem, pgd, place) && Linked(mem, place)
  }

  lemma {:induction false} DescendsInTree(mem: Memory, pgd: nat, place: map<nat, (nat, nat)>, va: nat, l: nat)
    requires Placed(mem, pgd, place) && l <= 3
    ensures Descend(mem, pgd, va, l).Some? ==>
      Descend(mem, pgd, va, l).value in place && place[Descend(mem, pgd, va, l).value] == (l, Path(va, l))
  {
    hide AddressField, PageAddress, Index, Present;
    if l > 0 {
      DescendsInTree(mem, pgd, place, va, l - 1);
      IndexBound(va, l - 1);
    }
  }

  lemma {:induction false} IndexBound(va: nat, l: nat)
    requires l <= 3
    ensures Index(va, l) < 512
  {
  }

  function Write(mem: Memory, t: nat, i: nat, e: nat): Memory {
    (t': nat, i': nat) => if t' == t && i' == i then e else mem(t', i')
  }

  function Cleared(mem: Memory, t: nat): Memory {
    (t': nat, i': nat) => if t' == t then 0 else mem(t', i')
  }

  /** The new page `n` is zeroed and linked as entry `i` of table `t`. */
  function Link(mem: Memory, t: nat, i: nat, n: nat): Memory {
    Write(Cleared(mem, n), t, i, TableEntry(n))
  }

  ghost predicate Vacant(place: map<nat, (nat, nat)>, at: (nat, nat)) {
    forall u :: u in place ==> place[u] != at
  }

  lemma {:induction false} LinkKeepsPlaces(mem: Memory, pgd: nat, place: map<nat, (nat, nat)>, t: nat, i: nat, n: nat, at: (nat, nat))
    requires Placed(mem, pgd, place) && t in place && place[t].0 < 3 && i < 512 && !Present(mem(t, i))
    requires n !in place && PageAddress(n)
    requires Vacant(place, at) && at == (place[t].0 + 1, place[t].1 * 512 + i)
    ensures Placed(Link(mem, t, i, n), pgd, place[n := at])
  {
    hide TableEntry, AddressField, Present, Link;
    var m := Link(mem, t, i, n);
    var p := place[n := at];
    forall u, j: nat | u in p && p[u].0 < 3 && j < 512 && Present(m(u, j))
      ensures AddressField(m(u, j)) in p && p[AddressField(m(u, j))] == (p[u].0 + 1, p[u].1 * 512 + j)
    {
      LinkKeepsPlace(mem, pgd, place, t, i, n, at, u, j);
    }
  }

  lemma {:induction false} LinkKeepsPlace(mem: Memory, pgd: nat, place: map<nat, (nat, nat)>, t: nat, i: nat, n: nat, at: (nat, nat), u: nat, j: nat)
    requires Placed(mem, pgd, place) && t in place && place[t].0 < 3 && i < 512 && !Present(mem(t, i))
    requires n !in place && PageAddress(n) && at == (place[t].0 + 1, place[t].1 * 512 + i)
    requires u in place[n := at] && place[n := at][u].0 < 3 && j < 512 && Present(Link(mem, t, i, n)(u, j))
    ensures var p, e := place[n := at], Link(mem, t, i, n)(u, j);
      AddressField(e) in p && p[AddressField(e)] == (p[u].0 + 1, p[u].1 * 512 + j)
  {
    TableEntryLinks(n);
    assert !Present(0);
    LinkEntry(mem, t, i, n, u, j);
    hide TableEntry, AddressField, PageAddress, Present, Link;
  }

  /** What an entry is after the link: the link, nothing in the new table, or what it was. */
  lemma {:induction false} LinkEntry(mem: Memory, t: nat, i: nat, n: nat, u: nat, j: nat)
    requires n != t
    ensures Link(mem, t, i, n)(u, j) == if u == t && j == i then TableEntry(n) else if u == n then 0 else mem(u, j)
  {
  }

  lemma {:induction false} LinkKeepsLinked(mem: Memory, place: map<nat, (nat, nat)>, t: nat, i: nat, n: nat, at: (nat, nat))
    requires Linked(mem, place) && t in place && i < 512 && !Present(mem(t, i))
    requires n !in place && PageAddress(n) && at == (place[t].0 + 1, place[t].1 * 512 + i)
    ensures Linked(Link(mem, t, i, n), place[n := at])
  {
    TableEntryLinks(n);
    hide TableEntry, AddressField, PageAddress;
    var m := Link(mem, t, i, n);
    var p := place[n := at];
    DivUnique(p[n].1, 512, place[t].1, i);
    assert Parent(m, p, t, n);
    forall u | u in place && place[u].0 > 0
      ensures exists q :: Parent(m, p, q, u)
    {
      var q :| Parent(mem, place, q, u);
      assert Parent(m, p, q, u);
    }
  }

  lemma {:induction false} LinkKeepsTree(mem: Memory, pgd: nat, place: map<nat, (nat, nat)>, t: nat, i: nat, n: nat, at: (nat, nat))
    requires Tree(mem, pgd, place) && t in place && place[t].0 < 3 && i < 512 && !Present(mem(t, i))
    requires n !in place && PageAddress(n)
    requires Vacant(place, at) && at == (place[t].0 + 1, place[t].1 * 512 + i)
    ensures Tree(Link(mem, t, i, n), pgd, place[n := at])
  {
    hide Placed, Linked, Link, Vacant;
    LinkKeepsPlaces(mem, pgd, place, t, i, n, at);
    LinkKeepsLinked(mem, place, t, i, n, at);
  }

  /** Linking an empty table changes no descent but those that now come to the empty table. */
  lemma {:induction false} LinkKeepsDescents(mem: Memory, pgd: nat, place: map<nat, (nat, nat)>, t: nat, i: nat, n: nat, vb: nat, k: nat)
    requires Placed(mem, pgd, place) && t in place && place[t].0 < 3 && i < 512 && !Present(mem(t, i))
    requires n !in place && PageAddress(n) && k <= 3
    ensures Descend(Link(mem, t, i, n), pgd, vb, k) == Descend(mem, pgd, vb, k) ||
      (Descend(mem, pgd, vb, k) == None && Descend(Link(mem, t, i, n), pgd, vb, k) == Some(n))
  {
    TableEntryLinks(n);
    hide TableEntry, AddressField, PageAddress, Index;
    if k > 0 {
      LinkKeepsDescents(mem, pgd, place, t, i, n, vb, k - 1);
      DescendsInTree(mem, pgd, place, vb, k - 1);
      assert !Present(0);
    }
  }

  lemma {:induction false} LinkKeepsWalks(mem: Memory, pgd: nat, place: map<nat, (nat, nat)>, t: nat, i: nat, n: nat, vb: nat)
    requires Placed(mem, pgd, place) && t in place && place[t].0 < 3 && i < 512 && !Present(mem(t, i))
    requires n !in place && PageAddress(n)
    ensures Walk(Link(mem, t, i, n), pgd, vb) == Walk(mem, pgd, vb)
  {
    hide TableEntry, AddressField, PageAddress, Index;
    LinkKeepsDescents(mem, pgd, place, t, i, n, vb, 3);
    DescendsInTree(mem, pgd, place, vb, 3);
    assert !Present(0);
  }

  /** Writing one last-level entry changes no descent. */
  lemma {:induction false} LeafKeepsDescents(mem: Memory, pgd: nat, place: map<nat, (nat, nat)>, t: nat, i: nat, e: nat, vb: nat, k: nat)
    requires Placed(mem, pgd, place) && t in place && place[t].0 == 3 && k <= 3
    ensures Descend(Write(mem, t, i, e), pgd, vb, k) == Descend(mem, pgd, vb, k)
  {
    hide AddressField, PageAddress, Index;
    if k > 0 {
      LeafKeepsDescents(mem, pgd, place, t, i, e, vb, k - 1);
      DescendsInTree(mem, pgd, place, vb, k - 1);
    }
  }

  /** Writing the entry of `va` changes the translation of the page of `va` and of no other. */
  lemma {:induction false} LeafWrite(mem: Memory, pgd: nat, place: map<nat, (nat, nat)>, t: nat, va: nat, e: nat, vb: nat)
    requires Placed(mem, pgd, place) && Descend(mem, pgd, va, 3) == Some(t) && Present(e)
    ensures Walk(Write(mem, t, Index(va, 3), e), pgd, vb) == if PageNo(vb) == PageNo(va) then Some(e) else Walk(mem, pgd, vb)
  {
    hide AddressField, PageAddress, Index, PageNo;
    DescendsInTree(mem, pgd, place, va, 3);
    DescendsInTree(mem, pgd, place, vb, 3);
    LeafKeepsDescents(mem, pgd, place, t, Index(va, 3), e, vb, 3);
    PathSplits(va, vb, 3);
    PathIsPageNo(va);
    PathIsPageNo(vb);
    if PageNo(va) == PageNo(vb) {
      SamePathSameTable(mem, pgd, va, vb, 3);
    }
  }

  lemma {:induction false} SamePathSameTable(mem: Memory, pgd: nat, va: nat, vb: nat, l: nat)
    requires l <= 3 && Path(va, l) == Path(vb, l)
    ensures Descend(mem, pgd, va, l) == Descend(mem, pgd, vb, l)
  {
    hide Index;
    if l > 0 {
      PathSplits(va, vb, l - 1);
      SamePathSameTable(mem, pgd, va, vb, l - 1);
    }
  }

  // ---------------------------------------------------------------- mapping one page

  /** Pages the allocator can hand out: distinct, page-aligned, not in use as tables. */
  ghost predicate Fresh(pool: seq<nat>, place: map<nat, (nat, nat)>) {
    && (forall k :: 0 <= k < |pool| ==> PageAddress(pool[k]) && pool[k] !in place)
    && (forall j, k :: 0 <= j < k < |pool| ==> pool[j] != pool[k])
  }

  /** The rest of `mapping` from table `t` of level `l`; new tables are taken from `pool` in order.
      The result is the memory and how many tables were taken. */
  function MapFrom(mem: Memory, t: nat, va: nat, e: nat, pool: seq<nat>, l: nat): (Memory, nat)
    requires l <= 3 && |pool| + l >= 3
    decreases 3 - l
  {
    if l == 3 then (Write(mem, t, Index(va, 3), e), 0)
    else if Present(mem(t, Index(va, l))) then MapFrom(mem, AddressField(mem(t, Index(va, l))), va, e, pool, l + 1)
    else
      var (m, k) := MapFrom(Link(mem, t, Index(va, l), pool[0]), pool[0], va, e, pool[1..], l + 1);
      (m, k + 1)
  }

  /** The tables in use after `MapFrom`. */
  ghost function PlaceFrom(mem: Memory, place: map<nat, (nat, nat)>, t: nat, va: nat, pool: seq<nat>, l: nat): map<nat, (nat, nat)>
    requires l <= 3 && |pool| + l >= 3
    decreases 3 - l
  {
    if l == 3 then place
    else if Present(mem(t, Index(va, l))) then PlaceFrom(mem, place, AddressField(mem(t, Index(va, l))), va, pool, l + 1)
    else PlaceFrom(Link(mem, t, Index(va, l), pool[0]), place[pool[0] := (l + 1, Path(va, l + 1))], pool[0], va, pool[1..], l + 1)
  }

  lemma {:induction false} NoTableYet(mem: Memory, pgd: nat, place: map<nat, (nat, nat)>, t: nat, va: nat, l: nat)
    requires Tree(mem, pgd, place) && l < 3 && t in place && place[t] == (l, Path(va, l))
    requires !Present(mem(t, Index(va, l)))
    ensures Vacant(place, (l + 1, Path(va, l + 1)))
  {
    IndexBound(va, l);
    hide Index, AddressField, PageAddress;
    forall u | u in place && place[u] == (l + 1, Path(va, l + 1))
      ensures false
    {
      var q :| Parent(mem, place, q, u);
      DivUnique(place[u].1, 512, Path(va, l), Index(va, l));
    }
  }

  lemma {:induction false} LeafKeepsTree(mem: Memory, pgd: nat, place: map<nat, (nat, nat)>, t: nat, i: nat, e: nat)
    requires Tree(mem, pgd, place) && t in place && place[t].0 == 3
    ensures Tree(Write(mem, t, i, e), pgd, place)
  {
    hide AddressField, PageAddress;
    var m := Write(mem, t, i, e);
    forall u | u in place && place[u].0 > 0
      ensures exists q :: Parent(m, place, q, u)
    {
      var q :| Parent(mem, place, q, u);
      assert Parent(m, place, q, u);
    }
  }

  /** `m` translates the page of `va` by `e`, and every other page as `mem` does. */
  ghost predicate Remaps(mem: Memory, m: Memory, pgd: nat, va: nat, e: nat) {
    forall vb: nat :: Walk(m, pgd, vb) == if PageNo(vb) == PageNo(va) then Some(e) else Walk(mem, pgd, vb)
  }

  lemma {:induction false} LeafRemaps(mem: Memory, pgd: nat, place: map<nat, (nat, nat)>, t: nat, va: nat, e: nat)
    requires Placed(mem, pgd, place) && Descend(mem, pgd, va, 3) == Some(t) && Present(e)
    ensures Remaps(mem, Write(mem, t, Index(va, 3), e), pgd, va, e)
  {
    hide Index, PageNo, Walk, Placed, Write;
    forall vb: nat {
      LeafWrite(mem, pgd, place, t, va, e, vb);
    }
  }

  lemma {:induction false} LinkThenRemaps(mem: Memory, m: Memory, pgd: nat, place: map<nat, (nat, nat)>, t: nat, i: nat, n: nat, va: nat, e: nat)
    requires Placed(mem, pgd, place) && t in place && place[t].0 < 3 && i < 512 && !Present(mem(t, i))
    requires n !in place && PageAddress(n) && Remaps(Link(mem, t, i, n), m, pgd, va, e)
    ensures Remaps(mem, m, pgd, va, e)
  {
    hide Index, PageNo, Walk, Placed, Link, PageAddress;
    forall vb: nat {
      LinkKeepsWalks(mem, pgd, place, t, i, n, vb);
    }
  }

  /** `mapping` gives the page of `va` the new entry, leaves the translation of every other page
      unchanged, and keeps the tables a tree. */
  lemma {:induction false} MapFromIsRight(mem: Memory, pgd: nat, place: map<nat, (nat, nat)>, t: nat, va: nat, e: nat, pool: seq<nat>, l: nat)
    requires Tree(mem, pgd, place) && l <= 3 && |pool| + l >= 3 && Fresh(pool, place) && Present(e)
    requires Descend(mem, pgd, va, l) == Some(t)
    ensures var (m, k) := MapFrom(mem, t, va, e, pool, l);
      Tree(m, pgd, PlaceFrom(mem, place, t, va, pool, l)) && Remaps(mem, m, pgd, va, e)
    decreases 3 - l
  {
    DescendsInTree(mem, pgd, place, va, l);
    IndexBound(va, l);
    hide Index, AddressField, PageAddress, Present, Placed, Linked, Link, Remaps, Descend, Fresh, Path;
    var i := Index(va, l);
    if l == 3 {
      LeafKeepsTree(mem, pgd, place, t, i, e);
      LeafRemaps(mem, pgd, place, t, va, e);
    } else if Present(mem(t, i)) {
      StepDown(mem, pgd, va, l, t);
      MapFromIsRight(mem, pgd, place, AddressField(mem(t, i)), va, e, pool, l + 1);
    } else {
      var n := pool[0];
      var p := place[n := (l + 1, Path(va, l + 1))];
      FreshTail(pool, place, (l + 1, Path(va, l + 1)));
      NewTableFits(mem, pgd, place, t, va, n, l);
      NewTableIsReached(mem, pgd, place, t, va, n, l);
      var (m, k) := MapFrom(Link(mem, t, i, n), n, va, e, pool[1..], l + 1);
      MapFromIsRight(Link(mem, t, i, n), pgd, p, n, va, e, pool[1..], l + 1);
      LinkThenRemaps(mem, m, pgd, place, t, i, n, va, e);
    }
  }

  lemma {:induction false} StepDown(mem: Memory, pgd: nat, va: nat, l: nat, t: nat)
    requires l < 3 && Descend(mem, pgd, va, l) == Some(t) && Present(mem(t, Index(va, l)))
    ensures Descend(mem, pgd, va, l + 1) == Some(AddressField(mem(t, Index(va, l))))
  {
  }

  lemma {:induction false} NewTableFits(mem: Memory, pgd: nat, place: map<nat, (nat, nat)>, t: nat, va: nat, n: nat, l: nat)
    requires Tree(mem, pgd, place) && l < 3 && t in place && place[t] == (l, Path(va, l))
    requires !Present(mem(t, Index(va, l))) && n !in place && PageAddress(n)
    ensures Tree(Link(mem, t, Index(va, l), n), pgd, place[n := (l + 1, Path(va, l + 1))])
  {
    IndexBound(va, l);
    assert Path(va, l + 1) == Path(va, l) * 512 + Index(va, l);
    hide Index, AddressField, PageAddress, Placed, Linked, Link, Path, Present, Vacant;
    NoTableYet(mem, pgd, place, t, va, l);
    LinkKeepsTree(mem, pgd, place, t, Index(va, l), n, (l + 1, Path(va, l + 1)));
  }

  lemma {:induction false} FreshTail(pool: seq<nat>, place: map<nat, (nat, nat)>, at: (nat, nat))
    requires Fresh(pool, place) && pool != []
    ensures Fresh(pool[1..], place[pool[0] := at]) && pool[0] !in place && PageAddress(pool[0])
  {
    hide PageAddress;
  }

  /** The tables in use grow by exactly the pages taken from the pool. */
  lemma {:induction false} MapFromTakes(mem: Memory, place: map<nat, (nat, nat)>, t: nat, va: nat, e: nat, pool: seq<nat>, l: nat)
    requires l <= 3 && |pool| + l >= 3
    ensures var k := MapFrom(mem, t, va, e, pool, l).1;
      k <= |pool| && k + l <= 3 && forall x :: x in PlaceFrom(mem, place, t, va, pool, l) <==> x in place || x in pool[..k]
    decreases 3 - l
  {
    hide Index, AddressField, Link, Write;
    if l < 3 {
      var i := Index(va, l);
      if Present(mem(t, i)) {
        MapFromTakes(mem, place, AddressField(mem(t, i)), va, e, pool, l + 1);
      } else {
        var n := pool[0];
        MapFromTakes(Link(mem, t, i, n), place[n := (l + 1, Path(va, l + 1))], n, va, e, pool[1..], l + 1);
        var k := MapFrom(Link(mem, t, i, n), n, va, e, pool[1..], l + 1).1;
        assert pool[..k + 1] == [n] + pool[1..][..k];
      }
    }
  }

  lemma {:induction false} NewTableIsReached(mem: Memory, pgd: nat, place: map<nat, (nat, nat)>, t: nat, va: nat, n: nat, l: nat)
    requires Tree(mem, pgd, place) && l < 3 && Descend(mem, pgd, va, l) == Some(t) && !Present(mem(t, Index(va, l)))
    requires n !in place && PageAddress(n)
    ensures Descend(Link(mem, t, Index(va, l), n), pgd, va, l + 1) == Some(n)
  {
    DescendsInTree(mem, pgd, place, va, l);
    IndexBound(va, l);
    LinkKeepsDescents(mem, pgd, place, t, Index(va, l), n, va, l);
    TableEntryLinks(n);
  }
}
