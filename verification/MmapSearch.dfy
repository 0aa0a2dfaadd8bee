/** The search of `sys_mmap` for a place, with its wrap back to address 0. */
module MmapSearch {
  import opened Options
  import opened DemandPaging
  import opened MemoryMap

  const LIMIT: nat := 0xffff_ffff_f000

  /** Area `v` is in the way of `size` bytes at `a`. */
  predicate InTheWay(v: Vma, a: nat, size: nat) {
    !(v.virt >= (a + size) % WORD || v.End() <= a)
  }

  /** The first area in the way; the number of areas when there is none. */
  function Clash(vmas: seq<Vma>, a: nat, size: nat): (k: nat)
    ensures k <= |vmas|
    ensures k < |vmas| ==> InTheWay(vmas[k], a, size)
    ensures forall j :: 0 <= j < k ==> !InTheWay(vmas[j], a, size)
  {
    if vmas == [] || InTheWay(vmas[0], a, size) then 0 else 1 + Clash(vmas[1..], a, size)
  }

  /** Where one call looks: hints too high are taken back to 0, before rounding. */
  function Look(addr: nat, len: nat): nat {
    RoundUp(if (len + addr) % WORD >= LIMIT then 0 else addr)
  }

  /** The call with at most `fuel` further calls: the address given, or none if that is not enough. */
  function Search(vmas: seq<Vma>, addr: nat, len: nat, fuel: nat): Option<nat>
    decreases fuel
  {
    var a := Look(addr, len);
    var k := Clash(vmas, a, RoundUp(len));
    if k == |vmas| then Some(a)
    else if fuel == 0 then None
    else Search(vmas, vmas[k].End(), RoundUp(len), fuel - 1)
  }

  /** One call, when the first look clashes and when it does not. */
  lemma {:induction false} SearchStep(vmas: seq<Vma>, addr: nat, len: nat, fuel: nat)
    ensures var k := Clash(vmas, Look(addr, len), RoundUp(len));
      && (k == |vmas| ==> Search(vmas, addr, len, fuel) == Some(Look(addr, len)))
      && (k < |vmas| ==> Search(vmas, addr, len, fuel + 1) == Search(vmas, vmas[k].End(), RoundUp(len), fuel))
      && (k < |vmas| ==> Search(vmas, addr, len, 0) == None)
  {
    hide Look, RoundUp, Clash;
  }

  /** `size` bytes at `s` meet no area. */
  predicate Fits(vmas: seq<Vma>, s: nat, size: nat) {
    forall k :: 0 <= k < |vmas| ==> !InTheWay(vmas[k], s, size)
  }

  /** A place the search can settle on after its first look. */
  predicate Place(vmas: seq<Vma>, s: nat, size: nat) {
    Fits(vmas, s, size) && (s == 0 || s + size < LIMIT)
  }

  predicate Least(vmas: seq<Vma>, lo: nat, size: nat, g: nat) {
    lo <= g && Place(vmas, g, size) && forall s :: lo <= s < g ==> !Place(vmas, s, size)
  }

  /** Hint and length do not wrap their 64-bit sum, rounded or not. */
  predicate Modest(addr: nat, len: nat) {
    addr + len + 2 * PAGE < WORD
  }

  /** Whole pages that do not wrap a 64-bit sum with any address of the 48-bit space. */
  predicate NoWrap(size: nat) {
    size % PAGE == 0 && SPACE_END + size + 2 * PAGE < WORD
  }

  /** Later calls look at page-aligned addresses with the length already rounded. */
  lemma {:induction false} LaterLook(addr: nat, size: nat)
    requires addr % PAGE == 0 && addr <= SPACE_END && NoWrap(size)
    ensures RoundUp(size) == size && Look(addr, size) == if addr + size >= LIMIT then 0 else addr
  {
  }

  lemma {:induction false} EndIs(vmas: seq<Vma>, k: nat)
    requires Areas(vmas) && k < |vmas|
    ensures vmas[k].End() % PAGE == 0 && vmas[k].End() <= SPACE_END
  {
    var v := vmas[k];
    assert (v.virt + v.size) % PAGE == 0;
  }

  lemma {:induction false} SumFits(addr: nat, size: nat)
    requires addr <= SPACE_END && NoWrap(size)
    ensures addr + size < WORD
  {
  }

  lemma {:induction false} InTheWayIs(v: Vma, a: nat, size: nat)
    requires a + size < WORD
    ensures InTheWay(v, a, size) <==> v.virt < a + size && a < v.End()
  {
  }

  lemma {:induction false} LeastExists(vmas: seq<Vma>, lo: nat, size: nat, s: nat) returns (g: nat)
    requires lo <= s && Place(vmas, s, size)
    ensures Least(vmas, lo, size, g) && g <= s
    decreases s - lo
  {
    if Place(vmas, lo, size) {
      g := lo;
    } else {
      g := LeastExists(vmas, lo + 1, size, s);
    }
  }

  /** Every start from the one looked at up to the end of the area in the way meets that same area. */
  lemma {:induction false} SkipsNothing(vmas: seq<Vma>, a: nat, size: nat, s: nat)
    requires Clash(vmas, a, size) < |vmas| && a <= s < vmas[Clash(vmas, a, size)].End()
    requires a + size < WORD && s + size < WORD
    ensures !Fits(vmas, s, size)
  {
    InTheWayIs(vmas[Clash(vmas, a, size)], a, size);
    InTheWayIs(vmas[Clash(vmas, a, size)], s, size);
  }

  /** Without a wrap the search settles on the lowest place at or above where it looks. */
  lemma {:induction false} FindsAbove(vmas: seq<Vma>, addr: nat, size: nat, g: nat) returns (fuel: nat)
    requires Areas(vmas) && addr % PAGE == 0 && addr <= SPACE_END && NoWrap(size)
    requires Least(vmas, addr, size, g)
    ensures Search(vmas, addr, size, fuel) == Some(g)
    decreases g - addr
  {
    LaterLook(addr, size);
    SumFits(addr, size);
    hide Look, RoundUp, InTheWay, Search, Clash, Areas, NoWrap;
    var k := Clash(vmas, addr, size);
    fuel := 0;
    if k < |vmas| {
      EndIs(vmas, k);
      InTheWayIs(vmas[k], addr, size);
      var next := vmas[k].End();
      if g < next {
        SkipsNothing(vmas, addr, size, g);
        assert false;
      }
      var f := FindsAbove(vmas, next, size, g);
      fuel := f + 1;
      SearchStep(vmas, addr, size, f);
    } else {
      SearchStep(vmas, addr, size, 0);
      assert Place(vmas, addr, size);
    }
  }

  /** With no place left above, the search wraps once and settles on the lowest place of all. */
  lemma {:induction false} FindsAfterWrap(vmas: seq<Vma>, addr: nat, size: nat, g: nat) returns (fuel: nat)
    requires Areas(vmas) && addr % PAGE == 0 && addr <= SPACE_END && NoWrap(size)
    requires Least(vmas, 0, size, g) && forall s :: addr <= s ==> !Place(vmas, s, size)
    ensures Search(vmas, addr, size, fuel) == Some(g)
    decreases SPACE_END - addr
  {
    LaterLook(addr, size);
    LaterLook(0, size);
    if addr + size >= LIMIT {
      hide RoundUp, InTheWay, Clash;
      fuel := FindsAbove(vmas, 0, size, g);
    } else {
      SumFits(addr, size);
      hide Look, RoundUp, InTheWay, Search, Clash, Areas, NoWrap;
      var k := Clash(vmas, addr, size);
      assert !Place(vmas, addr, size);
      EndIs(vmas, k);
      InTheWayIs(vmas[k], addr, size);
      var f := FindsAfterWrap(vmas, vmas[k].End(), size, g);
      fuel := f + 1;
      SearchStep(vmas, addr, size, f);
    }
  }

  /** With no place at all, no number of calls is enough. */
  lemma {:induction false} NeverEnds(vmas: seq<Vma>, addr: nat, size: nat, fuel: nat)
    requires Areas(vmas) && addr % PAGE == 0 && addr <= SPACE_END && NoWrap(size)
    requires forall s: nat :: !Place(vmas, s, size)
    ensures Search(vmas, addr, size, fuel) == None
    decreases fuel
  {
    LaterLook(addr, size);
    hide Look, RoundUp, InTheWay, Search, Clash, Areas, NoWrap;
    var a := Look(addr, size);
    var k := Clash(vmas, a, size);
    assert !Place(vmas, a, size);
    EndIs(vmas, k);
    SearchStep(vmas, addr, size, if fuel > 0 then fuel - 1 else 0);
    if fuel > 0 {
      NeverEnds(vmas, vmas[k].End(), size, fuel - 1);
    }
  }

  lemma {:induction false} RoundUpIs(n: nat)
    requires n + PAGE < WORD
    ensures n <= RoundUp(n) < n + PAGE && RoundUp(n) % PAGE == 0
  {
  }

  lemma {:induction false} LookIs(addr: nat, len: nat)
    requires Modest(addr, len)
    ensures Look(addr, len) % PAGE == 0 && Look(addr, len) + RoundUp(len) < WORD && RoundUp(RoundUp(len)) == RoundUp(len)
    ensures Look(addr, len) <= LIMIT
  {
    RoundUpIs(len);
    RoundUpIs(if (len + addr) % WORD >= LIMIT then 0 else addr);
  }

  /** The call returns `r`. */
  ghost predicate Gives(vmas: seq<Vma>, addr: nat, len: nat, r: nat) {
    exists fuel: nat :: Search(vmas, addr, len, fuel) == Some(r)
  }

  /** The calls needed do not change what is given. */
  lemma {:induction false} SearchAgrees(vmas: seq<Vma>, addr: nat, len: nat, f: nat, g: nat)
    requires Search(vmas, addr, len, f).Some? && Search(vmas, addr, len, g).Some?
    ensures Search(vmas, addr, len, f) == Search(vmas, addr, len, g)
    decreases f
  {
    hide Look, RoundUp, Clash;
    var k := Clash(vmas, Look(addr, len), RoundUp(len));
    if k < |vmas| {
      SearchAgrees(vmas, vmas[k].End(), RoundUp(len), f - 1, g - 1);
    }
  }

  /** A call gives one address. */
  lemma {:induction false} GivesOne(vmas: seq<Vma>, addr: nat, len: nat, r: nat, q: nat)
    requires Gives(vmas, addr, len, r) && Gives(vmas, addr, len, q)
    ensures r == q
  {
    var f: nat :| Search(vmas, addr, len, f) == Some(r);
    var g: nat :| Search(vmas, addr, len, g) == Some(q);
    SearchAgrees(vmas, addr, len, f, g);
  }

  lemma {:induction false} FirstLookFits(vmas: seq<Vma>, addr: nat, len: nat)
    requires Fits(vmas, Look(addr, len), RoundUp(len))
    ensures Gives(vmas, addr, len, Look(addr, len))
  {
    assert Search(vmas, addr, len, 0) == Some(Look(addr, len));
  }

  lemma {:induction false} FirstLookClashes(vmas: seq<Vma>, addr: nat, len: nat)
    requires !Fits(vmas, Look(addr, len), RoundUp(len))
    ensures Clash(vmas, Look(addr, len), RoundUp(len)) < |vmas|
  {
  }

  /** The first look does not fit, but there is a place at or above it: the lowest such place is given. */
  lemma {:induction false} GivesLowestAbove(vmas: seq<Vma>, addr: nat, len: nat, g: nat)
    requires Areas(vmas) && Modest(addr, len) && NoWrap(RoundUp(len))
    requires !Fits(vmas, Look(addr, len), RoundUp(len)) && Least(vmas, Look(addr, len), RoundUp(len), g)
    ensures Gives(vmas, addr, len, g)
  {
    LookIs(addr, len);
    RoundUpIs(len);
    FirstLookClashes(vmas, addr, len);
    hide RoundUp, Look, Fits, InTheWay, Search, Clash, Areas, Modest, NoWrap;
    var a, size := Look(addr, len), RoundUp(len);
    EndIs(vmas, Clash(vmas, a, size));
    var next := vmas[Clash(vmas, a, size)].End();
    if g < next {
      SkipsNothing(vmas, a, size, g);
      assert false;
    }
    var f := FindsAbove(vmas, next, size, g);
    SearchStep(vmas, addr, len, f);
  }

  /** There is no place at or above the first look: the lowest place of all is given. */
  lemma {:induction false} GivesLowestAfterWrap(vmas: seq<Vma>, addr: nat, len: nat, g: nat)
    requires Areas(vmas) && Modest(addr, len) && NoWrap(RoundUp(len))
    requires !Fits(vmas, Look(addr, len), RoundUp(len)) && Least(vmas, 0, RoundUp(len), g)
    requires forall s: nat :: Look(addr, len) <= s ==> !Place(vmas, s, RoundUp(len))
    ensures Gives(vmas, addr, len, g)
  {
    LookIs(addr, len);
    RoundUpIs(len);
    FirstLookClashes(vmas, addr, len);
    hide RoundUp, Look, Fits, Place, InTheWay, Search, Clash, Areas, Modest, NoWrap;
    var a, size := Look(addr, len), RoundUp(len);
    EndIs(vmas, Clash(vmas, a, size));
    var f := FindsAfterWrap(vmas, vmas[Clash(vmas, a, size)].End(), size, g);
    SearchStep(vmas, addr, len, f);
  }

  /** There is no place at all: the call never returns. */
  lemma {:induction false} GivesNothing(vmas: seq<Vma>, addr: nat, len: nat, r: nat)
    requires Areas(vmas) && Modest(addr, len) && NoWrap(RoundUp(len))
    requires !Fits(vmas, Look(addr, len), RoundUp(len)) && forall s: nat :: !Place(vmas, s, RoundUp(len))
    ensures !Gives(vmas, addr, len, r)
  {
    LookIs(addr, len);
    RoundUpIs(len);
    FirstLookClashes(vmas, addr, len);
    hide RoundUp, Look, Fits, Place, InTheWay, Search, Clash, Areas, Modest, NoWrap;
    var a, size := Look(addr, len), RoundUp(len);
    EndIs(vmas, Clash(vmas, a, size));
    forall fuel: nat
      ensures Search(vmas, addr, len, fuel) == None
    {
      SearchStep(vmas, addr, len, if fuel > 0 then fuel - 1 else 0);
      if fuel > 0 {
        NeverEnds(vmas, vmas[Clash(vmas, a, size)].End(), size, fuel - 1);
      }
    }
  }

  // ---------------------------------------------------------------- when the call returns

  lemma {:induction false} RoundUpWhole(n: nat)
    requires n < WORD
    ensures RoundUp(n) % PAGE == 0 && RoundUp(n) < WORD && RoundUp(RoundUp(n)) == RoundUp(n)
  {
  }

  /** The rounded length and the 64-bit sum bring a search from `e` below the limit. */
  predicate Stays(e: nat, size: nat) {
    (e + size) % WORD < LIMIT
  }

  lemma {:induction false} HugeLook(e: nat, size: nat)
    requires e % PAGE == 0 && e <= SPACE_END && size < WORD && size % PAGE == 0 && !NoWrap(size)
    ensures RoundUp(size) == size && Look(e, size) == if Stays(e, size) then e else 0
    ensures Stays(e, size) ==> e + size >= WORD
  {
  }

  /** From the end of an area a length that wraps fits at once, if the sum stays below the limit. */
  lemma {:induction false} HugeFits(vmas: seq<Vma>, k: nat, size: nat)
    requires Areas(vmas) && k < |vmas| && size < WORD && size % PAGE == 0 && !NoWrap(size)
    requires Stays(vmas[k].End(), size)
    ensures Search(vmas, vmas[k].End(), size, 0) == Some(vmas[k].End())
  {
    var e := vmas[k].End();
    EndIs(vmas, k);
    HugeLook(e, size);
    forall j | 0 <= j < |vmas|
      ensures !InTheWay(vmas[j], e, size)
    {
      assert j < k ==> !Overlap(vmas[j], vmas[k]);
      assert k < j ==> !Overlap(vmas[k], vmas[j]);
    }
    hide InTheWay, Look, RoundUp, Areas;
    assert Clash(vmas, e, size) == |vmas|;
  }

  lemma {:induction false} HugeClash(vmas: seq<Vma>, k: nat, size: nat)
    requires Areas(vmas) && k < |vmas| && vmas[k].End() > 0 && size < WORD && size % PAGE == 0 && !NoWrap(size)
    ensures Clash(vmas, 0, size) < |vmas| && vmas[Clash(vmas, 0, size)].End() > 0
  {
    assert InTheWay(vmas[k], 0, size);
  }

  /** Otherwise it goes back to 0, and from there on in a circle, or out of it at the first clash. */
  lemma {:induction false} HugeCircles(vmas: seq<Vma>, e: nat, size: nat, fuel: nat)
    requires Areas(vmas) && e % PAGE == 0 && e <= SPACE_END && size < WORD && size % PAGE == 0 && !NoWrap(size)
    requires !Stays(e, size) && Clash(vmas, 0, size) < |vmas|
    ensures Search(vmas, e, size, 0) == None
    ensures Search(vmas, e, size, fuel + 1) == Search(vmas, vmas[Clash(vmas, 0, size)].End(), size, fuel)
    ensures !Stays(vmas[Clash(vmas, 0, size)].End(), size) ==> Search(vmas, e, size, fuel) == None
    decreases fuel
  {
    HugeLook(e, size);
    hide Look, RoundUp, InTheWay, Search, Areas, NoWrap, Stays;
    var k := Clash(vmas, 0, size);
    EndIs(vmas, k);
    SearchStep(vmas, e, size, fuel);
    if fuel > 0 && !Stays(vmas[k].End(), size) {
      SearchStep(vmas, e, size, fuel - 1);
      HugeCircles(vmas, vmas[k].End(), size, fuel - 1);
    }
  }

  /** The end of area `k` is a place for a length that wraps. */
  predicate Turns(vmas: seq<Vma>, size: nat, k: nat) {
    k < |vmas| && Stays(vmas[k].End(), size)
  }

  lemma {:induction false} HugeReturns(vmas: seq<Vma>, addr: nat, len: nat)
    requires Areas(vmas) && len < WORD && !NoWrap(RoundUp(len)) && !Fits(vmas, Look(addr, len), RoundUp(len))
    ensures (exists r: nat :: Gives(vmas, addr, len, r)) <==>
      Turns(vmas, RoundUp(len), Clash(vmas, Look(addr, len), RoundUp(len))) || Turns(vmas, RoundUp(len), Clash(vmas, 0, RoundUp(len)))
  {
    RoundUpWhole(len);
    FirstLookClashes(vmas, addr, len);
    var a, size := Look(addr, len), RoundUp(len);
    var k := Clash(vmas, a, size);
    var e := vmas[k].End();
    assert e > 0;
    EndIs(vmas, k);
    HugeClash(vmas, k, size);
    var k0 := Clash(vmas, 0, size);
    var e0 := vmas[k0].End();
    hide Look, RoundUp, InTheWay, Search, Areas, NoWrap, Clash, Fits, Stays;
    if Stays(e, size) {
      HugeFits(vmas, k, size);
      SearchStep(vmas, addr, len, 0);
      assert Gives(vmas, addr, len, e);
    } else if Stays(e0, size) {
      HugeFits(vmas, k0, size);
      HugeCircles(vmas, e, size, 0);
      SearchStep(vmas, addr, len, 1);
      assert Gives(vmas, addr, len, e0);
    } else {
      forall fuel: nat
        ensures Search(vmas, addr, len, fuel) == None
      {
        SearchStep(vmas, addr, len, if fuel > 0 then fuel - 1 else 0);
        if fuel > 0 {
          HugeCircles(vmas, e, size, fuel - 1);
        }
      }
    }
  }

  /** Where a search ends for a length that wraps every sum, when its look at `a` clashes: the end of the first area in
      the way there if that turns the sum round, and otherwise that of the first area in the way at 0. */
  function HugeEnd(vmas: seq<Vma>, a: nat, size: nat): nat {
    var k, k0 := Clash(vmas, a, size), Clash(vmas, 0, size);
    if Turns(vmas, size, k) then vmas[k].End() else if k0 < |vmas| then vmas[k0].End() else 0
  }

  lemma {:induction false} HugeGives(vmas: seq<Vma>, addr: nat, len: nat, fuel: nat)
    requires Areas(vmas) && len < WORD && !NoWrap(RoundUp(len)) && !Fits(vmas, Look(addr, len), RoundUp(len))
    requires Search(vmas, addr, len, fuel).Some?
    ensures var r := Search(vmas, addr, len, fuel).value;
      r == HugeEnd(vmas, Look(addr, len), RoundUp(len)) && r <= SPACE_END && r + RoundUp(len) >= WORD
  {
    RoundUpWhole(len);
    FirstLookClashes(vmas, addr, len);
    var a, size := Look(addr, len), RoundUp(len);
    var k := Clash(vmas, a, size);
    var e := vmas[k].End();
    assert e > 0;
    EndIs(vmas, k);
    HugeClash(vmas, k, size);
    var k0 := Clash(vmas, 0, size);
    var e0 := vmas[k0].End();
    EndIs(vmas, k0);
    HugeLook(e, size);
    HugeLook(e0, size);
    hide Look, RoundUp, InTheWay, Search, Areas, NoWrap, Clash, Fits, Stays;
    SearchStep(vmas, addr, len, if fuel > 0 then fuel - 1 else 0);
    if Stays(e, size) {
      HugeFits(vmas, k, size);
      SearchAgrees(vmas, e, size, fuel - 1, 0);
    } else {
      HugeCircles(vmas, e, size, fuel - 1);
      if fuel > 1 {
        HugeCircles(vmas, e, size, fuel - 2);
      }
      HugeFits(vmas, k0, size);
      SearchAgrees(vmas, e0, size, fuel - 2, 0);
    }
  }

  lemma {:induction false} UsualReturns(vmas: seq<Vma>, addr: nat, len: nat)
    requires Areas(vmas) && len < WORD && NoWrap(RoundUp(len)) && !Fits(vmas, Look(addr, len), RoundUp(len))
    ensures (exists r: nat :: Gives(vmas, addr, len, r)) <==> exists s: nat :: Place(vmas, s, RoundUp(len))
  {
    RoundUpWhole(len);
    FirstLookClashes(vmas, addr, len);
    var size := RoundUp(len);
    var k := Clash(vmas, Look(addr, len), size);
    var e := vmas[k].End();
    EndIs(vmas, k);
    hide Look, RoundUp, InTheWay, Search, Areas, NoWrap, Clash, Fits, Place, Least;
    if exists s: nat :: e <= s && Place(vmas, s, size) {
      var s: nat :| e <= s && Place(vmas, s, size);
      var g := LeastExists(vmas, e, size, s);
      var f := FindsAbove(vmas, e, size, g);
      SearchStep(vmas, addr, len, f);
      assert Gives(vmas, addr, len, g);
    } else if exists s: nat :: Place(vmas, s, size) {
      var s: nat :| Place(vmas, s, size);
      var g := LeastExists(vmas, 0, size, s);
      var f := FindsAfterWrap(vmas, e, size, g);
      SearchStep(vmas, addr, len, f);
      assert Gives(vmas, addr, len, g);
    } else {
      forall fuel: nat
        ensures Search(vmas, addr, len, fuel) == None
      {
        SearchStep(vmas, addr, len, if fuel > 0 then fuel - 1 else 0);
        if fuel > 0 {
          NeverEnds(vmas, e, size, fuel - 1);
        }
      }
    }
  }

  /** For every 64-bit hint and length: `sys_mmap` returns exactly when its first look fits, or the space has a place
      for the length; or, for a length that wraps every sum, when the end of the area it meets first, from its
      hint or from 0, brings the sum round to below the limit. */
  lemma {:induction false} MmapReturns(vmas: seq<Vma>, addr: nat, len: nat)
    requires Areas(vmas) && addr < WORD && len < WORD
    ensures (exists r: nat :: Gives(vmas, addr, len, r)) <==>
      || Fits(vmas, Look(addr, len), RoundUp(len))
      || (if NoWrap(RoundUp(len)) then exists s: nat :: Place(vmas, s, RoundUp(len))
          else Turns(vmas, RoundUp(len), Clash(vmas, Look(addr, len), RoundUp(len)))
               || Turns(vmas, RoundUp(len), Clash(vmas, 0, RoundUp(len))))
  {
    hide Gives, Look, RoundUp, Fits, Place, Areas, NoWrap, Turns, Clash;
    if Fits(vmas, Look(addr, len), RoundUp(len)) {
      FirstLookFits(vmas, addr, len);
    } else if NoWrap(RoundUp(len)) {
      UsualReturns(vmas, addr, len);
    } else {
      HugeReturns(vmas, addr, len);
    }
  }

  // ---------------------------------------------------------------- what is given

  /** The range, not taken modulo 2^64, meets the area. */
  predicate Meets(v: Vma, r: nat, size: nat) {
    v.virt < r + size && r < v.End()
  }

  /** Whatever is given is page-aligned and passes the test of the code against every area. */
  lemma {:induction false} GivenFits(vmas: seq<Vma>, addr: nat, len: nat, fuel: nat)
    requires Areas(vmas) && addr < WORD && len < WORD && Search(vmas, addr, len, fuel).Some?
    ensures var r := Search(vmas, addr, len, fuel).value;
      r % PAGE == 0 && r < WORD && Fits(vmas, r, RoundUp(len))
    decreases fuel
  {
    RoundUpWhole(len);
    RoundUpWhole(if (len + addr) % WORD >= LIMIT then 0 else addr);
    assert Look(addr, len) % PAGE == 0 && Look(addr, len) < WORD;
    hide Look, RoundUp, InTheWay, Areas;
    var k := Clash(vmas, Look(addr, len), RoundUp(len));
    if k < |vmas| {
      EndIs(vmas, k);
      GivenFits(vmas, vmas[k].End(), RoundUp(len), fuel - 1);
    }
  }

  lemma {:induction false} FitsIsApart(vmas: seq<Vma>, r: nat, size: nat)
    requires Areas(vmas) && Fits(vmas, r, size)
    ensures (forall k :: 0 <= k < |vmas| ==> !Meets(vmas[k], r, size)) <==>
      r + size < WORD || forall k :: 0 <= k < |vmas| ==> vmas[k].End() <= r
  {
    if r + size < WORD {
      forall k | 0 <= k < |vmas|
        ensures !Meets(vmas[k], r, size)
      {
        InTheWayIs(vmas[k], r, size);
      }
    } else {
      forall k | 0 <= k < |vmas|
        ensures Meets(vmas[k], r, size) <==> vmas[k].End() > r
      {
        EndIs(vmas, k);
      }
    }
  }

  /** What is given, told from the hint, the length and the areas: the first look if it fits; otherwise 0 or a
      place that ends below the limit, or, for a length that wraps every sum, the end of an area. */
  lemma {:induction false} GivenIs(vmas: seq<Vma>, addr: nat, len: nat, fuel: nat)
    requires Areas(vmas) && addr < WORD && len < WORD && Search(vmas, addr, len, fuel).Some?
    ensures var r, a, size := Search(vmas, addr, len, fuel).value, Look(addr, len), RoundUp(len);
      && size < WORD && size % PAGE == 0
      && (if Fits(vmas, a, size) then r == a
          else if NoWrap(size) then (r == 0 || r + size < LIMIT) && r + size < WORD
          else r == HugeEnd(vmas, a, size) && r <= SPACE_END && r + size >= WORD)
  {
    RoundUpWhole(len);
    var a, size := Look(addr, len), RoundUp(len);
    var k := Clash(vmas, a, size);
    FitsIsNoClash(vmas, a, size);
    if !Fits(vmas, a, size) {
      EndIs(vmas, k);
      if NoWrap(size) {
        hide Look, RoundUp, InTheWay, Areas;
        LaterGiven(vmas, vmas[k].End(), size, fuel - 1);
      } else {
        HugeGives(vmas, addr, len, fuel);
      }
    }
  }

  lemma {:induction false} FitsIsNoClash(vmas: seq<Vma>, a: nat, size: nat)
    ensures Fits(vmas, a, size) <==> Clash(vmas, a, size) == |vmas|
  {
  }

  /** For every 64-bit hint and length: the range given meets no area exactly when its sum does not wrap, or
      every area ends at or below the address that is told from the request. */
  lemma {:induction false} GivenIsApart(vmas: seq<Vma>, addr: nat, len: nat, fuel: nat)
    requires Areas(vmas) && addr < WORD && len < WORD && Search(vmas, addr, len, fuel).Some?
    ensures var r, a, size := Search(vmas, addr, len, fuel).value, Look(addr, len), RoundUp(len);
      (forall k :: 0 <= k < |vmas| ==> !Meets(vmas[k], r, size)) <==>
      if Fits(vmas, a, size) then a + size < WORD || forall k :: 0 <= k < |vmas| ==> vmas[k].End() <= a
      else NoWrap(size) || forall k :: 0 <= k < |vmas| ==> vmas[k].End() <= HugeEnd(vmas, a, size)
  {
    GivenFits(vmas, addr, len, fuel);
    GivenIs(vmas, addr, len, fuel);
    hide Search, Look, RoundUp, Fits, NoWrap, HugeEnd, Areas, Meets;
    FitsIsApart(vmas, Search(vmas, addr, len, fuel).value, RoundUp(len));
  }

  /** Requests that do not wrap are given a range that ends below 2^64. */
  lemma {:induction false} ModestEndsBelowWord(vmas: seq<Vma>, addr: nat, len: nat, fuel: nat)
    requires Modest(addr, len) && NoWrap(RoundUp(len)) && Areas(vmas) && Search(vmas, addr, len, fuel).Some?
    ensures Search(vmas, addr, len, fuel).value + RoundUp(len) < WORD
    decreases fuel
  {
    LookIs(addr, len);
    hide Look, RoundUp, InTheWay;
    var k := Clash(vmas, Look(addr, len), RoundUp(len));
    if k < |vmas| {
      assert Modest(vmas[k].End(), RoundUp(len));
      ModestEndsBelowWord(vmas, vmas[k].End(), RoundUp(len), fuel - 1);
    }
  }

  /** Later looks are at 0 or at places that end below the limit. */
  lemma {:induction false} LaterGiven(vmas: seq<Vma>, addr: nat, size: nat, fuel: nat)
    requires Areas(vmas) && addr % PAGE == 0 && addr <= SPACE_END && NoWrap(size) && Search(vmas, addr, size, fuel).Some?
    ensures var r := Search(vmas, addr, size, fuel).value; r == 0 || r + size < LIMIT
    decreases fuel
  {
    LaterLook(addr, size);
    hide Look, RoundUp, InTheWay, Areas, NoWrap;
    var k := Clash(vmas, Look(addr, size), RoundUp(size));
    if k < |vmas| {
      EndIs(vmas, k);
      LaterGiven(vmas, vmas[k].End(), size, fuel - 1);
    }
  }

  /** The hint passes the test of the limit as it stands, and fits rounded, but reaches the limit rounded. */
  predicate SlipsPast(vmas: seq<Vma>, addr: nat, len: nat) {
    addr + len < LIMIT <= RoundUp(addr) + RoundUp(len) && Fits(vmas, RoundUp(addr), RoundUp(len))
  }

  /** Some area, not empty at 0, starts below the limit. */
  predicate SomeBelow(vmas: seq<Vma>) {
    exists k :: 0 <= k < |vmas| && vmas[k].virt < LIMIT && vmas[k].End() > 0
  }

  /** For every 64-bit hint and length, in a thread with some area below the limit: what is given ends below the limit
      exactly when the first look fits and ends below it, or does not fit and the length wraps no later sum. */
  lemma {:induction false} GivenEndsBelowLimit(vmas: seq<Vma>, addr: nat, len: nat, fuel: nat)
    requires Areas(vmas) && addr < WORD && len < WORD && Search(vmas, addr, len, fuel).Some? && SomeBelow(vmas)
    ensures Search(vmas, addr, len, fuel).value + RoundUp(len) < LIMIT <==>
      if Fits(vmas, Look(addr, len), RoundUp(len)) then Look(addr, len) + RoundUp(len) < LIMIT else NoWrap(RoundUp(len))
  {
    GivenFits(vmas, addr, len, fuel);
    GivenIs(vmas, addr, len, fuel);
    AtZero(vmas, RoundUp(len));
    hide Search, Look, RoundUp, Fits, NoWrap, HugeEnd, Areas, SomeBelow;
  }

  /** For requests that do not wrap: exactly when the request does not slip past the test of the limit. */
  lemma {:induction false} ModestEndsBelowLimit(vmas: seq<Vma>, addr: nat, len: nat, fuel: nat)
    requires Areas(vmas) && Modest(addr, len) && NoWrap(RoundUp(len)) && Search(vmas, addr, len, fuel).Some? && SomeBelow(vmas)
    ensures Search(vmas, addr, len, fuel).value + RoundUp(len) < LIMIT <==> !SlipsPast(vmas, addr, len)
  {
    LookUnwrapped(addr, len);
    RoundUpIs(len);
    AtZero(vmas, RoundUp(len));
    hide RoundUp, InTheWay, Look, Areas, NoWrap, Search, Fits, SomeBelow;
    GivenEndsBelowLimit(vmas, addr, len, fuel);
  }

  lemma {:induction false} LookUnwrapped(addr: nat, len: nat)
    requires Modest(addr, len)
    ensures Look(addr, len) == if addr + len < LIMIT then RoundUp(addr) else 0
  {
  }

  lemma {:induction false} AtZero(vmas: seq<Vma>, size: nat)
    requires SomeBelow(vmas)
    ensures size < WORD && Fits(vmas, 0, size) ==> size < LIMIT
  {
    var k :| 0 <= k < |vmas| && vmas[k].virt < LIMIT && vmas[k].End() > 0;
    if size < WORD && Fits(vmas, 0, size) {
      assert !InTheWay(vmas[k], 0, size);
    }
  }

  lemma {:induction false} NewAreaIsDisjoint(vmas: seq<Vma>, v: Vma)
    requires Areas(vmas) && v.virt % PAGE == 0 && v.size % PAGE == 0 && v.End() <= SPACE_END && Fits(vmas, v.virt, v.size)
    ensures Areas(vmas + [v])
  {
    forall j | 0 <= j < |vmas|
      ensures !Overlap(vmas[j], v)
    {
      InTheWayIs(vmas[j], v.virt, v.size);
    }
  }

  /** The range given ends inside the 48-bit space. */
  predicate KeepsToSpace(vmas: seq<Vma>, addr: nat, len: nat) {
    if Fits(vmas, Look(addr, len), RoundUp(len)) then Look(addr, len) + RoundUp(len) <= SPACE_END else NoWrap(RoundUp(len))
  }

  /** For every 64-bit hint and length: the areas are still page-aligned, inside the space and pairwise disjoint when the
      one given is added, exactly when it keeps to the space. */
  lemma {:induction false} MmapKeepsAreas(vmas: seq<Vma>, addr: nat, len: nat, fuel: nat, phys: nat, prot: nat)
    requires Areas(vmas) && addr < WORD && len < WORD && Search(vmas, addr, len, fuel).Some? && SomeBelow(vmas)
    ensures Areas(vmas + [Vma(Search(vmas, addr, len, fuel).value, RoundUp(len), phys, prot, true)]) <==> KeepsToSpace(vmas, addr, len)
  {
    var r, size := Search(vmas, addr, len, fuel).value, RoundUp(len);
    var v := Vma(r, size, phys, prot, true);
    GivenFits(vmas, addr, len, fuel);
    GivenIs(vmas, addr, len, fuel);
    GivenEndsBelowLimit(vmas, addr, len, fuel);
    hide Search, Look, RoundUp, Fits, NoWrap, HugeEnd, SomeBelow;
    if Areas(vmas + [v]) {
      EndIs(vmas + [v], |vmas|);
    }
    hide Areas;
    if KeepsToSpace(vmas, addr, len) {
      NewAreaIsDisjoint(vmas, v);
    }
  }

  /** Requests that do not wrap keep to the space. */
  lemma {:induction false} ModestKeepsToSpace(vmas: seq<Vma>, addr: nat, len: nat)
    requires Modest(addr, len) && NoWrap(RoundUp(len)) && SomeBelow(vmas)
    ensures KeepsToSpace(vmas, addr, len)
  {
    LookUnwrapped(addr, len);
    RoundUpIs(len);
    AtZero(vmas, RoundUp(len));
    if addr + len < LIMIT {
      RoundUpIs(addr);
    }
    hide RoundUp, Look, Fits, SomeBelow;
  }

  /** A nonempty area is given the start of another exactly when that is its first look and the sum wraps, or its length
      wraps every sum and that is where such a search ends. */
  lemma {:induction false} StartsAreTaken(vmas: seq<Vma>, addr: nat, len: nat, fuel: nat, k: nat)
    requires Areas(vmas) && addr < WORD && len < WORD && Search(vmas, addr, len, fuel).Some?
    requires k < |vmas| && vmas[k].size > 0 && RoundUp(len) > 0
    ensures Search(vmas, addr, len, fuel).value == vmas[k].virt <==>
      if Fits(vmas, Look(addr, len), RoundUp(len)) then Look(addr, len) == vmas[k].virt && Look(addr, len) + RoundUp(len) >= WORD
      else !NoWrap(RoundUp(len)) && HugeEnd(vmas, Look(addr, len), RoundUp(len)) == vmas[k].virt
  {
    GivenFits(vmas, addr, len, fuel);
    GivenIs(vmas, addr, len, fuel);
    var r, size := Search(vmas, addr, len, fuel).value, RoundUp(len);
    hide RoundUp, Search, Look, NoWrap, HugeEnd;
    if r + size < WORD {
      InTheWayIs(vmas[k], r, size);
    }
  }

  // ---------------------------------------------------------------- in the areas of a thread

  lemma {:induction false} ThreadAreasAreAreas(text: nat, data: nat, ustack: nat, wrapper: nat)
    requires text % PAGE == 0 && text <= DEVICE
    ensures Areas(ThreadAreas(text, data, ustack, wrapper))
  {
  }

  /** The limit is tested before rounding: a hint just below it is given the page above it. */
  lemma {:induction false} GivenPastTheLimit(text: nat, data: nat, ustack: nat, wrapper: nat)
    requires text % PAGE == 0 && text <= DEVICE
    ensures var vmas := ThreadAreas(text, data, ustack, wrapper);
      Search(vmas, 0xffff_ffff_e001, 1, 0) == Some(LIMIT) && SlipsPast(vmas, 0xffff_ffff_e001, 1)
  {
    assert RoundUp(0xffff_ffff_e001) == LIMIT && RoundUp(1) == PAGE && Look(0xffff_ffff_e001, 1) == LIMIT;
    hide RoundUp, Look;
    assert Clash(ThreadAreas(text, data, ustack, wrapper), LIMIT, PAGE) == 4;
  }

  /** A hint in the last page of the 64-bit range: the sum wraps to 0, and that page is given. */
  lemma {:induction false} GivenTheTopPage(text: nat, data: nat, ustack: nat, wrapper: nat)
    requires text % PAGE == 0 && text <= DEVICE
    ensures Search(ThreadAreas(text, data, ustack, wrapper), WORD - PAGE, PAGE, 0) == Some(WORD - PAGE)
    ensures !SlipsPast(ThreadAreas(text, data, ustack, wrapper), WORD - PAGE, PAGE)
  {
    assert RoundUp(PAGE) == PAGE && Look(WORD - PAGE, PAGE) == WORD - PAGE;
    hide RoundUp, Look;
    assert Clash(ThreadAreas(text, data, ustack, wrapper), WORD - PAGE, PAGE) == 4;
  }

  /** A length that wraps the 64-bit sum is given the start of the device area, and far more. */
  lemma {:induction false} GivenTheDevice(text: nat, data: nat, ustack: nat, wrapper: nat)
    requires text % PAGE == 0 && text <= DEVICE
    ensures Search(ThreadAreas(text, data, ustack, wrapper), DEVICE, WORD - DEVICE, 0) == Some(DEVICE)
  {
    assert RoundUp(WORD - DEVICE) == WORD - DEVICE && Look(DEVICE, WORD - DEVICE) == DEVICE;
    hide RoundUp, Look;
    assert Clash(ThreadAreas(text, data, ustack, wrapper), DEVICE, WORD - DEVICE) == 4;
  }

  /** A length that wraps the 64-bit sum is given a range that meets an area. */
  lemma {:induction false} GivenOverAnArea(text: nat, data: nat, ustack: nat, wrapper: nat)
    requires text % PAGE == 0 && text <= DEVICE
    ensures var vmas := ThreadAreas(text, data, ustack, wrapper);
      Search(vmas, PAGE, WORD - PAGE, 0) == Some(PAGE) && Meets(vmas[1], PAGE, WORD - PAGE)
  {
    assert RoundUp(WORD - PAGE) == WORD - PAGE && Look(PAGE, WORD - PAGE) == PAGE;
    hide RoundUp, Look;
    assert Clash(ThreadAreas(text, data, ustack, wrapper), PAGE, WORD - PAGE) == 4;
  }

  /** A length that no gap holds: the call never returns. */
  lemma {:induction false} NoPlaceForAll(text: nat, data: nat, ustack: nat, wrapper: nat, r: nat)
    requires text % PAGE == 0 && text <= DEVICE
    ensures !Gives(ThreadAreas(text, data, ustack, wrapper), 0, 0xffff_ffff_0000, r)
  {
    var vmas, len := ThreadAreas(text, data, ustack, wrapper), 0xffff_ffff_0000;
    ThreadAreasAreAreas(text, data, ustack, wrapper);
    assert RoundUp(len) == len && Look(0, len) == 0;
    forall s: nat
      ensures !Place(vmas, s, len)
    {
      if s == 0 || s + len < LIMIT {
        InTheWayIs(vmas[2], s, len);
        assert InTheWay(vmas[2], s, len);
      }
    }
    assert InTheWay(vmas[2], 0, len);
    GivesNothing(vmas, 0, len, r);
  }

  /** An empty area can be given the start of the device area. */
  lemma {:induction false} EmptyAtDevice(text: nat, data: nat, ustack: nat, wrapper: nat)
    requires text % PAGE == 0 && text <= DEVICE
    ensures Search(ThreadAreas(text, data, ustack, wrapper), DEVICE, 0, 0) == Some(DEVICE)
  {
    assert RoundUp(0) == 0 && Look(DEVICE, 0) == DEVICE;
    hide RoundUp, Look;
    assert Clash(ThreadAreas(text, data, ustack, wrapper), DEVICE, 0) == 4;
  }

  /** The first mapping of a thread without a hint lies right behind its text, and touches it. */
  lemma {:induction false} FirstMappingTouchesText(text: nat, data: nat, ustack: nat, wrapper: nat)
    requires text % PAGE == 0 && 0 < text < DEVICE
    ensures Search(ThreadAreas(text, data, ustack, wrapper), 0, PAGE, 1) == Some(text)
  {
    var vmas := ThreadAreas(text, data, ustack, wrapper);
    assert RoundUp(PAGE) == PAGE && Look(0, PAGE) == 0 && Look(text, PAGE) == text;
    hide RoundUp, Look;
    assert Clash(vmas, 0, PAGE) == 0;
    assert Clash(vmas, text, PAGE) == 4;
    assert Search(vmas, text, PAGE, 0) == Some(text);
  }
}
