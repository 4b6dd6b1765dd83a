/**
 mmap without MAP_FIXED and munmap on the list of mapped regions of a process.
 Addresses and lengths are 64-bit values and additions wrap as the source's do.
 The linked list is a sequence and a pointer to a node is its place.
 */
module Mmap {
  import opened Wrappers
  import opened MmapRegions

  const PGSIZE: nat := 4096
  const USERTOP: nat := 0x3F_FFFF_D000
  const MAXVA: nat := 0x40_0000_0000
  const MMAPBASE: nat := 0x20_0000_0000
  const WORD: nat := 0x1_0000_0000_0000_0000

  function Wrap(a: nat): nat {
    a % WORD
  }

  /** 64-bit addition. */
  function Add(a: nat, b: nat): nat {
    Wrap(a + b)
  }

  /** PGROUNDUP and PGROUNDDOWN of a 64-bit value. */
  function RoundUp(a: nat): nat {
    RoundDown(Add(a, PGSIZE - 1))
  }

  function RoundDown(a: nat): nat {
    a / PGSIZE * PGSIZE
  }

  function End(r: Region): nat {
    r.addr + r.length
  }

  ghost predicate Paged(r: Region) {
    r.addr % PGSIZE == 0 && r.length % PGSIZE == 0 && r.length > 0 && End(r) <= USERTOP
  }

  /** Page-granular regions in address order that do not overlap. */
  ghost predicate Layout(rs: seq<Region>) {
    && (forall i :: 0 <= i < |rs| ==> Paged(rs[i]))
    && (forall i, j :: 0 <= i < j < |rs| ==> End(rs[i]) <= rs[j].addr)
  }

  ghost predicate Covered(rs: seq<Region>, a: nat) {
    exists i :: 0 <= i < |rs| && Contains(rs[i], a)
  }

  /** [a, a + n) overlaps no region. */
  ghost predicate Fits(rs: seq<Region>, a: nat, n: nat) {
    forall i :: 0 <= i < |rs| ==> Apart(rs[i], a, n)
  }

  predicate Apart(r: Region, a: nat, n: nat) {
    a + n <= r.addr || End(r) <= a
  }

  /** In a laid-out list at most one region contains an address, and it is the one found. */
  lemma {:induction false} FindUnambiguous(rs: seq<Region>, a: nat, i: nat)
    requires Layout(rs) && i < |rs| && Contains(rs[i], a)
    ensures FindRegion(rs, a) == Some(rs[i])
    ensures forall j :: 0 <= j < |rs| && Contains(rs[j], a) ==> j == i
  {
    if i > 0 {
      assert End(rs[0]) <= rs[i].addr;
      FindUnambiguous(rs[1..], a, i - 1);
    }
  }

  /** a is the lowest address at or above start where n bytes fit. */
  ghost predicate Lowest(rs: seq<Region>, start: nat, n: nat, a: nat) {
    start <= a && Fits(rs, a, n) && forall x: nat :: start <= x < a ==> !Fits(rs, x, n)
  }

  /** No address from start up to a is free, the first k regions being the reason. */
  ghost predicate Passed(rs: seq<Region>, start: nat, n: nat, a: nat, k: nat) {
    && start <= a && k <= |rs|
    && (forall i :: 0 <= i < k ==> End(rs[i]) <= a)
    && (forall x: nat :: start <= x < a ==> !Fits(rs, x, n))
  }

  lemma PassNext(rs: seq<Region>, start: nat, n: nat, a: nat, k: nat, a': nat)
    requires Layout(rs) && Passed(rs, start, n, a, k) && k < |rs| && n > 0 && a + n > rs[k].addr
    requires a' == if a <= End(rs[k]) then End(rs[k]) else a
    ensures Passed(rs, start, n, a', k + 1)
  {
    forall x: nat | start <= x < a' ensures !Fits(rs, x, n) {
      if x >= a { assert !Apart(rs[k], x, n); }
    }
  }

  lemma PassStop(rs: seq<Region>, start: nat, n: nat, a: nat, k: nat)
    requires Layout(rs) && Passed(rs, start, n, a, k) && (k < |rs| ==> a + n <= rs[k].addr)
    ensures Lowest(rs, start, n, a)
  {
    forall i | 0 <= i < |rs| ensures Apart(rs[i], a, n) {
      if i > k { assert End(rs[k]) <= rs[i].addr; }
    }
  }

  // ----- mmap -----

  datatype MmapResult = Mapped(addr: nat) | Invalid | NoMemory | Panic

  /** Where the search for an address starts. */
  function Start(rs: seq<Region>, hint: nat): nat {
    if hint != 0 then RoundDown(hint)
    else if rs != [] then rs[0].addr
    else MMAPBASE
  }

  /** The list with r in its place in address order. */
  ghost predicate Inserted(rs: seq<Region>, r: Region, k: nat, rs': seq<Region>) {
    && k <= |rs| && rs' == rs[..k] + [r] + rs[k..]
    && (forall i :: 0 <= i < k ==> rs[i].addr < r.addr)
    && (forall i :: k <= i < |rs| ==> r.addr < rs[i].addr)
  }

  /** In a laid-out list the neighbours of place k decide whether r belongs there. */
  lemma Sandwich(rs: seq<Region>, r: Region, k: nat)
    requires Layout(rs) && k <= |rs| && forall i :: 0 <= i < |rs| ==> rs[i].addr != r.addr
    ensures (k > 0 ==> rs[k - 1].addr < r.addr) && (k < |rs| ==> r.addr < rs[k].addr) ==> Inserted(rs, r, k, rs[..k] + [r] + rs[k..])
  {
    forall i | 0 <= i < |rs| ensures i + 1 < k ==> rs[i].addr <= rs[k - 1].addr {
      if i + 1 < k { assert End(rs[i]) <= rs[k - 1].addr; }
    }
    forall i | 0 <= i < |rs| ensures k < i ==> rs[k].addr <= rs[i].addr {
      if k < i { assert End(rs[k]) <= rs[i].addr; }
    }
  }

  lemma NodePaged(rs: seq<Region>, k: nat)
    requires Layout(rs) && k < |rs|
    ensures End(rs[k]) <= USERTOP && End(rs[k]) % PGSIZE == 0
  {
    assert Paged(rs[k]);
  }

  lemma PassFirst(rs: seq<Region>, start: nat, n: nat)
    ensures Passed(rs, start, n, start, 0)
  {
  }

  lemma InsertLayout(rs: seq<Region>, r: Region, k: nat, rs': seq<Region>)
    requires Layout(rs) && Paged(r) && Fits(rs, r.addr, r.length) && Inserted(rs, r, k, rs')
    ensures Layout(rs')
  {
    hide Paged;
    forall i | 0 <= i < |rs| ensures rs'[if i < k then i else i + 1] == rs[i] { }
    assert rs'[k] == r;
    forall i | 0 <= i < |rs| ensures if i < k then End(rs[i]) <= r.addr else End(r) <= rs[i].addr {
      assert Apart(rs[i], r.addr, r.length) && Paged(rs[i]);
      PagedLength(rs[i]);
      PagedLength(r);
    }
  }

  lemma PagedLength(r: Region)
    requires Paged(r)
    ensures r.length > 0
  {
  }

  lemma InsertKeeps(rs: seq<Region>, r: Region, k: nat, rs': seq<Region>)
    requires Layout(rs) && Paged(r) && Fits(rs, r.addr, r.length) && Inserted(rs, r, k, rs')
    ensures Layout(rs') && forall a :: Covered(rs', a) <==> Covered(rs, a) || Contains(r, a)
  {
    InsertLayout(rs, r, k, rs');
    hide Layout, Paged, Fits;
    forall a ensures Covered(rs', a) <==> Covered(rs, a) || Contains(r, a) {
      if Covered(rs, a) {
        var i :| 0 <= i < |rs| && Contains(rs[i], a);
        assert Contains(rs'[if i < k then i else i + 1], a);
      }
      assert rs'[k] == r;
    }
  }

  class AddressSpace {
    var regions: seq<Region>

    /** A process that has mapped nothing. */
    constructor ()
      ensures regions == [] && Layout(regions)
    {
      regions := [];
    }

    /** The loop that looks for an address. */
    method SelectAddr(start: nat, n: nat) returns (addr: nat)
      requires Layout(regions) && start % PGSIZE == 0 && start < WORD && n % PGSIZE == 0 && 0 < n <= WORD / 2
      ensures start <= USERTOP ==> addr <= USERTOP && addr % PGSIZE == 0 && Lowest(regions, start, n, addr)
      ensures start > USERTOP ==> addr == start
    {
      hide Layout, Passed, Lowest;
      PassFirst(regions, start, n);
      addr := start;
      var k := 0;
      while k < |regions|
        invariant 0 <= k <= |regions| && addr % PGSIZE == 0
        invariant start <= USERTOP ==> addr <= USERTOP && Passed(regions, start, n, addr, k)
        invariant start > USERTOP ==> addr == start
      {
        var node := regions[k];
        NodePaged(regions, k);
        if Add(addr, n) <= node.addr {
          if start <= USERTOP { PassStop(regions, start, n, addr, k); }
          return;
        }
        if End(node) <= addr && (k + 1 == |regions| || Add(addr, n) <= regions[k + 1].addr) {
          if start <= USERTOP {
            PassNext(regions, start, n, addr, k, addr);
            PassStop(regions, start, n, addr, k + 1);
          }
          return;
        }
        if start <= USERTOP {
          PassNext(regions, start, n, addr, k, if addr <= End(node) then End(node) else addr);
        }
        if addr <= End(node) {
          addr := End(node);
        }
        k := k + 1;
      }
      if start <= USERTOP { PassStop(regions, start, n, addr, k); }
    }

    /** The loop that enters a region into the list; the result is its place. */
    method Insert(r: Region) returns (k: nat)
      requires Layout(regions) && forall i :: 0 <= i < |regions| ==> regions[i].addr != r.addr
      modifies this
      ensures Inserted(old(regions), r, k, regions)
    {
      hide Layout, Inserted;
      ghost var rs := regions;
      Sandwich(rs, r, 0);
      if regions == [] {
        regions := [r];
        assert regions == rs[..0] + [r] + rs[0..];
        return 0;
      }
      var i := 0;
      while i < |regions|
        invariant 0 <= i < |regions| && regions == rs && (i > 0 ==> regions[i].addr < r.addr)
      {
        Sandwich(rs, r, i + 1);
        if r.addr < regions[i].addr {
          regions, k := [r] + regions[i..], 0;
          assert regions == rs[..0] + [r] + rs[0..];
          return;
        } else if r.addr > regions[i].addr && i + 1 < |regions| && r.addr < regions[i + 1].addr {
          regions, k := regions[..i + 1] + [r] + regions[i + 1..], i + 1;
          return;
        }
        if i + 1 == |regions| {
          regions, k := regions + [r], |regions|;
          assert regions == rs[..i + 1] + [r] + rs[i + 1..];
          return;
        }
        i := i + 1;
      }
    }

    /** The new region enters the list at an address; it gets its rounded length n last. */
    method Enter(addr: nat, length: nat, n: nat, shared: bool, prot: nat, offset: nat)
      requires Layout(regions) && n > 0 && forall i :: 0 <= i < |regions| ==> regions[i].addr != addr
      modifies this
      ensures exists k :: Inserted(old(regions), Region(addr, n, shared, prot, offset), k, regions)
      ensures addr % PGSIZE == n % PGSIZE == 0 && addr + n <= USERTOP && Fits(old(regions), addr, n) ==>
                Layout(regions) && forall a: nat :: Covered(regions, a) <==> Covered(old(regions), a) || addr <= a < addr + n
      ensures addr > USERTOP ==> !Layout(regions)
    {
      hide Layout, Fits, Covered;
      ghost var rs, region := regions, Region(addr, n, shared, prot, offset);
      var k := Insert(Region(addr, length, shared, prot, offset));
      regions := regions[k := Region(addr, n, shared, prot, offset)];
      assert Inserted(rs, region, k, regions);
      if addr > USERTOP { NotLaidOut(regions, k); }
      if Paged(region) && Fits(rs, addr, n) { InsertKeeps(rs, region, k, regions); }
    }

    /**
     mmap without MAP_FIXED, for the lengths sys_mmap lets through. `loads` tells
     whether a page is loaded at once: always for an anonymous mapping, for a
     file unless the offset is at its end. Loading fails only through the panic
     of walk beyond MAXVA.
     */
    method Mmap(hint: nat, length: nat, shared: bool, prot: nat, offset: nat, loads: bool) returns (r: MmapResult)
      requires Layout(regions) && hint < WORD && 0 < length < WORD / 2
      modifies this
      ensures r.Invalid? <==> hint != 0 && Wrap(Upper(hint, length)) > USERTOP
      ensures r.Invalid? || r.NoMemory? ==> regions == old(regions)
      ensures Wraps(hint, length) && !r.Invalid? ==>
                (r.NoMemory? <==> Wrap(Start(old(regions), hint) + Pages(length)) > USERTOP) && (r.Panic? <==> !r.NoMemory? && loads)
      ensures r.Panic? ==> Wraps(hint, length)
      ensures r.NoMemory? && !Wraps(hint, length) ==>
                forall a: nat :: Start(old(regions), hint) <= a && a + Pages(length) <= USERTOP ==> !Fits(old(regions), a, Pages(length))
      ensures r.Mapped? ==> exists k :: Inserted(old(regions), Region(r.addr, Pages(length), shared, prot, offset), k, regions)
      ensures r.Mapped? && !Wraps(hint, length) ==>
                && Layout(regions) && Lowest(old(regions), Start(old(regions), hint), Pages(length), r.addr)
                && (forall a: nat :: Covered(regions, a) <==> Covered(old(regions), a) || r.addr <= a < r.addr + Pages(length))
      ensures r.Mapped? && Wraps(hint, length) ==> r.addr == Start(old(regions), hint) && !loads && !Layout(regions)
    {
      hide Layout, Fits, Covered, Lowest, RoundUp, RoundDown, Pages, Upper;
      Rounding(hint, length);
      var n := RoundUp(length);
      var addr := hint;
      if addr != 0 {
        var upper := RoundUp(Add(RoundUp(addr), length));
        if upper > USERTOP {
          return Invalid;
        }
        addr := RoundDown(addr);
      } else if regions != [] {
        addr := regions[0].addr;
      } else {
        addr := MMAPBASE;
      }
      StartFacts(regions, hint, length);
      ghost var start, rs := addr, regions;
      addr := SelectAddr(addr, n);
      if Add(addr, n) > USERTOP {
        if !Wraps(hint, length) { LowestOnly(rs, start, n, addr); }
        return NoMemory;
      }
      FreshAddr(rs, start, n, addr);
      if !Wraps(hint, length) { LowestFits(rs, start, n, addr); }
      if Wraps(hint, length) { WrapsBeyond(rs, hint, length); }
      Enter(addr, length, n, shared, prot, offset);
      if loads && addr >= MAXVA {
        return Panic;
      }
      return Mapped(addr);
    }

    /** find_mmap_region, as the place of the region in the list. */
    method FindIndex(a: nat) returns (k: Option<nat>)
      requires Layout(regions)
      ensures k.Some? ==> k.value < |regions| && Contains(regions[k.value], a) && FindRegion(regions, a) == Some(regions[k.value])
      ensures k.None? ==> FindRegion(regions, a).None?
    {
      var i := 0;
      while i < |regions|
        invariant 0 <= i <= |regions| && forall j :: 0 <= j < i ==> !Contains(regions[j], a)
      {
        if Contains(regions[i], a) {
          FindUnambiguous(regions, a, i);
          return Some(i);
        }
        i := i + 1;
      }
      return None;
    }

    /** delete_mmap_node: the node is looked up by its address. */
    method DeleteNode(node: Region)
      requires Layout(regions)
      modifies this
      ensures forall k :: 0 <= k < |old(regions)| && old(regions)[k].addr == node.addr ==> regions == RemoveAt(old(regions), k)
      ensures (forall k :: 0 <= k < |old(regions)| ==> old(regions)[k].addr != node.addr) ==> regions == old(regions)
    {
      if regions == [] {
        return;
      }
      ghost var rs := regions;
      if node.addr == regions[0].addr {
        regions := regions[1..];
        forall k | 0 <= k < |rs| && rs[k].addr == node.addr ensures regions == RemoveAt(rs, k) {
          AddrsDiffer(rs, 0, k);
        }
      } else {
        var prev, i := 0, 0;
        while i < |regions|
          invariant 0 <= prev <= i <= |regions| && regions == rs && (i > 0 ==> prev == i - 1)
          invariant forall j :: 0 <= j < i ==> regions[j].addr != node.addr
        {
          if node.addr == regions[i].addr {
            regions := regions[..prev + 1] + regions[i + 1..];
            forall k | 0 <= k < |rs| && rs[k].addr == node.addr ensures regions == RemoveAt(rs, k) {
              AddrsDiffer(rs, i, k);
            }
            break;
          }
          prev := i;
          i := i + 1;
        }
      }
    }

    /** munmap of part of one region. Write-back of a shared file mapping succeeds. */
    method Munmap(addr: nat, length: nat) returns (ok: bool)
      requires Layout(regions) && addr < WORD && length < WORD
      modifies this
      ensures ok <==> addr % PGSIZE == 0
      ensures !ok || FindRegion(old(regions), addr).None? ==> regions == old(regions)
      ensures Layout(regions)
      ensures ok && FindRegion(old(regions), addr).Some? ==>
                exists k :: 0 <= k < |old(regions)| && Contains(old(regions)[k], addr) && regions == Replaced(old(regions), k, addr, RoundUp(length))
      ensures ok ==> match FindRegion(old(regions), addr)
                     case None => true
                     case Some(r) =>
                       var left := Left(r, addr, RoundUp(length));
                       forall a: nat :: Covered(regions, a) <==> Covered(old(regions), a) && (Contains(r, a) ==> left.Some? && Contains(left.value, a))
    {
      hide Layout, Covered;
      if addr % PGSIZE != 0 {
        return false;
      }
      var n := RoundUp(length);
      var k := FindIndex(addr);
      if k.None? {
        return true;
      }
      var r := regions[k.value];
      ghost var rs := regions;
      ReplaceKeeps(rs, k.value, addr, n);
      if r.length < n {
        n := r.length;
      }
      if r.length == n {
        DeleteNode(r);
      } else {
        if r.addr == addr {
          regions := regions[k.value := r.(addr := r.addr + n, offset := r.offset + n, length := r.length - n)];
        } else {
          regions := regions[k.value := r.(length := r.length - n)];
        }
      }
      assert regions == Replaced(rs, k.value, addr, RoundUp(length));
      return true;
    }
  }

  // ----- munmap -----

  lemma AddrsDiffer(rs: seq<Region>, i: nat, j: nat)
    requires Layout(rs) && i < |rs| && j < |rs| && rs[i].addr == rs[j].addr
    ensures i == j
  {
    assert Paged(rs[i]) && Paged(rs[j]);
  }

  /** What munmap leaves of a region for a request of n bytes at an address inside it. */
  function Left(r: Region, addr: nat, n: nat): (l: Option<Region>)
    ensures l.Some? && Contains(r, addr) ==> n < r.length && l.value.length == r.length - n
  {
    if n >= r.length then None
    else if addr == r.addr then Some(r.(addr := r.addr + n, length := r.length - n, offset := r.offset + n))
    else Some(r.(length := r.length - n))
  }

  /** The request is met exactly when it is empty, starts the region or ends it. */
  lemma LeftExactIff(r: Region, addr: nat, n: nat)
    requires Contains(r, addr)
    ensures (forall a: nat :: Contains(r, a) ==> (addr <= a < addr + n <==> !Remains(r, addr, n, a))) <==>
            n == 0 || addr == r.addr || addr + n == End(r)
  {
    if forall a: nat :: Contains(r, a) ==> (addr <= a < addr + n <==> !Remains(r, addr, n, a)) {
      assert !Remains(r, addr, n, addr) <==> n > 0;
      assert addr > r.addr ==> Remains(r, addr, n, r.addr);
      assert addr + n < End(r) ==> Remains(r, addr, n, End(r) - 1);
      assert addr > r.addr ==> Remains(r, addr, n, addr - 1);
    }
  }

  predicate Remains(r: Region, addr: nat, n: nat, a: nat) {
    var left := Left(r, addr, n);
    left.Some? && Contains(left.value, a)
  }

  /** An address that stays mapped keeps its place in the file. */
  lemma LeftKeepsOffset(r: Region, addr: nat, n: nat, a: nat)
    requires Remains(r, addr, n, a) && Contains(r, addr)
    ensures var left := Left(r, addr, n).value;
            Contains(r, a) && left.offset + (a - left.addr) == r.offset + (a - r.addr) && left.shared == r.shared && left.prot == r.prot
  {
  }

  /** Three pages are mapped and the middle one is unmapped: it stays in the list and the last one goes. */
  method MiddleExample() returns (addr: nat, space: AddressSpace)
    ensures Layout(space.regions) && Covered(space.regions, addr + PGSIZE) && !Covered(space.regions, addr + 2 * PGSIZE)
  {
    hide Layout, Covered, RoundUp, Pages, Lowest, Fits, Inserted, Replaced;
    space := new AddressSpace();
    ThreePages();
    var r := space.Mmap(0, 3 * PGSIZE, false, 3, 0, true);
    addr := MMAPBASE;
    FirstMapping(r.addr);
    ghost var region := Region(MMAPBASE, 3 * PGSIZE, false, 3, 0);
    ghost var k :| Inserted([], region, k, space.regions);
    InsertedFirst(region, k, space.regions);
    assert space.regions[0] == region;
    FindUnambiguous(space.regions, MMAPBASE + PGSIZE, 0);
    var ok := space.Munmap(MMAPBASE + PGSIZE, PGSIZE);
    OneCovers(region, MMAPBASE + PGSIZE);
    OneCovers(region, MMAPBASE + 2 * PGSIZE);
  }

  lemma ThreePages()
    ensures Pages(3 * PGSIZE) == 3 * PGSIZE && RoundUp(PGSIZE) == PGSIZE && Fits([], MMAPBASE, 3 * PGSIZE)
  {
  }

  lemma FirstMapping(a: nat)
    requires Lowest([], MMAPBASE, 3 * PGSIZE, a)
    ensures a == MMAPBASE
  {
    assert a > MMAPBASE ==> Fits([], MMAPBASE, 3 * PGSIZE);
  }

  lemma InsertedFirst(r: Region, k: nat, rs: seq<Region>)
    requires Inserted([], r, k, rs)
    ensures rs == [r]
  {
  }

  lemma OneCovers(r: Region, a: nat)
    ensures Covered([r], a) <==> Contains(r, a)
  {
    assert [r][0] == r;
  }

  ghost function Replaced(rs: seq<Region>, k: nat, addr: nat, n: nat): seq<Region>
    requires k < |rs|
  {
    match Left(rs[k], addr, n)
    case None => RemoveAt(rs, k)
    case Some(r) => rs[k := r]
  }

  lemma RemoveLayout(rs: seq<Region>, k: nat)
    requires Layout(rs) && k < |rs|
    ensures Layout(RemoveAt(rs, k))
  {
    hide Paged, End;
    forall i | 0 <= i < |rs| - 1 ensures RemoveAt(rs, k)[i] == rs[if i < k then i else i + 1] { }
  }

  lemma ShrinkLayout(rs: seq<Region>, k: nat, r: Region)
    requires Layout(rs) && k < |rs| && Paged(r) && rs[k].addr <= r.addr && End(r) <= End(rs[k])
    ensures Layout(rs[k := r])
  {
    hide Paged, End;
  }

  lemma ReplaceLayout(rs: seq<Region>, k: nat, addr: nat, n: nat)
    requires Layout(rs) && k < |rs| && n % PGSIZE == 0
    ensures Layout(Replaced(rs, k, addr, n))
  {
    assert Paged(rs[k]);
    hide Layout, RemoveAt;
    match Left(rs[k], addr, n) {
      case None => RemoveLayout(rs, k);
      case Some(r) => ShrinkLayout(rs, k, r);
    }
  }

  lemma ReplaceKeeps(rs: seq<Region>, k: nat, addr: nat, n: nat)
    requires Layout(rs) && k < |rs| && Contains(rs[k], addr) && n % PGSIZE == 0
    ensures Layout(Replaced(rs, k, addr, n))
    ensures forall a: nat :: Covered(Replaced(rs, k, addr, n), a) <==> Covered(rs, a) && (Contains(rs[k], a) ==> Remains(rs[k], addr, n, a))
  {
    ReplaceLayout(rs, k, addr, n);
    forall a: nat ensures Covered(Replaced(rs, k, addr, n), a) <==> Covered(rs, a) && (Contains(rs[k], a) ==> Remains(rs[k], addr, n, a)) {
      ReplaceCovers(rs, k, addr, n, a);
    }
  }

  ghost predicate CoveredElse(rs: seq<Region>, k: nat, a: nat) {
    exists i :: 0 <= i < |rs| && i != k && Contains(rs[i], a)
  }

  lemma RemoveCovers(rs: seq<Region>, k: nat, a: nat)
    requires k < |rs|
    ensures Covered(RemoveAt(rs, k), a) <==> CoveredElse(rs, k, a)
  {
    var rs' := RemoveAt(rs, k);
    if CoveredElse(rs, k, a) {
      var i :| 0 <= i < |rs| && i != k && Contains(rs[i], a);
      assert Contains(rs'[if i > k then i - 1 else i], a);
    }
    if Covered(rs', a) {
      var i :| 0 <= i < |rs'| && Contains(rs'[i], a);
      assert Contains(rs[if i >= k then i + 1 else i], a);
    }
  }

  lemma UpdateCovers(rs: seq<Region>, k: nat, r: Region, a: nat)
    requires k < |rs|
    ensures Covered(rs[k := r], a) <==> CoveredElse(rs, k, a) || Contains(r, a)
  {
    if CoveredElse(rs, k, a) {
      var i :| 0 <= i < |rs| && i != k && Contains(rs[i], a);
      assert Contains(rs[k := r][i], a);
    }
    assert rs[k := r][k] == r;
  }

  lemma ElseApart(rs: seq<Region>, k: nat, a: nat)
    requires Layout(rs) && k < |rs| && Contains(rs[k], a)
    ensures !CoveredElse(rs, k, a)
  {
    FindUnambiguous(rs, a, k);
  }

  lemma ReplaceCovers(rs: seq<Region>, k: nat, addr: nat, n: nat, a: nat)
    requires Layout(rs) && k < |rs| && Contains(rs[k], addr)
    ensures Covered(Replaced(rs, k, addr, n), a) <==> Covered(rs, a) && (Contains(rs[k], a) ==> Remains(rs[k], addr, n, a))
  {
    hide Covered, CoveredElse, Layout, RemoveAt;
    RemoveCovers(rs, k, a);
    UpdateCovers(rs, k, rs[k], a);
    assert rs[k := rs[k]] == rs;
    if Contains(rs[k], a) { ElseApart(rs, k, a); }
    match Left(rs[k], addr, n) {
      case None =>
      case Some(r) => UpdateCovers(rs, k, r, a);
    }
  }

  /** The rounded end of the request, without wrap-around. */
  function Upper(hint: nat, length: nat): nat {
    Pages(Pages(hint) + length)
  }

  function Pages(n: nat): nat {
    RoundDown(n + PGSIZE - 1)
  }

  /** The end of the request does not fit 64 bits. */
  predicate Wraps(hint: nat, length: nat) {
    hint != 0 && Upper(hint, length) >= WORD
  }

  /** Rounding to pages commutes with 64-bit wrap-around. */
  lemma RoundDownWrap(x: nat)
    ensures RoundDown(Wrap(x)) == Wrap(RoundDown(x))
  {
    var q, y := x / WORD, x % WORD;
    var z := y / PGSIZE;
    assert x == (q * 0x10_0000_0000_0000 + z) * PGSIZE + y % PGSIZE;
    assert x / PGSIZE == q * 0x10_0000_0000_0000 + z;
    assert RoundDown(x) == q * WORD + RoundDown(y);
  }

  lemma RoundWrap(a: nat)
    ensures RoundUp(a) == Wrap(Pages(a)) && RoundUp(Wrap(a)) == Wrap(Pages(a))
  {
    hide RoundDown, Wrap;
    RoundDownWrap(a + PGSIZE - 1);
    ModAdd(a, PGSIZE - 1);
  }

  lemma Rounding(hint: nat, length: nat)
    requires hint < WORD && 0 < length < WORD / 2
    ensures RoundUp(Add(RoundUp(hint), length)) == Wrap(Upper(hint, length))
    ensures RoundUp(length) == Pages(length) && 0 < Pages(length) <= WORD / 2 && Pages(length) % PGSIZE == 0
  {
    PagesBound(length);
    hide RoundUp, Pages, Wrap;
    RoundWrap(hint);
    RoundWrap(Pages(hint) + length);
    RoundWrap(length);
    ModAdd(Pages(hint), length);
  }

  lemma PagesBound(length: nat)
    requires 0 < length < WORD / 2
    ensures 0 < Pages(length) <= WORD / 2 && Pages(length) % PGSIZE == 0 && Wrap(Pages(length)) == Pages(length)
  {
  }

  lemma ModAdd(a: nat, b: nat)
    ensures Add(Wrap(a), b) == Add(a, b)
  {
    var q := a / WORD;
    assert a == q * WORD + a % WORD;
    assert a + b == q * WORD + (a % WORD + b);
  }

  lemma StartFacts(rs: seq<Region>, hint: nat, length: nat)
    requires Layout(rs) && hint < WORD && 0 < length < WORD / 2 && (hint != 0 ==> Wrap(Upper(hint, length)) <= USERTOP)
    ensures Start(rs, hint) % PGSIZE == 0 && Start(rs, hint) < WORD
    ensures Wraps(hint, length) <==> Start(rs, hint) > USERTOP
  {
    if rs != [] { assert Paged(rs[0]); }
  }

  lemma WrapsBeyond(rs: seq<Region>, hint: nat, length: nat)
    requires hint < WORD && 0 < length < WORD / 2 && Wraps(hint, length)
    ensures Start(rs, hint) >= MAXVA
  {
  }

  lemma LowestOnly(rs: seq<Region>, start: nat, n: nat, a: nat)
    requires Lowest(rs, start, n, a) && a + n > USERTOP
    ensures forall x: nat :: start <= x && x + n <= USERTOP ==> !Fits(rs, x, n)
  {
  }

  lemma LowestFits(rs: seq<Region>, start: nat, n: nat, a: nat)
    requires Lowest(rs, start, n, a)
    ensures Fits(rs, a, n)
  {
  }

  lemma FreshAddr(rs: seq<Region>, start: nat, n: nat, a: nat)
    requires Layout(rs) && n > 0
    requires if start <= USERTOP then Lowest(rs, start, n, a) else a == start
    ensures forall i :: 0 <= i < |rs| ==> rs[i].addr != a
  {
    forall i | 0 <= i < |rs| ensures rs[i].addr != a { assert Paged(rs[i]); }
  }

  lemma NotLaidOut(rs: seq<Region>, k: nat)
    requires k < |rs| && rs[k].addr > USERTOP
    ensures !Layout(rs)
  {
    assert !Paged(rs[k]);
  }

  /** A hint at the top of the 64-bit range wraps past the check against USERTOP. */
  method WrapExample(loads: bool) returns (r: MmapResult, space: AddressSpace)
    ensures if loads then r == Panic else r == Mapped(WORD - PGSIZE) && !Layout(space.regions)
  {
    hide Layout, Lowest, Fits, Inserted, Pages, Upper, Wrap, Start;
    space := new AddressSpace();
    TopWraps();
    r := space.Mmap(WORD - PGSIZE, 2 * PGSIZE, false, 3, 0, loads);
  }

  lemma TopWraps()
    ensures Wraps(WORD - PGSIZE, 2 * PGSIZE) && Wrap(Upper(WORD - PGSIZE, 2 * PGSIZE)) <= USERTOP
    ensures Start([], WORD - PGSIZE) == WORD - PGSIZE
    ensures Wrap(WORD - PGSIZE + Pages(2 * PGSIZE)) <= USERTOP
  {
  }
}
