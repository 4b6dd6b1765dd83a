/** The per-process list of mapped regions. */
module MmapRegions {
  import opened Wrappers

  datatype Region = Region(addr: nat, length: nat, shared: bool, prot: nat, offset: nat)

  predicate Contains(r: Region, a: nat) {
    r.addr <= a < r.addr + r.length
  }

  /** find_mmap_region: the first region of the list that contains the address. */
  function FindRegion(regions: seq<Region>, a: nat): (r: Option<Region>)
    ensures r.Some? ==> r.value in regions && Contains(r.value, a)
    ensures r.None? ==> forall i :: 0 <= i < |regions| ==> !Contains(regions[i], a)
  {
    if regions == [] then None
    else if Contains(regions[0], a) then Some(regions[0])
    else FindRegion(regions[1..], a)
  }

  /** The first region of the list that reaches over address a is region i. */
  ghost predicate FirstOver(regions: seq<Region>, a: nat, i: nat) {
    && i < |regions| && regions[i].addr <= a < regions[i].addr + regions[i].length
    && forall j :: 0 <= j < i ==> !(regions[j].addr <= a < regions[j].addr + regions[j].length)
  }

  /** Address a belongs to a MAP_SHARED region. */
  ghost predicate SharedAt(regions: seq<Region>, a: nat) {
    exists i: nat :: FirstOver(regions, a, i) && regions[i].shared
  }

  /** The region found is the first one over the address. */
  lemma {:induction false} FoundFirst(regions: seq<Region>, a: nat)
    ensures FindRegion(regions, a).Some? ==> exists i: nat :: FirstOver(regions, a, i) && FindRegion(regions, a) == Some(regions[i])
    ensures FindRegion(regions, a).None? ==> forall i :: 0 <= i < |regions| ==> !(regions[i].addr <= a < regions[i].addr + regions[i].length)
  {
    if regions != [] {
      if Contains(regions[0], a) {
        assert FirstOver(regions, a, 0);
      } else {
        FoundFirst(regions[1..], a);
        if i: nat :| FirstOver(regions[1..], a, i) && FindRegion(regions[1..], a) == Some(regions[1..][i]) {
          assert forall j :: 0 < j < |regions| ==> regions[j] == regions[1..][j - 1];
          assert FirstOver(regions, a, i + 1);
        }
      }
    }
  }

  lemma FoundShared(regions: seq<Region>, a: nat)
    ensures SharedAt(regions, a) <==> FindRegion(regions, a).Some? && FindRegion(regions, a).value.shared
  {
    FoundFirst(regions, a);
  }
}
