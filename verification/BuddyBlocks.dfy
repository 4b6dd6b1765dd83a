/**
 Theory of power-of-two page blocks: alignment, buddies, tilings of the page
 array, and the fact that a fully coalesced set of free blocks is determined by
 the pages it covers.
 */
module BuddyBlocks {

  const PAGE_MAX_ORDER: nat := 10
  const PAGE_MAX_DEPTH: nat := PAGE_MAX_ORDER + 1

  function Pow2(k: nat): (p: nat)
    ensures p > 0
  {
    if k == 0 then 1 else 2 * Pow2(k - 1)
  }

  predicate Aligned(h: nat, k: nat) {
    h % Pow2(k) == 0
  }

  /** Block (h, k) is the second half of its pair. */
  predicate BackHalf(h: nat, k: nat) {
    (h / Pow2(k)) % 2 == 1
  }

  /** Index of the other half of the pair that block (h, k) belongs to. */
  function BuddyIndex(h: nat, k: nat): int {
    if BackHalf(h, k) then h - Pow2(k) else h + Pow2(k)
  }

  // ----- arithmetic -----

  lemma MulOrder(a: int, b: int, p: int)
    requires p > 0
    ensures a < b <==> a * p < b * p
    ensures a < b ==> a * p + p <= b * p
  {
    assert b * p - a * p == (b - a) * p;
    assert b - a >= 1 ==> (b - a) * p >= p;
    assert b - a <= 0 ==> (b - a) * p <= 0;
  }

  lemma DivModUnique(x: int, p: int, q: int, r: int)
    requires p > 0 && 0 <= r < p && x == q * p + r
    ensures x / p == q && x % p == r
  {
    assert x == (x / p) * p + x % p;
    MulOrder(x / p, q, p);
    MulOrder(q, x / p, p);
  }

  lemma HalvesArith(h: nat, p: nat)
    requires p > 0 && h % (2 * p) == 0
    ensures h % p == 0 && (h / p) % 2 == 0
    ensures (h + p) % p == 0 && ((h + p) / p) % 2 == 1
  {
    var m := h / (2 * p);
    assert h == (2 * m) * p + 0;
    DivModUnique(h, p, 2 * m, 0);
    DivModUnique(h + p, p, 2 * m + 1, 0);
  }

  lemma JoinArith(h: nat, p: nat)
    requires p > 0 && h % p == 0
    ensures if (h / p) % 2 == 1 then h >= p && (h - p) % (2 * p) == 0 else h % (2 * p) == 0
  {
    var m := h / p;
    var t := m / 2;
    assert h == m * p;
    if m % 2 == 1 {
      assert h - p == t * (2 * p) + 0 by { assert m == 2 * t + 1; assert h == (2 * t + 1) * p; }
      MulOrder(0, m, p);
      DivModUnique(h - p, 2 * p, t, 0);
    } else {
      assert h == t * (2 * p) + 0 by { assert m == 2 * t; }
      DivModUnique(h, 2 * p, t, 0);
    }
  }

  /** Multiples a and c .. c + s of p, as intervals of length p and s * p. */
  lemma NestArith(h: nat, p: nat, g: nat, s: nat)
    requires p > 0 && s > 0 && h % p == 0 && g % (s * p) == 0
    requires h < g + s * p && g < h + p
    ensures g <= h && h + p <= g + s * p
  {
    var a := h / p;
    var c := (g / (s * p)) * s;
    assert h == a * p;
    assert g == c * p by { assert g == (g / (s * p)) * (s * p); }
    assert g + s * p == (c + s) * p;
    MulOrder(a, c + s, p);
    assert (a + 1) * p == h + p;
    MulOrder(c, a + 1, p);
    MulOrder(a, c, p);
  }

  lemma MulAssoc(a: int, b: int, c: int)
    ensures a * (b * c) == (a * b) * c
  {
  }

  lemma {:induction false} Pow2Split(k: nat, j: nat)
    requires k <= j
    ensures Pow2(j) == Pow2(j - k) * Pow2(k)
    decreases j - k
  {
    if k < j {
      Pow2Split(k, j - 1);
      MulAssoc(2, Pow2(j - 1 - k), Pow2(k));
    }
  }

  lemma Pow2Succ(k: nat)
    ensures Pow2(k + 1) == 2 * Pow2(k)
  {
  }

  /** A block of order k + 1 splits into two blocks of order k that are buddies. */
  lemma SplitPair(h: nat, k: nat)
    requires Aligned(h, k + 1)
    ensures Aligned(h, k) && Aligned(h + Pow2(k), k)
    ensures BuddyIndex(h, k) == h + Pow2(k) && BuddyIndex(h + Pow2(k), k) == h
  {
    HalvesArith(h, Pow2(k));
  }

  /** An aligned block is the front or the back half of an aligned block one order up. */
  lemma JoinPair(h: nat, k: nat)
    requires Aligned(h, k)
    ensures var b := BuddyIndex(h, k);
            if BackHalf(h, k) then 0 <= b && h == b + Pow2(k) && Aligned(b, k + 1)
            else b == h + Pow2(k) && Aligned(h, k + 1)
  {
    JoinArith(h, Pow2(k));
  }

  lemma BuddyInvolution(h: nat, k: nat)
    requires Aligned(h, k)
    ensures var b := BuddyIndex(h, k); 0 <= b && b != h && Aligned(b, k) && BuddyIndex(b, k) == h
    ensures BackHalf(h, k) != BackHalf(BuddyIndex(h, k), k)
  {
    JoinPair(h, k);
    SplitPair(if BackHalf(h, k) then h - Pow2(k) else h, k);
  }

  /** Two aligned blocks that share a page are nested. */
  lemma Nested(h: nat, k: nat, g: nat, j: nat)
    requires Aligned(h, k) && Aligned(g, j) && k <= j
    requires h < g + Pow2(j) && g < h + Pow2(k)
    ensures g <= h && h + Pow2(k) <= g + Pow2(j)
  {
    Pow2Split(k, j);
    NestArith(h, Pow2(k), g, Pow2(j - k));
  }

  // ----- sets of blocks: head page -> order -----

  ghost predicate Covers(b: map<nat, nat>, h: nat, q: nat) {
    h in b && h <= q < h + Pow2(b[h])
  }

  ghost predicate Covered(b: map<nat, nat>, q: nat) {
    exists h :: Covers(b, h, q)
  }

  /** Aligned blocks of legal order that do not overlap. */
  ghost predicate Separate(b: map<nat, nat>, n: nat) {
    && (forall h :: h in b ==> b[h] <= PAGE_MAX_ORDER && Aligned(h, b[h]) && h + Pow2(b[h]) <= n)
    && (forall g, h :: g in b && h in b && g < h ==> g + Pow2(b[g]) <= h)
  }

  /** The blocks partition the pages 0..n. */
  ghost predicate Tiling(b: map<nat, nat>, n: nat) {
    Separate(b, n) && forall q :: 0 <= q < n ==> Covered(b, q)
  }

  lemma TilingBlock(b: map<nat, nat>, n: nat, h: nat)
    requires Tiling(b, n) && h in b
    ensures b[h] <= PAGE_MAX_ORDER && Aligned(h, b[h]) && h + Pow2(b[h]) <= n
  {
  }

  lemma CoalescedRemove(f: map<nat, nat>, h: nat)
    requires Coalesced(f)
    ensures Coalesced(f - {h})
  {
    hide Pow2, BuddyIndex;
  }

  lemma SplitSeparate(b: map<nat, nat>, n: nat, h: nat, k: nat, h': nat)
    requires Separate(b, n) && h in b && b[h] == k + 1 && h' == h + Pow2(k)
    ensures h' !in b && Separate(b[h := k][h' := k], n)
  {
    hide Pow2, Aligned, BuddyIndex, BackHalf;
    Pow2Succ(k);
    SplitPair(h, k);
  }

  /** Covering only depends on the block that covers, so it survives any change that still covers its range. */
  lemma CoverStep(b: map<nat, nat>, c: map<nat, nat>, n: nat, h: nat, h': nat, k: nat)
    requires h' == h + Pow2(k) && h in c
    requires forall g :: g in b && g != h && g != h' ==> g in c && c[g] == b[g]
    requires (h in b && b[h] == k + 1 && h' !in b && c[h] == k && h' in c && c[h'] == k)
          || (h in b && b[h] == k && h' in b && b[h'] == k && c[h] == k + 1)
    requires forall q :: 0 <= q < n ==> Covered(b, q)
    ensures forall q :: 0 <= q < n ==> Covered(c, q)
  {
    hide Pow2;
    Pow2Succ(k);
    forall q | 0 <= q < n ensures Covered(c, q) {
      assert Covered(b, q);
      var g :| Covers(b, g, q);
      if g != h && g != h' {
        assert Covers(c, g, q);
      } else if q < h' || c[h] == k + 1 {
        assert Covers(c, h, q);
      } else {
        assert Covers(c, h', q);
      }
    }
  }

  lemma SplitTiling(b: map<nat, nat>, n: nat, h: nat, k: nat, h': nat)
    requires Tiling(b, n) && h in b && b[h] == k + 1 && h' == h + Pow2(k)
    ensures h' !in b && Tiling(b[h := k][h' := k], n)
  {
    SplitSeparate(b, n, h, k, h');
    hide Separate, Pow2, Covered;
    CoverStep(b, b[h := k][h' := k], n, h, h', k);
  }

  lemma JoinSeparate(b: map<nat, nat>, n: nat, h: nat, k: nat, h': nat)
    requires Separate(b, n) && k < PAGE_MAX_ORDER && Aligned(h, k + 1) && h' == h + Pow2(k)
    requires h in b && b[h] == k && h' in b && b[h'] == k
    ensures Separate((b - {h'})[h := k + 1], n)
  {
    hide Pow2, Aligned, BuddyIndex, BackHalf;
    Pow2Succ(k);
  }

  lemma JoinTiling(b: map<nat, nat>, n: nat, h: nat, k: nat, h': nat)
    requires Tiling(b, n) && k < PAGE_MAX_ORDER && Aligned(h, k + 1) && h' == h + Pow2(k)
    requires h in b && b[h] == k && h' in b && b[h'] == k
    ensures Tiling((b - {h'})[h := k + 1], n)
  {
    JoinSeparate(b, n, h, k, h');
    hide Separate, Pow2, Covered, Aligned;
    CoverStep(b, (b - {h'})[h := k + 1], n, h, h', k);
  }

  // ----- full coalescing -----

  /** No block below the maximum order has its buddy present at the same order. */
  ghost predicate Coalesced(f: map<nat, nat>) {
    forall h :: h in f && f[h] < PAGE_MAX_ORDER ==> !IsBlock(f, BuddyIndex(h, f[h]), f[h])
  }

  ghost predicate IsBlock(f: map<nat, nat>, b: int, k: nat) {
    0 <= b && b in f && f[b] == k
  }

  lemma NoFreeBuddy(f: map<nat, nat>, h: nat)
    requires Coalesced(f) && h in f && f[h] < PAGE_MAX_ORDER
    ensures !IsBlock(f, BuddyIndex(h, f[h]), f[h])
  {
  }

  lemma CoalescedInsert(f: map<nat, nat>, n: nat, h: nat, k: nat)
    requires Separate(f, n) && Coalesced(f) && h !in f && Aligned(h, k)
    requires k < PAGE_MAX_ORDER ==> !IsBlock(f, BuddyIndex(h, k), k)
    ensures Coalesced(f[h := k])
  {
    hide Pow2, Aligned, BuddyIndex, BackHalf;
    var f' := f[h := k];
    forall g | g in f' && f'[g] < PAGE_MAX_ORDER ensures !IsBlock(f', BuddyIndex(g, f'[g]), f'[g]) {
      BuddyInvolution(g, f'[g]);
    }
  }

  lemma SeparateSubset(b: map<nat, nat>, f: map<nat, nat>, n: nat)
    requires Separate(b, n) && forall h :: h in f ==> h in b && f[h] == b[h]
    ensures Separate(f, n)
  {
    hide Pow2, Aligned, BuddyIndex, BackHalf;
  }

  /** A block of f that contains the whole aligned region (g, j). */
  ghost predicate Inside(f: map<nat, nat>, h: nat, g: nat, j: nat) {
    h in f && f[h] >= j && h <= g && g + Pow2(j) <= h + Pow2(f[h])
  }

  /** A block that holds one half of a region and is bigger than that half holds the region. */
  lemma Widen(f: map<nat, nat>, n: nat, h: nat, g: nat, j: nat, half: nat)
    requires Separate(f, n) && Aligned(g, j + 1) && (half == g || half == g + Pow2(j))
    requires Inside(f, h, half, j)
    ensures h in f && (Inside(f, h, g, j + 1) || (IsBlock(f, half, j) && h == half))
  {
    hide Pow2, Aligned, BuddyIndex, BackHalf;
    Pow2Succ(j);
    if f[h] > j { Nested(g, j + 1, h, f[h]); }
  }

  /** Every page of the region (g, j) is covered. */
  ghost predicate RegionCovered(f: map<nat, nat>, g: nat, j: nat) {
    forall q :: g <= q < g + Pow2(j) ==> Covered(f, q)
  }

  lemma RegionHalves(f: map<nat, nat>, g: nat, j: nat)
    requires RegionCovered(f, g, j + 1)
    ensures RegionCovered(f, g, j) && RegionCovered(f, g + Pow2(j), j)
  {
    Pow2Succ(j);
  }

  lemma RegionPage(f: map<nat, nat>, g: nat) returns (h: nat)
    requires RegionCovered(f, g, 0)
    ensures Inside(f, h, g, 0)
  {
    assert Covered(f, g);
    h :| Covers(f, h, g);
  }

  /** In a coalesced set, an aligned region all of whose pages are covered lies inside one block. */
  lemma {:induction false} Absorb(f: map<nat, nat>, n: nat, g: nat, j: nat) returns (h: nat)
    requires Separate(f, n) && Coalesced(f) && Aligned(g, j) && j <= PAGE_MAX_ORDER
    requires RegionCovered(f, g, j)
    ensures Inside(f, h, g, j)
    decreases j
  {
    hide Pow2, Aligned, BuddyIndex, BackHalf, Separate, Coalesced, RegionCovered, Inside;
    if j == 0 {
      h := RegionPage(f, g);
    } else {
      SplitPair(g, j - 1);
      RegionHalves(f, g, j - 1);
      h := Absorb(f, n, g, j - 1);
      Widen(f, n, h, g, j - 1, g);
      if !Inside(f, h, g, j) {
        NoFreeBuddy(f, h);
        h := Absorb(f, n, g + Pow2(j - 1), j - 1);
        Widen(f, n, h, g, j - 1, g + Pow2(j - 1));
      }
    }
  }

  lemma BlockWithin(f: map<nat, nat>, f': map<nat, nat>, n: nat, h: nat) returns (g: nat)
    requires Separate(f, n) && Separate(f', n) && Coalesced(f')
    requires forall q :: 0 <= q < n && Covered(f, q) ==> Covered(f', q)
    requires h in f
    ensures Inside(f', g, h, f[h])
  {
    hide Pow2, Aligned, BuddyIndex, BackHalf;
    forall q | h <= q < h + Pow2(f[h]) ensures Covered(f', q) {
      assert Covers(f, h, q);
    }
    assert RegionCovered(f', h, f[h]);
    g := Absorb(f', n, h, f[h]);
  }

  lemma SubsetOfBlocks(f: map<nat, nat>, f': map<nat, nat>, n: nat, h: nat)
    requires Separate(f, n) && Separate(f', n) && Coalesced(f) && Coalesced(f')
    requires forall q :: 0 <= q < n ==> (Covered(f, q) <==> Covered(f', q))
    requires h in f
    ensures h in f' && f'[h] == f[h]
  {
    hide Pow2, Aligned, BuddyIndex, BackHalf;
    var g := BlockWithin(f, f', n, h);
    var h' := BlockWithin(f', f, n, g);
    assert Covers(f, h', h) && Covers(f, h, h);
  }

  /**
   Canonical form: a coalesced set of free blocks is determined by the pages it
   covers, so it does not depend on the history of allocations and frees.
   */
  lemma Canonical(f: map<nat, nat>, f': map<nat, nat>, n: nat)
    requires Separate(f, n) && Separate(f', n) && Coalesced(f) && Coalesced(f')
    requires forall q :: 0 <= q < n ==> (Covered(f, q) <==> Covered(f', q))
    ensures f == f'
  {
    hide Pow2, Aligned, BuddyIndex, BackHalf;
    forall h | h in f ensures h in f' && f'[h] == f[h] { SubsetOfBlocks(f, f', n, h); }
    forall h | h in f' ensures h in f && f[h] == f'[h] { SubsetOfBlocks(f', f, n, h); }
  }

  /** The free part of a tiling covers exactly the pages the rest of it does not. */
  lemma ComplementCover(b: map<nat, nat>, a: map<nat, nat>, f: map<nat, nat>, n: nat, q: nat)
    requires Tiling(b, n) && a.Keys !! f.Keys && b == a + f && q < n
    ensures Covered(f, q) <==> !Covered(a, q)
  {
    hide Pow2, Aligned, BuddyIndex, BackHalf;
    assert Covered(b, q);
    var h :| Covers(b, h, q);
    if h in f { assert Covers(f, h, q); } else { assert Covers(a, h, q); }
    assert forall x :: Covers(f, x, q) ==> Covers(b, x, q);
    assert forall x :: Covers(a, x, q) ==> Covers(b, x, q);
  }
}
