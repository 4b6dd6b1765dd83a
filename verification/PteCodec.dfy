/** The bit layout of page table entries and the digits of a virtual address, on 64-bit words. */
module PteCodec {
  import PageTable
  import opened BuddyBlocks

  /** The cache attribute bits 63 to 59. */
  const ATTRIBUTES: bv64 := 0xF800_0000_0000_0000
  const FLAG_MASK: bv64 := ATTRIBUTES | 0x3FF
  const MAXVA: bv64 := 0x40_0000_0000

  function Pa2Pte(pa: bv64): bv64 {
    (pa >> 12) << 10
  }

  function Pte2Pa(pte: bv64): bv64 {
    ((pte & !ATTRIBUTES) >> 10) << 12
  }

  function PteFlags(pte: bv64): bv64 {
    pte & FLAG_MASK
  }

  function Px(level: nat, va: bv64): bv64
    requires level <= 2
  {
    And(if level == 2 then Right30(va) else if level == 1 then Right21(va) else Right12(va), 0x1FF)
  }

  /** Every entry is its address and its flags, and nothing else. */
  lemma PteSplits(pte: bv64)
    ensures Pa2Pte(Pte2Pa(pte)) | PteFlags(pte) == pte
    ensures Pa2Pte(Pte2Pa(pte)) & PteFlags(pte) == 0
  {
  }

  /** An address and flags are read back from the entry they make exactly when the address is a page below 2^61. */
  lemma PteRoundTripIff(pa: bv64, flags: bv64)
    requires flags & !FLAG_MASK == 0
    ensures Pte2Pa(Pa2Pte(pa) | flags) == pa && PteFlags(Pa2Pte(pa) | flags) == flags <==> pa & 0xFFF == 0 && pa >> 61 == 0
  {
  }

  /** Below MAXVA an address is its three digits and its offset. */
  lemma DigitsCompose(va: bv64)
    requires va < MAXVA
    ensures (Px(2, va) << 30) | (Px(1, va) << 21) | (Px(0, va) << 12) | (va & 0xFFF) == va
  {
  }

  // ----- words as numbers -----

  function Half(x: bv64): bv64 {
    x >> 1
  }

  predicate Odd(x: bv64) {
    x & 1 == 1
  }

  lemma HalfSmaller(x: bv64)
    ensures x != 0 ==> Half(x) < x
    ensures Half(0) == 0 && !Odd(0)
  {
  }

  /** The number a word stands for. */
  function Num(x: bv64): nat
    decreases x
  {
    HalfSmaller(x);
    if x == 0 then 0 else 2 * Num(Half(x)) + (if Odd(x) then 1 else 0)
  }

  lemma NumHalf(x: bv64)
    ensures Num(x) == 2 * Num(Half(x)) + (if Odd(x) then 1 else 0)
  {
    HalfSmaller(x);
    hide Half, Odd;
  }

  function Next(x: bv64): bv64 {
    x + 1
  }

  predicate IsLast(x: bv64) {
    x == 0xFFFF_FFFF_FFFF_FFFF
  }

  lemma HalfOfNext(x: bv64)
    ensures !Odd(x) ==> Odd(Next(x)) && Half(Next(x)) == Half(x)
    ensures Odd(x) && !IsLast(x) ==> !Odd(Next(x)) && Half(Next(x)) == Next(Half(x))
    ensures !IsLast(Half(x))
  {
  }

  /** Numbers count words: zero is 0 (NumZero), and the next word is the next number. */
  lemma {:induction false} NumCounts(x: bv64)
    requires !IsLast(x)
    ensures Num(Next(x)) == Num(x) + 1
    decreases Num(x)
  {
    hide Half, Odd, Num, Next, IsLast;
    HalfOfNext(x);
    NumHalf(x);
    NumHalf(Next(x));
    if Odd(x) { NumCounts(Half(x)); }
  }

  function Shifted(x: bv64, k: nat): bv64 {
    if k == 0 then x else Shifted(Half(x), k - 1)
  }

  lemma QuotientHalf(n: nat, h: nat, b: nat, p: nat)
    requires p > 0 && b < 2 && n == 2 * h + b
    ensures n / (2 * p) == h / p && n % (2 * p) == 2 * (h % p) + b
  {
    DivModUnique(h, p, h / p, h % p);
    assert h == h / p * p + h % p;
    assert n == (h / p) * (2 * p) + (2 * (h % p) + b);
    DivModUnique(n, 2 * p, h / p, 2 * (h % p) + b);
  }

  /** Shifting by k bits divides by 2^k. */
  lemma {:induction false} NumShifted(x: bv64, k: nat)
    ensures Num(Shifted(x, k)) == Num(x) / Pow2(k)
    decreases k
  {
    hide Half, Odd, Num;
    if k > 0 {
      NumShifted(Half(x), k - 1);
      NumHalf(x);
      QuotientHalf(Num(x), Num(Half(x)), if Odd(x) then 1 else 0, Pow2(k - 1));
    }
  }

  function And(x: bv64, m: bv64): bv64 {
    x & m
  }

  function Widen(m: bv64): bv64 {
    (m << 1) | 1
  }

  function Mask(k: nat): bv64 {
    if k == 0 then 0 else Widen(Mask(k - 1))
  }

  lemma MaskBit(x: bv64, m: bv64)
    ensures Half(And(x, Widen(m))) == And(Half(x), m) && (Odd(And(x, Widen(m))) <==> Odd(x))
    ensures And(x, 0) == 0
  {
  }

  /** Masking with k bits takes the remainder by 2^k. */
  lemma {:induction false} NumMasked(x: bv64, k: nat)
    ensures Num(And(x, Mask(k))) == Num(x) % Pow2(k)
    decreases k
  {
    hide Half, Odd, And, Widen, Num;
    if k == 0 {
      MaskBit(x, 0);
      NumZero();
    } else {
      NumMasked(Half(x), k - 1);
      MaskBit(x, Mask(k - 1));
      NumHalf(x);
      NumHalf(And(x, Mask(k)));
      QuotientHalf(Num(x), Num(Half(x)), if Odd(x) then 1 else 0, Pow2(k - 1));
    }
  }

  lemma NumZero()
    ensures Num(0) == 0
  {
  }

  // ----- the words behind the page tables of the model -----

  lemma NineBits()
    ensures Mask(8) == 0xFF && Mask(9) == 0x1FF
  {
    assert Mask(3) == 7;
    assert Mask(6) == 0x3F;
  }

  lemma {:induction false} ShiftTwice(x: bv64, a: nat, b: nat)
    ensures Shifted(x, a + b) == Shifted(Shifted(x, a), b)
    decreases a
  {
    hide Half;
    if a > 0 { ShiftTwice(Half(x), a - 1, b); }
  }

  function Right3(x: bv64): bv64 {
    x >> 3
  }

  function Right9(x: bv64): bv64 {
    x >> 9
  }

  function Right12(x: bv64): bv64 {
    x >> 12
  }

  function Right21(x: bv64): bv64 {
    x >> 21
  }

  function Right30(x: bv64): bv64 {
    x >> 30
  }

  lemma RightHalves(x: bv64)
    ensures Half(Half(Half(x))) == Right3(x)
  {
  }

  lemma RightNine(x: bv64)
    ensures Right3(Right3(Right3(x))) == Right9(x)
  {
  }

  lemma RightTwelve(x: bv64)
    ensures Right9(Right3(x)) == Right12(x)
  {
  }

  lemma RightTwentyOne(x: bv64)
    ensures Right9(Right12(x)) == Right21(x)
  {
  }

  lemma RightThirty(x: bv64)
    ensures Right9(Right21(x)) == Right30(x)
  {
  }

  lemma Rights(x: bv64)
    ensures Right3(x) == Half(Half(Half(x))) && Right9(x) == Right3(Right3(Right3(x)))
    ensures Right12(x) == Right9(Right3(x)) && Right21(x) == Right9(Right12(x)) && Right30(x) == Right9(Right21(x))
  {
    hide Half, Right3, Right9, Right12, Right21, Right30;
    RightHalves(x);
    RightNine(x);
    RightTwelve(x);
    RightTwentyOne(x);
    RightThirty(x);
  }

  lemma Shift3(x: bv64)
    ensures Shifted(x, 3) == Right3(x)
  {
    hide Half, Right3;
    RightHalves(x);
    assert Shifted(x, 1) == Half(x);
    assert Shifted(Half(x), 2) == Shifted(Half(Half(x)), 1);
    assert Shifted(Half(Half(x)), 1) == Shifted(Half(Half(Half(x))), 0);
  }

  lemma Shift9(x: bv64)
    ensures Shifted(x, 9) == Right9(x)
  {
    hide Half, Shifted, Right3, Right9, Right12, Right21, Right30;
    Rights(x);
    Shift3(x);
    Shift3(Right3(x));
    Shift3(Right3(Right3(x)));
    ShiftTwice(x, 3, 6);
    ShiftTwice(Right3(x), 3, 3);
  }

  lemma ShiftBits(x: bv64)
    ensures Shifted(x, 12) == Right12(x) && Shifted(x, 21) == Right21(x) && Shifted(x, 30) == Right30(x)
  {
    hide Half, Shifted, Right3, Right9, Right12, Right21, Right30;
    Rights(x);
    Shift3(x);
    Shift9(Right3(x));
    Shift9(Right12(x));
    Shift9(Right21(x));
    ShiftTwice(x, 3, 9);
    ShiftTwice(x, 12, 9);
    ShiftTwice(x, 21, 9);
  }

  lemma Powers()
    ensures Pow2(9) == 512 && Pow2(12) == 4096 && Pow2(21) == 2097152 && Pow2(30) == 1073741824 && Pow2(38) == 274877906944
  {
    assert Pow2(5) == 32;
    assert Pow2(10) == 1024;
    assert Pow2(15) == 32768;
    assert Pow2(20) == 1048576;
    assert Pow2(25) == 33554432;
    assert Pow2(35) == 34359738368;
  }

  lemma TopDigit(va: bv64)
    requires va < MAXVA
    ensures And(Right30(va), 0xFF) == Right30(va)
  {
  }

  lemma ShiftNumbers(va: bv64)
    ensures Num(Right12(va)) == Num(va) / 4096 && Num(Right21(va)) == Num(va) / 2097152 && Num(Right30(va)) == Num(va) / 1073741824
  {
    hide Num, Shifted, Right12, Right21, Right30, Pow2;
    Powers();
    ShiftBits(va);
    NumShifted(va, 12);
    NumShifted(va, 21);
    NumShifted(va, 30);
  }

  lemma NinthNumber(x: bv64)
    ensures Num(And(x, 0x1FF)) == Num(x) % 512
    ensures And(x, 0xFF) == x ==> Num(x) < 256
  {
    hide Num, And, Mask, Pow2;
    Powers();
    PowerEight();
    NineBits();
    NumMasked(x, 9);
    NumMasked(x, 8);
  }

  lemma PageDigits(level: nat, n: nat)
    requires level <= 2
    ensures n / 1073741824 < 256 ==>
              n / 4096 < PageTable.MAX_PAGE
              && PageTable.Px(level, n / 4096) == (if level == 2 then n / 1073741824 else if level == 1 then n / 2097152 else n / 4096) % 512
  {
  }

  /** The digits of a word below MAXVA are those of its page number. */
  lemma DigitsAgree(level: nat, va: bv64)
    requires level <= 2 && va < MAXVA
    ensures Num(va) / 4096 < PageTable.MAX_PAGE && Num(Px(level, va)) == PageTable.Px(level, Num(va) / 4096)
  {
    TopDigit(va);
    hide Num, And, Right12, Right21, Right30, PageTable.Px;
    PageDigits(level, Num(va));
    ShiftNumbers(va);
    NinthNumber(Right30(va));
    NinthNumber(Right21(va));
    NinthNumber(Right12(va));
  }

  lemma PowerEight()
    ensures Pow2(8) == 256
  {
    assert Pow2(4) == 16;
  }

  function FlagsOf(w: bv64): PageTable.Flags {
    PageTable.Flags(w & 0x1 != 0, w & 0x2 != 0, w & 0x4 != 0, w & 0x8 != 0, w & 0x10 != 0, w & 0x20 != 0, w & 0x40 != 0,
                    w & 0x80 != 0, w & 0x100 != 0, Num(w >> 59))
  }

  /** Bit k of a word. */
  function Bit(w: bv64, k: nat): (b: nat)
    requires k < 64
    ensures b <= 1
  {
    if (w >> k) & 1 == 1 then 1 else 0
  }

  /** Each flag is its bit, in the order valid, read, write, execute, user, global, accessed, dirty, copy-on-write. */
  lemma FlagBits(w: bv64)
    ensures FlagsOf(w).v <==> Bit(w, 0) == 1
    ensures FlagsOf(w).r <==> Bit(w, 1) == 1
    ensures FlagsOf(w).w <==> Bit(w, 2) == 1
    ensures FlagsOf(w).x <==> Bit(w, 3) == 1
    ensures FlagsOf(w).u <==> Bit(w, 4) == 1
    ensures FlagsOf(w).g <==> Bit(w, 5) == 1
    ensures FlagsOf(w).a <==> Bit(w, 6) == 1
    ensures FlagsOf(w).d <==> Bit(w, 7) == 1
    ensures FlagsOf(w).cow <==> Bit(w, 8) == 1
  {
    hide Num;
  }

  lemma TopBits(w: bv64)
    ensures Odd(w >> 59) <==> Bit(w, 59) == 1
    ensures Odd(Half(w >> 59)) <==> Bit(w, 60) == 1
    ensures Odd(Half(Half(w >> 59))) <==> Bit(w, 61) == 1
    ensures Odd(Half(Half(Half(w >> 59)))) <==> Bit(w, 62) == 1
    ensures Odd(Half(Half(Half(Half(w >> 59))))) <==> Bit(w, 63) == 1
    ensures Half(Half(Half(Half(Half(w >> 59))))) == 0
  {
  }

  /** The attributes are the five top bits. */
  lemma AttributeBits(w: bv64)
    ensures FlagsOf(w).attr == Bit(w, 59) + 2 * Bit(w, 60) + 4 * Bit(w, 61) + 8 * Bit(w, 62) + 16 * Bit(w, 63)
  {
    hide Num, Half, Odd, Bit;
    TopBits(w);
    var y := w >> 59;
    NumHalf(y);
    NumHalf(Half(y));
    NumHalf(Half(Half(y)));
    NumHalf(Half(Half(Half(y))));
    NumHalf(Half(Half(Half(Half(y)))));
    NumZero();
  }

  /** The entry that a word in a page table stands for. */
  function EntryOf(w: bv64): PageTable.Pte {
    PageTable.Pte(Num(Right12(Pte2Pa(w))), FlagsOf(w))
  }

  /** The word mappages stores, and the entry of the model it stands for. */
  lemma StoredEntry(pa: bv64, perm: bv64)
    requires perm & !FLAG_MASK == 0 && pa & 0xFFF == 0 && pa >> 61 == 0
    ensures EntryOf(Pa2Pte(pa) | perm | 0xC1) ==
            PageTable.Pte(Num(Right12(pa)), FlagsOf(perm).(v := true, a := true, d := true))
  {
    StoredWord(pa, perm);
    StoredFlags(pa, perm);
    hide Num, Right12, Pte2Pa, Pa2Pte;
  }

  lemma StoredWord(pa: bv64, perm: bv64)
    requires perm & !FLAG_MASK == 0 && pa & 0xFFF == 0 && pa >> 61 == 0
    ensures Pte2Pa(Pa2Pte(pa) | perm | 0xC1) == pa && (Pa2Pte(pa) | perm | 0xC1) >> 59 == perm >> 59
  {
  }

  lemma StoredFlags(pa: bv64, perm: bv64)
    requires pa >> 61 == 0
    ensures var w := Pa2Pte(pa) | perm | 0xC1;
            && w & 0x1 != 0 && w & 0x40 != 0 && w & 0x80 != 0 && w & 0x2 == perm & 0x2 && w & 0x4 == perm & 0x4 && w & 0x8 == perm & 0x8
            && w & 0x10 == perm & 0x10 && w & 0x20 == perm & 0x20 && w & 0x100 == perm & 0x100
  {
  }

  /** The word of an upper-level entry, and the cleared word. */
  lemma TableEntry(pa: bv64)
    requires pa & 0xFFF == 0 && pa >> 61 == 0
    ensures EntryOf(Pa2Pte(pa) | 0x1) == PageTable.Pte(Num(Right12(pa)), PageTable.TABLE_FLAGS)
    ensures EntryOf(0) == PageTable.ZERO_PTE
  {
    TableWord(pa);
    NumZero();
    hide Num, Right12, Pte2Pa, Pa2Pte;
  }

  lemma TableWord(pa: bv64)
    requires pa & 0xFFF == 0 && pa >> 61 == 0
    ensures Pte2Pa(Pa2Pte(pa) | 0x1) == pa && (Pa2Pte(pa) | 0x1) >> 59 == 0 && Right12(Pte2Pa(0)) == 0
    ensures (Pa2Pte(pa) | 0x1) & 0x1FF == 0x1
  {
  }
}
