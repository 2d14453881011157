// The bit arithmetic of memory.h on 32-bit words held as natural numbers.
module Address {
  import opened Arithmetic

  const PAGE_PRESENT: nat := 1
  const PAGE_RW: nat := 2
  const KERNELBASE: nat := 0x8000000
  const KERNSIZE: nat := 0x10000000

  function And(x: nat, y: nat): nat {
    if x == 0 || y == 0 then 0 else (if x % 2 == 1 && y % 2 == 1 then 1 else 0) + 2 * And(x / 2, y / 2)
  }

  function Or(x: nat, y: nat): nat
    decreases x + y
  {
    if x == 0 then y else if y == 0 then x
    else (if x % 2 == 1 || y % 2 == 1 then 1 else 0) + 2 * Or(x / 2, y / 2)
  }

  // The macros, as written.
  function PgdIndex(va: nat): nat { And(va / 0x40_0000, 0x3ff) }
  function PgtIndex(va: nat): nat { And(va / 0x1000, 0x3ff) }
  function Ppn(a: nat): nat { And(a, 0xffff_f000) }
  function Offset(a: nat): nat { And(a, 0xfff) }
  function PgLowBound(a: nat): nat { And(a, 0xffff_f000) }
  function PgUpBound(a: nat): nat { And((a + 0x1000 - 1) % 0x1_0000_0000, 0xffff_f000) }
  function Ptov(a: nat): nat { (a + KERNELBASE) % 0x1_0000_0000 }

  // Masking with k ones keeps the remainder.
  lemma {:induction false} AndOnes(x: nat, k: nat)
    ensures And(x, Pow2(k) - 1) == x % Pow2(k)
  {
    if k > 0 {
      AndOnes(x / 2, k - 1);
      HalfMod(x, Pow2(k - 1));
    }
  }

  lemma HalfMod(x: nat, p: nat)
    requires p > 0
    ensures x % (2 * p) == x % 2 + 2 * (x / 2 % p)
  {
    var q, r := x / 2 / p, x / 2 % p;
    assert x / 2 == p * q + r;
    assert x == 2 * p * q + (x % 2 + 2 * r);
    ModUnique(x, 2 * p, q, x % 2 + 2 * r);
  }

  function Halve(x: nat, k: nat): nat {
    if k == 0 then x else Halve(x / 2, k - 1)
  }

  function Double(x: nat, k: nat): nat {
    if k == 0 then x else 2 * Double(x, k - 1)
  }

  lemma {:induction false} DoubleInside(x: nat, k: nat)
    ensures Double(2 * x, k) == 2 * Double(x, k)
  {
    if k > 0 { DoubleInside(x, k - 1); }
  }

  // Masking the low k bits away.
  lemma {:induction false} AndDouble(x: nat, y: nat, k: nat)
    ensures And(x, Double(y, k)) == Double(And(Halve(x, k), y), k)
  {
    if k > 0 {
      AndDouble(x / 2, y, k - 1);
    }
  }

  lemma FourBits(x: nat, k: nat)
    requires k >= 4
    ensures Halve(x, k) == Halve(x / 16, k - 4) && Double(x, k) == 16 * Double(x, k - 4)
  {
    assert Halve(x / 2 / 2, k - 2) == Halve(x / 2 / 2 / 2 / 2, k - 4);
    assert Double(x, k) == 4 * Double(x, k - 2);
  }

  lemma NoShift(x: nat)
    ensures Halve(x, 0) == x && Double(x, 0) == x
  {
  }

  lemma Twelve(x: nat)
    ensures Halve(x, 12) == x / 4096 && Double(x, 12) == 4096 * x
  {
    hide Halve, Double;
    FourBits(x, 12);
    FourBits(x / 16, 8);
    FourBits(x / 16 / 16, 4);
    FourBits(x, 8);
    FourBits(x, 4);
    assert x / 16 / 16 / 16 == x / 4096;
    NoShift(x / 4096);
    NoShift(x);
  }

  // Or of a multiple of 2^k and a number below 2^k.
  lemma {:induction false} OrDisjoint(a: nat, f: nat, k: nat)
    requires f < Pow2(k)
    ensures Or(a * Pow2(k), f) == a * Pow2(k) + f
  {
    hide Or;
    if k > 0 {
      var p := Pow2(k - 1);
      OrDisjoint(a, f / 2, k - 1);
      assert a * Pow2(k) == 2 * (a * p);
      OrStep(a * p, f);
    } else {
      assert f == 0;
      OrZero(a);
    }
  }

  lemma OrZero(x: nat)
    ensures Or(x, 0) == x
  {
  }

  lemma OrStep(x: nat, f: nat)
    ensures Or(2 * x, f) == f % 2 + 2 * Or(x, f / 2)
  {
    if f == 0 { assert Or(x, 0) == x; }
  }

  lemma PowersUsed()
    ensures Pow2(10) == 0x400 && Pow2(12) == 0x1000 && Pow2(20) == 0x10_0000
  {
    assert Pow2(5) == 0x20;
    assert Pow2(10) == 0x400;
    assert Pow2(15) == 0x8000;
    assert Pow2(20) == 0x10_0000;
  }

  lemma HighMask(a: nat)
    requires a < 0x1_0000_0000
    ensures And(a, 0xffff_f000) == a - a % 0x1000
  {
    hide And, Halve, Double, Pow2;
    Twelve(a);
    Twelve(0xf_ffff);
    AndDouble(a, 0xf_ffff, 12);
    PowersUsed();
    AndOnes(a / 0x1000, 20);
    Twelve(a / 0x1000);
    assert a / 0x1000 < 0x10_0000;
    assert And(a, 0xffff_f000) == a / 0x1000 * 0x1000;
  }

  lemma UpBound(a: nat)
    requires a + 0xfff < 0x1_0000_0000
    ensures PgUpBound(a) == a + 0xfff - (a + 0xfff) % 0x1000 && PgUpBound(a) % 0x1000 == 0
  {
    hide And;
    HighMask(a + 0xfff);
  }

  lemma LowMasks(x: nat)
    ensures And(x, 0x3ff) == x % 0x400 && And(x, 0xfff) == x % 0x1000
  {
    hide And, Pow2;
    PowersUsed();
    AndOnes(x, 10);
    AndOnes(x, 12);
  }

  // What the macros compute, in terms of division.
  lemma Splitting(a: nat)
    requires a < 0x1_0000_0000
    ensures PgdIndex(a) == a / 0x40_0000 && PgtIndex(a) == a / 0x1000 % 0x400
    ensures Ppn(a) == PgLowBound(a) == a - a % 0x1000 && Offset(a) == a % 0x1000
  {
    hide And;
    LowMasks(a / 0x40_0000);
    LowMasks(a / 0x1000);
    LowMasks(a);
    HighMask(a);
    assert a / 0x40_0000 < 0x400;
  }

  function Entry(pa: nat, flags: nat): nat {
    Or(Or(Ppn(pa), flags), PAGE_PRESENT)
  }

  function Odd(f: nat): nat {
    if f % 2 == 1 then f else f + 1
  }

  lemma OrOne(x: nat)
    ensures Or(x, 1) == Odd(x)
  {
    if x != 0 { assert Or(x / 2, 0) == x / 2; }
  }

  lemma EntryValue(pa: nat, flags: nat)
    requires pa < 0x1_0000_0000 && flags < 0x1000
    ensures Entry(pa, flags) == pa - pa % 0x1000 + Odd(flags) < 0x1_0000_0000 && Entry(pa, flags) % 2 == 1
  {
    hide And, Or, Odd;
    HighMask(pa);
    var frame := pa / 0x1000;
    assert frame * 0x1000 == pa - pa % 0x1000;
    OrFrame(frame, flags);
    OrOne(Or(Ppn(pa), flags));
    OddFrame(frame, flags);
  }

  lemma OddFrame(frame: nat, flags: nat)
    requires flags < 0x1000
    ensures Odd(frame * 0x1000 + flags) == frame * 0x1000 + Odd(flags)
    ensures Odd(flags) < 0x1000 && Odd(frame * 0x1000 + flags) % 2 == 1
  {
    var half := frame * 2048 + flags / 2;
    assert frame * 0x1000 + flags == 2 * half + flags % 2;
  }

  lemma OrFrame(frame: nat, flags: nat)
    requires flags < 0x1000
    ensures Or(frame * 0x1000, flags) == frame * 0x1000 + flags
  {
    hide Or, Pow2;
    PowersUsed();
    OrDisjoint(frame, flags, 12);
  }

  // The directory entry for a table at an aligned address.
  lemma TableEntry(t: nat, flags: nat)
    requires t % 0x1000 == 0 && t < 0x1_0000_0000 && flags < 0x1000
    ensures
      var e := Or(Or(t, flags), PAGE_PRESENT);
      e == t + Odd(flags) && e % 2 == 1 && e / 0x1000 == t / 0x1000 && e < 0x1_0000_0000
  {
    hide And, Or;
    HighMask(t);
    EntryValue(t, flags);
  }

  lemma LowBit(x: nat)
    ensures And(x, PAGE_PRESENT) == x % 2
  {
    if x != 0 { assert And(x / 2, 0) == 0; }
  }

  lemma Parts(x: nat)
    requires x < 0x1_0000_0000
    ensures Ppn(x) == x - x % 0x1000 && Offset(x) == x % 0x1000 && And(x, PAGE_PRESENT) == x % 2
  {
    hide And;
    HighMask(x);
    LowMasks(x);
    LowBit(x);
  }

  // An entry holds the frame above its twelve flag bits.
  lemma EntryParts(pa: nat, flags: nat)
    requires pa < 0x1_0000_0000 && flags < 0x1000
    ensures Ppn(Entry(pa, flags)) == Ppn(pa) && Offset(Entry(pa, flags)) == Odd(flags)
  {
    hide And, Or, Entry;
    EntryValue(pa, flags);
    Parts(Entry(pa, flags));
    Parts(pa);
    assert Odd(flags) < 0x1000;
  }

  // map keeps the frame for every physical address exactly when the flags fit in the
  // twelve bits memory.h:153 gives them.
  lemma FlagsFit(flags: nat)
    requires flags < 0x1_0000
    ensures flags < 0x1000 <==> forall pa :: 0 <= pa < 0x1_0000_0000 ==> Ppn(Entry(pa, flags)) == Ppn(pa)
  {
    if flags < 0x1000 {
      forall pa | 0 <= pa < 0x1_0000_0000 ensures Ppn(Entry(pa, flags)) == Ppn(pa) {
        EntryParts(pa, flags);
      }
    } else {
      Splitting(0);
      OrOne(flags);
      assert Entry(0, flags) == Odd(flags);
      Splitting(Odd(flags));
      assert Ppn(Entry(0, flags)) != Ppn(0);
    }
  }
}
