// Two-level page tables in physical memory and the page allocator (memory.c).  Pages are
// 0x1000 bytes, addresses 32 bits: 0x10_0000 pages, 0x1_0000_0000 bytes.
module Paging {
  import opened Address
  import Counting

  // Physical memory by 32-bit word; word i of the page with frame number f.
  type Ram = seq<nat>

  function Cell(f: nat, i: nat): nat {
    1024 * f + i
  }

  function ZeroPage(ram: Ram, f: nat): (r: Ram)
    ensures |r| == |ram|
  {
    seq(|ram|, w requires 0 <= w < |ram| => if Cell(f, 0) <= w < Cell(f, 1024) then 0 else ram[w])
  }

  // A directory in frame d: every present entry has a table of its own.
  ghost predicate Tree(ram: Ram, d: nat) {
    && Cell(d, 1023) < |ram|
    && (forall i :: 0 <= i < 1024 ==> ram[Cell(d, i)] < 0x1_0000_0000)
    && (forall i :: 0 <= i < 1024 && ram[Cell(d, i)] % 2 == 1 ==>
          Cell(ram[Cell(d, i)] / 0x1000, 1023) < |ram| && ram[Cell(d, i)] / 0x1000 != d)
    && (forall i, j :: 0 <= i < j < 1024 && ram[Cell(d, i)] % 2 == 1 && ram[Cell(d, j)] % 2 == 1 ==>
          ram[Cell(d, i)] / 0x1000 != ram[Cell(d, j)] / 0x1000)
  }

  // The flat map a tree stands for: the entry of page p, or 0.
  function Flat(ram: Ram, d: nat, p: nat): nat
    requires Tree(ram, d) && p < 0x10_0000
  {
    var e := ram[Cell(d, p / 1024)];
    if e % 2 == 1 then
      var x := ram[Cell(e / 0x1000, p % 1024)];
      if x % 2 == 1 then x else 0
    else 0
  }

  // The directory in frame d is as before, but for entry i when it was absent, which is now e.
  ghost predicate Entered(before: Ram, ram: Ram, d: nat, i: nat, e: nat)
    requires Tree(before, d) && Tree(ram, d)
  {
    forall j :: 0 <= j < 1024 ==>
      ram[Cell(d, j)] == if j == i && before[Cell(d, j)] % 2 != 1 then e else before[Cell(d, j)]
  }

  // Directory entries present before are as they were, absent ones are present with those flags
  // exactly when they are in `made`, and as they were otherwise.
  ghost predicate Flagged(before: Ram, ram: Ram, d: nat, made: set<int>, flags: nat)
    requires Tree(before, d) && Tree(ram, d)
  {
    forall j :: 0 <= j < 1024 ==>
      if before[Cell(d, j)] % 2 != 1 && j in made then
        ram[Cell(d, j)] % 2 == 1 && Offset(ram[Cell(d, j)]) == Odd(flags)
      else ram[Cell(d, j)] == before[Cell(d, j)]
  }

  lemma FlaggedNext(before: Ram, was: Ram, ram: Ram, d: nat, made: set<int>, i: nat, t: nat, flags: nat)
    requires Tree(before, d) && Tree(was, d) && Tree(ram, d) && i < 1024
    requires Flagged(before, was, d, made, flags) && Entered(was, ram, d, i, t + Odd(flags))
    requires t % 0x1000 == 0 && flags < 0x1000
    ensures Flagged(before, ram, d, made + {i}, flags)
  {
    hide Offset;
    OddEntry(t, flags);
  }

  lemma OddEntry(t: nat, flags: nat)
    requires t % 0x1000 == 0 && flags < 0x1000
    ensures Offset(t + Odd(flags)) == Odd(flags) && (t + Odd(flags)) % 2 == 1
  {
    hide And, Odd;
    OddFrame(t / 0x1000, flags);
    assert t == t / 0x1000 * 0x1000;
    LowMasks(t + Odd(flags));
  }

  // A directory entry is a 32-bit word in memory, and so is each cell of its table.
  lemma TreeCell(ram: Ram, d: nat, i: nat, j: nat)
    requires Tree(ram, d) && i < 1024 && j < 1024
    ensures Cell(d, i) < |ram| && ram[Cell(d, i)] < 0x1_0000_0000
    ensures ram[Cell(d, i)] % 2 == 1 ==>
      Cell(ram[Cell(d, i)] / 0x1000, j) < |ram| && ram[Cell(d, i)] / 0x1000 != d
  {
  }

  lemma TreeCells(ram: Ram, d: nat)
    requires Tree(ram, d)
    ensures forall i :: 0 <= i < 1024 ==> Cell(d, i) < |ram|
  {
  }

  lemma StoreEntry(ram: Ram, d: nat, p: nat, v: nat)
    requires Tree(ram, d) && p < 0x10_0000 && ram[Cell(d, p / 1024)] % 2 == 1 && v % 2 == 1
    ensures var ram' := ram[Cell(ram[Cell(d, p / 1024)] / 0x1000, p % 1024) := v];
            && Tree(ram', d)
            && (forall i :: 0 <= i < 1024 ==> ram'[Cell(d, i)] == ram[Cell(d, i)])
            && (forall q :: 0 <= q < 0x10_0000 ==> Flat(ram', d, q) == if q == p then v else Flat(ram, d, q))
  {
    var ram' := ram[Cell(ram[Cell(d, p / 1024)] / 0x1000, p % 1024) := v];
    assert forall i :: 0 <= i < 1024 ==> ram'[Cell(d, i)] == ram[Cell(d, i)];
    forall q | 0 <= q < 0x10_0000 ensures Flat(ram', d, q) == if q == p then v else Flat(ram, d, q) {
      if q / 1024 == p / 1024 && q % 1024 == p % 1024 { assert q == p; }
    }
  }

  lemma ZeroCells(ram: Ram, t: nat)
    requires Cell(t, 1023) < |ram|
    ensures forall i :: 0 <= i < 1024 ==> ZeroPage(ram, t)[Cell(t, i)] == 0
    ensures forall f, i :: 0 <= f && f != t && 0 <= i < 1024 && Cell(f, i) < |ram| ==>
              ZeroPage(ram, t)[Cell(f, i)] == ram[Cell(f, i)]
  {
    forall i | 0 <= i < 1024 ensures ZeroPage(ram, t)[Cell(t, i)] == 0 {
      assert Cell(t, 0) <= Cell(t, i) < Cell(t, 1024);
    }
    forall f, i | 0 <= f && f != t && 0 <= i < 1024 && Cell(f, i) < |ram|
      ensures ZeroPage(ram, t)[Cell(f, i)] == ram[Cell(f, i)]
    {
      assert !(Cell(t, 0) <= Cell(f, i) < Cell(t, 1024));
    }
  }

  lemma NewTable(ram: Ram, d: nat, i: nat, t: nat, e: nat)
    requires Tree(ram, d) && i < 1024 && ram[Cell(d, i)] % 2 != 1
    requires e % 2 == 1 && e / 0x1000 == t && e < 0x1_0000_0000 && t != d && Cell(t, 1023) < |ram|
    requires forall j :: 0 <= j < 1024 && ram[Cell(d, j)] % 2 == 1 ==> ram[Cell(d, j)] / 0x1000 != t
    ensures var ram' := ZeroPage(ram, t)[Cell(d, i) := e];
            && Tree(ram', d)
            && (forall j :: 0 <= j < 1024 ==> ram'[Cell(d, j)] == if j == i then e else ram[Cell(d, j)])
            && (forall q :: 0 <= q < 0x10_0000 ==> Flat(ram', d, q) == Flat(ram, d, q))
  {
    ZeroCells(ram, t);
    var ram1 := ZeroPage(ram, t);
    var ram' := ram1[Cell(d, i) := e];
    forall f, j | 0 <= f && f != d && 0 <= j < 1024 && Cell(f, j) < |ram| ensures ram'[Cell(f, j)] == ram1[Cell(f, j)] {
      assert Cell(f, j) != Cell(d, i);
    }
    forall q | 0 <= q < 0x10_0000 ensures Flat(ram', d, q) == Flat(ram, d, q) {
      var f := ram[Cell(d, q / 1024)];
      if q / 1024 != i && f % 2 == 1 {
        assert ram'[Cell(f / 0x1000, q % 1024)] == ram[Cell(f / 0x1000, q % 1024)];
      }
    }
  }

  // Where the macros lead for an address: the cells of its page.
  lemma Walk(va: nat)
    requires va < 0x1_0000_0000
    ensures PgdIndex(PgLowBound(va)) == va / 0x1000 / 1024 < 1024
    ensures PgtIndex(PgLowBound(va)) == va / 0x1000 % 1024
  {
    Splitting(va);
    Splitting(PgLowBound(va));
  }

  // getpte and translate, as written: the masks and shifts of memory.h over memory words.
  function GetPte(ram: Ram, pgd: nat, va: nat): nat
    requires pgd % 0x1000 == 0 && Tree(ram, pgd / 0x1000) && va < 0x1_0000_0000
  {
    Walk(va);
    var plb := PgLowBound(va);
    assert pgd / 4 + PgdIndex(plb) == Cell(pgd / 0x1000, va / 0x1000 / 1024);
    var pde := ram[pgd / 4 + PgdIndex(plb)];
    Parts(pde);
    if And(pde, PAGE_PRESENT) != 0 then
      assert Ppn(pde) / 4 + PgtIndex(plb) == Cell(pde / 0x1000, va / 0x1000 % 1024);
      var pte := ram[Ppn(pde) / 4 + PgtIndex(plb)];
      if And(pte, PAGE_PRESENT) != 0 then pte else 0
    else 0
  }

  function Translate(ram: Ram, pgd: nat, va: nat): nat
    requires pgd % 0x1000 == 0 && Tree(ram, pgd / 0x1000) && va < 0x1_0000_0000
  {
    var pte := GetPte(ram, pgd, va);
    if pte != 0 then Or(Ppn(pte), Offset(va)) else 0
  }

  lemma GetPteIsFlat(ram: Ram, pgd: nat, va: nat)
    requires pgd % 0x1000 == 0 && Tree(ram, pgd / 0x1000) && va < 0x1_0000_0000
    ensures GetPte(ram, pgd, va) == Flat(ram, pgd / 0x1000, va / 0x1000)
  {
    Walk(va);
    var d := pgd / 0x1000;
    var pde := ram[Cell(d, va / 0x1000 / 1024)];
    assert pgd / 4 + PgdIndex(PgLowBound(va)) == Cell(d, va / 0x1000 / 1024);
    Parts(pde);
    if pde % 2 == 1 {
      assert Ppn(pde) / 4 + PgtIndex(PgLowBound(va)) == Cell(pde / 0x1000, va / 0x1000 % 1024);
      LowBit(ram[Cell(pde / 0x1000, va / 0x1000 % 1024)]);
    }
  }

  // The frame of the page's entry and the offset of the address, whatever the flags.
  lemma TranslateEntry(ram: Ram, pgd: nat, va: nat, pa: nat, flags: nat)
    requires pgd % 0x1000 == 0 && Tree(ram, pgd / 0x1000) && va < 0x1_0000_0000 && pa < 0x1_0000_0000 && flags < 0x1000
    requires Flat(ram, pgd / 0x1000, va / 0x1000) == Entry(pa, flags)
    ensures Translate(ram, pgd, va) == pa - pa % 0x1000 + va % 0x1000
  {
    GetPteIsFlat(ram, pgd, va);
    EntryValue(pa, flags);
    EntryParts(pa, flags);
    Parts(pa);
    Parts(va);
    PowersUsed();
    OrDisjoint(pa / 0x1000, va % 0x1000, 12);
  }

  function PagesFor(size: nat): nat {
    (size + 0x1000 - 1) / 0x1000
  }

  lemma PagesBelow(size: nat)
    requires size <= 0x1_0000_0000 - 0x1000
    ensures PagesFor(size) < 0x10_0000
  {
  }

  lemma TurnsLeft(size: nat, k: nat)
    ensures k * 0x1000 < size <==> k < PagesFor(size)
  {
  }

  // The k-th page from page p on, counting round.
  function Wrap(p: nat, k: nat): nat {
    (p + k) % 0x10_0000
  }

  lemma NextPage(p: nat, k: nat)
    ensures (Wrap(p, k) * 0x1000 + 0x1000) % 0x1_0000_0000 == Wrap(p, k + 1) * 0x1000
    ensures p < 0x10_0000 ==> Wrap(p, 0) == p
  {
    assert Wrap(p, k + 1) == if Wrap(p, k) + 1 == 0x10_0000 then 0 else Wrap(p, k) + 1;
  }

  // How far page q is ahead of page p, counting round.
  function Ahead(q: nat, p: nat): nat
    requires q < 0x10_0000 && p < 0x10_0000
  {
    (q + 0x10_0000 - p) % 0x10_0000
  }

  // The directory entry of the k-th page from page p on.
  function DirOf(p: nat, k: nat): nat {
    Wrap(p, k) / 1024
  }

  // The directory entries of n pages from page p on.
  function Covered(p: nat, n: nat): set<int> {
    if n == 0 then {} else Covered(p, n - 1) + {DirOf(p, n - 1)}
  }

  lemma {:induction false} CoveredMonotonic(p: nat, k: nat, n: nat)
    requires k <= n
    ensures Covered(p, k) <= Covered(p, n)
  {
    if k < n { CoveredMonotonic(p, k, n - 1); }
  }

  lemma CoveredStep(p: nat, k: nat, n: nat, tables: set<int>)
    requires k < n
    ensures |tables + Covered(p, k + 1)| <= |tables + Covered(p, n)|
    ensures |tables + Covered(p, k + 1)| ==
            |tables + Covered(p, k)| + if DirOf(p, k) in tables + Covered(p, k) then 0 else 1
  {
    CoveredMonotonic(p, k + 1, n);
    Counting.SubsetSize(tables + Covered(p, k + 1), tables + Covered(p, n));
    var was := tables + Covered(p, k);
    assert tables + Covered(p, k + 1) == was + {DirOf(p, k)};
    assert DirOf(p, k) in was ==> was + {DirOf(p, k)} == was;
  }

  // k pages from page p on have been mapped to the frames from base on.
  ghost predicate Mapped(before: Ram, ram: Ram, d: nat, p: nat, k: nat, base: nat, flags: nat)
    requires Tree(before, d) && Tree(ram, d) && p < 0x10_0000
  {
    forall q :: 0 <= q < 0x10_0000 ==>
      Flat(ram, d, q) == if Ahead(q, p) < k then Entry(base + Ahead(q, p) * 0x1000, flags) else Flat(before, d, q)
  }

  lemma SameMapped(ram: Ram, d: nat, p: nat, base: nat, flags: nat)
    requires Tree(ram, d) && p < 0x10_0000
    ensures Mapped(ram, ram, d, p, 0, base, flags)
  {
  }

  lemma MappedStep(before: Ram, ram: Ram, ram': Ram, d: nat, p: nat, k: nat, base: nat, flags: nat)
    requires Tree(before, d) && Tree(ram, d) && Tree(ram', d) && p < 0x10_0000 && k < 0x10_0000
    requires Mapped(before, ram, d, p, k, base, flags)
    requires forall q :: 0 <= q < 0x10_0000 ==>
      Flat(ram', d, q) == if q == Wrap(p, k) then Entry(base + k * 0x1000, flags) else Flat(ram, d, q)
    ensures Mapped(before, ram', d, p, k + 1, base, flags)
  {
    hide Entry, Flat;
    forall q | 0 <= q < 0x10_0000
      ensures Flat(ram', d, q) ==
        if Ahead(q, p) < k + 1 then Entry(base + Ahead(q, p) * 0x1000, flags) else Flat(before, d, q)
    {
      assert q == Wrap(p, k) <==> Ahead(q, p) == k;
    }
  }

  lemma DirNow(p: nat)
    requires p < 0x10_0000
    ensures DirOf(p, 0) == p / 1024
  {
  }

  lemma DirNext(p: nat, n: nat)
    requires 1 < n && p + n <= 0x10_0000
    ensures DirOf(p, n - 1) == (p + n - 1) / 1024
    ensures (p + n - 1) / 1024 == (p + n - 2) / 1024 || (p + n - 1) / 1024 == (p + n - 2) / 1024 + 1
    ensures p / 1024 <= (p + n - 2) / 1024
  {
    assert Wrap(p, n - 1) == p + n - 1;
  }

  // A run of numbers with its last number again or the one after it.
  lemma RunNext(s: set<int>, lo: int, hi: int, d: int)
    requires lo <= hi && d in {hi, hi + 1} && |s| == hi - lo + 1
    requires forall i :: i in s <==> lo <= i <= hi
    ensures forall i :: i in s + {d} <==> lo <= i <= d
    ensures |s + {d}| == d - lo + 1
  {
    if d == hi { assert s + {d} == s; }
  }

  lemma {:induction false} CoveredRange(p: nat, n: nat)
    requires 0 < n && p + n <= 0x10_0000
    ensures forall i :: i in Covered(p, n) <==> p / 1024 <= i <= (p + n - 1) / 1024
    ensures |Covered(p, n)| == (p + n - 1) / 1024 - p / 1024 + 1
  {
    hide DirOf;
    if n == 1 {
      DirNow(p);
      assert Covered(p, 1) == {} + {DirOf(p, 0)};
    } else {
      CoveredRange(p, n - 1);
      DirNext(p, n);
      RunNext(Covered(p, n - 1), p / 1024, (p + n - 2) / 1024, DirOf(p, n - 1));
    }
  }

  // Every offset into a range that has been mapped translates to the same offset from its
  // first frame.
  lemma MappedTranslate(before: Ram, ram: Ram, pgd: nat, va: nat, n: nat, base: nat, flags: nat, o: nat)
    requires pgd % 0x1000 == 0 && Tree(before, pgd / 0x1000) && Tree(ram, pgd / 0x1000)
    requires va < 0x1_0000_0000 && va % 0x1000 == 0 && base % 0x1000 == 0 && flags < 0x1000
    requires Mapped(before, ram, pgd / 0x1000, va / 0x1000, n, base, flags)
    requires o < n * 0x1000 && n <= 0x10_0000 && base + o < 0x1_0000_0000
    ensures Translate(ram, pgd, (va + o) % 0x1_0000_0000) == base + o
  {
    hide Flat, Entry, Translate, Wrap, And, Or, Tree, Ahead;
    OffsetPage(va / 0x1000, o);
    var v, pa := (va + o) % 0x1_0000_0000, base + o / 0x1000 * 0x1000;
    assert va / 0x1000 * 0x1000 == va;
    assert Flat(ram, pgd / 0x1000, v / 0x1000) == Entry(pa, flags);
    FrameOffset(base, o);
    TranslateEntry(ram, pgd, v, pa, flags);
  }

  lemma FrameOffset(base: nat, o: nat)
    requires base % 0x1000 == 0
    ensures var pa := base + o / 0x1000 * 0x1000; pa % 0x1000 == 0 && pa + o % 0x1000 == base + o
  {
  }

  lemma OffsetPage(p: nat, o: nat)
    requires p < 0x10_0000 && o < 0x1_0000_0000
    ensures var v := (p * 0x1000 + o) % 0x1_0000_0000;
            v / 0x1000 == Wrap(p, o / 0x1000) && v % 0x1000 == o % 0x1000 && Ahead(v / 0x1000, p) == o / 0x1000
  {
    var v := p * 0x1000 + o;
    assert v / 0x1000 == p + o / 0x1000;
    var w := if v < 0x1_0000_0000 then v else v - 0x1_0000_0000;
    assert w == v % 0x1_0000_0000;
    assert w / 0x1000 == if v < 0x1_0000_0000 then v / 0x1000 else v / 0x1000 - 0x10_0000;
  }

  // The loop of rangemap with its 32-bit variables leaves after k turns.
  ghost predicate LeavesAfter(plb: nat, size: nat, k: nat) {
    var pub := (plb + size) % 0x1_0000_0000;
    (plb + k * 0x1000) % 0x1_0000_0000 >= pub &&
    forall j :: 0 <= j < k ==> (plb + j * 0x1000) % 0x1_0000_0000 < pub
  }

  // It makes one turn for each page of the range exactly when the range ends at or before
  // the last page of the address space; otherwise it never leaves, or leaves at once.
  lemma LeavesExactly(plb: nat, size: nat)
    requires plb % 0x1000 == 0 && plb < 0x1_0000_0000 && size < 0x1_0000_0000
    ensures LeavesAfter(plb, size, PagesFor(size)) <==> plb + size <= 0x1_0000_0000 - 0x1000
    ensures 0x1_0000_0000 - 0x1000 < plb + size < 0x1_0000_0000 ==> forall k: nat :: !LeavesAfter(plb, size, k)
    ensures plb + size >= 0x1_0000_0000 ==> LeavesAfter(plb, size, 0)
  {
    hide LeavesAfter, PagesFor;
    if plb + size <= 0x1_0000_0000 - 0x1000 {
      LeavesAtTheEnd(plb, size);
    } else if plb + size < 0x1_0000_0000 {
      forall k: nat ensures !LeavesAfter(plb, size, k) {
        NeverLeaves(plb, size, k);
      }
    } else {
      LeavesAtOnce(plb, size);
    }
  }

  lemma LeavesAtTheEnd(plb: nat, size: nat)
    requires plb % 0x1000 == 0 && plb + size <= 0x1_0000_0000 - 0x1000
    ensures LeavesAfter(plb, size, PagesFor(size))
  {
    var n := PagesFor(size);
    hide PagesFor;
    TurnsLeft(size, n);
    assert n > 0 ==> (n - 1) * 0x1000 < size by { if n > 0 { TurnsLeft(size, n - 1); } }
    assert n * 0x1000 < size + 0x1000;
    forall j | 0 <= j < n ensures (plb + j * 0x1000) % 0x1_0000_0000 < plb + size { TurnsLeft(size, j); }
  }

  lemma NeverLeaves(plb: nat, size: nat, k: nat)
    requires plb % 0x1000 == 0 && 0x1_0000_0000 - 0x1000 < plb + size < 0x1_0000_0000
    ensures !LeavesAfter(plb, size, k)
  {
    assert (plb + k * 0x1000) % 0x1_0000_0000 % 0x1000 == 0;
  }

  lemma LeavesAtOnce(plb: nat, size: nat)
    requires plb < 0x1_0000_0000 && size < 0x1_0000_0000 && plb + size >= 0x1_0000_0000
    ensures LeavesAfter(plb, size, 0) && PagesFor(size) > 0
    ensures !LeavesAfter(plb, size, PagesFor(size))
  {
    TurnsLeft(size, 0);
    assert (plb + 0 * 0x1000) % 0x1_0000_0000 == plb >= (plb + size) % 0x1_0000_0000;
  }

  lemma OutsideMapped(before: Ram, ram: Ram, d: nat, q: nat)
    requires Tree(before, d) && Tree(ram, d) && q < 0x10_0000 && Ahead(q, 0x8000) >= 0x10000
    requires forall i :: 0 <= i < 1024 ==> before[Cell(d, i)] == 0
    requires Mapped(before, ram, d, 0x8000, 0x10000, 0, PAGE_RW)
    ensures Flat(ram, d, q) == 0
  {
    hide Entry;
    assert Flat(before, d, q) == 0;
  }

  lemma KernelMapped(before: Ram, ram: Ram, pgd: nat)
    requires pgd % 0x1000 == 0 && Tree(before, pgd / 0x1000) && Tree(ram, pgd / 0x1000)
    requires forall i :: 0 <= i < 1024 ==> before[Cell(pgd / 0x1000, i)] == 0
    requires Mapped(before, ram, pgd / 0x1000, 0x8000, 0x10000, 0, PAGE_RW)
    ensures forall a :: 0 <= a < KERNSIZE ==> Translate(ram, pgd, Ptov(a)) == a
    ensures forall va :: 0 <= va < 0x1_0000_0000 && !(KERNELBASE <= va < KERNELBASE + KERNSIZE) ==>
      GetPte(ram, pgd, va) == 0
  {
    hide Flat, Entry, Translate, GetPte, Tree, Mapped;
    forall a | 0 <= a < KERNSIZE ensures Translate(ram, pgd, Ptov(a)) == a {
      MappedTranslate(before, ram, pgd, KERNELBASE, 0x10000, 0, PAGE_RW, a);
    }
    forall va | 0 <= va < 0x1_0000_0000 && !(KERNELBASE <= va < KERNELBASE + KERNSIZE)
      ensures GetPte(ram, pgd, va) == 0
    {
      GetPteIsFlat(ram, pgd, va);
      assert Ahead(va / 0x1000, 0x8000) >= 0x10000;
      OutsideMapped(before, ram, pgd / 0x1000, va / 0x1000);
    }
  }

  // The entries of the kernel's own pages.
  lemma KernelFlags(before: Ram, ram: Ram, pgd: nat)
    requires pgd % 0x1000 == 0 && Tree(before, pgd / 0x1000) && Tree(ram, pgd / 0x1000)
    requires Mapped(before, ram, pgd / 0x1000, 0x8000, 0x10000, 0, PAGE_RW)
    ensures forall a :: 0 <= a < KERNSIZE ==> GetPte(ram, pgd, Ptov(a)) == a - a % 0x1000 + 3
  {
    hide Flat, Entry, GetPte, Tree;
    forall a | 0 <= a < KERNSIZE ensures GetPte(ram, pgd, Ptov(a)) == a - a % 0x1000 + 3 {
      var va := Ptov(a);
      GetPteIsFlat(ram, pgd, va);
      assert va / 0x1000 == 0x8000 + a / 0x1000 && Ahead(va / 0x1000, 0x8000) == a / 0x1000;
      EntryValue(a / 0x1000 * 0x1000, PAGE_RW);
    }
  }

  class Kernel {
    var ram: Ram
    var brk: nat
    var pgavail: int
    var pglist: seq<nat>
    ghost var heap: nat // the heap base: the address of the first page ever handed out

    // The pages handed out and not given back.
    ghost predicate Live(p: nat)
      reads this`brk, this`pglist, this`heap
    {
      heap <= p < brk && p % 0x1000 == 0 && p !in pglist
    }

    ghost predicate Valid()
      reads this
    {
      && heap % 0x1000 == 0 && brk % 0x1000 == 0 && heap <= brk <= 4 * |ram| <= 0x1_0000_0000
      && pgavail == |pglist|
      && (forall i :: 0 <= i < |pglist| ==> heap <= pglist[i] < brk && pglist[i] % 0x1000 == 0)
      && (forall i, j :: 0 <= i < j < |pglist| ==> pglist[i] != pglist[j])
    }

    lemma LivePage(p: nat)
      requires Live(p)
      ensures heap <= p < brk && p % 0x1000 == 0
    {
    }

    // The pages that can still be handed out: the free ones and those above the heap.
    ghost function Spare(): int
      reads this
    {
      |pglist| + (4 * |ram| - brk) / 0x1000
    }

    // The page handed out next.
    ghost function Next(): nat
      reads this
    {
      if pglist != [] then pglist[0] else brk
    }

    method AllocPage() returns (addr: nat)
      requires Valid() && Spare() > 0
      modifies this`pglist, this`pgavail, this`brk
      ensures Valid() && !old(Live(addr))
      ensures forall p :: 0 <= p ==> (Live(p) <==> p == addr || old(Live(p)))
      ensures if old(pglist) != [] then addr == old(pglist)[0] && pglist == old(pglist)[1..] && brk == old(brk)
              else addr == old(brk) && pglist == [] && brk == old(brk) + 0x1000
    {
      if pgavail > 0 {
        addr := pglist[0];
        ghost var was := pglist;
        pglist := pglist[1..];
        pgavail := pgavail - 1;
        assert was == [addr] + pglist;
      } else {
        addr := brk;
        brk := brk + 0x1000;
      }
    }

    // The list node is given its own storage.
    method FreePage(addr: nat)
      requires Valid() && Live(addr)
      modifies this`pglist, this`pgavail, this`ram
      ensures Valid() && pglist == [addr] + old(pglist) && brk == old(brk)
      ensures ram == ZeroPage(old(ram), addr / 0x1000)
      ensures forall p :: 0 <= p ==> (Live(p) <==> p != addr && old(Live(p)))
    {
      ram := ZeroPage(ram, addr / 0x1000);
      pglist := [addr] + pglist;
      pgavail := pgavail + 1;
    }

    // The directory at pgd and its tables are pages of their own among the live ones.
    ghost predicate Directory(pgd: nat)
      reads this
    {
      && Valid() && Live(pgd) && Tree(ram, pgd / 0x1000)
      && forall i :: 0 <= i < 1024 && ram[Cell(pgd / 0x1000, i)] % 2 == 1 ==>
           Live(ram[Cell(pgd / 0x1000, i)] / 0x1000 * 0x1000)
    }

    // The directory entries that have a table.
    ghost function Tables(pgd: nat): set<int>
      requires Tree(ram, pgd / 0x1000)
      reads this
    {
      set i | 0 <= i < 1024 && ram[Cell(pgd / 0x1000, i)] % 2 == 1
    }

    // A fresh zeroed table for directory entry i (memory.c:147-154).
    method AddTable(pgd: nat, i: nat, flags: nat) returns (pgtbl: nat)
      requires Directory(pgd) && i < 1024 && flags < 0x1000 && i !in Tables(pgd) && Spare() > 0
      modifies this`ram, this`pglist, this`pgavail, this`brk
      ensures Directory(pgd) && |ram| == |old(ram)| && pgtbl == ram[Cell(pgd / 0x1000, i)] / 0x1000 * 0x1000
      ensures pgtbl == old(Next()) && Entered(old(ram), ram, pgd / 0x1000, i, pgtbl + Odd(flags))
      ensures forall q :: 0 <= q < 0x10_0000 ==> Flat(ram, pgd / 0x1000, q) == old(Flat(ram, pgd / 0x1000, q))
      ensures Tables(pgd) == old(Tables(pgd)) + {i}
      ensures forall p :: 0 <= p && old(Live(p)) ==> Live(p)
      ensures if old(pglist) != [] then brk == old(brk) && pglist == old(pglist)[1..]
              else brk == old(brk) + 0x1000 && pglist == []
    {
      hide And, Or, Flat, Tree, Cell, Kernel.Live, Kernel.Valid;
      ghost var d := pgd / 0x1000;
      TreeCells(ram, d);
      pgtbl := AllocPage();
      assert forall j :: 0 <= j < 1024 && ram[Cell(d, j)] % 2 == 1 ==> ram[Cell(d, j)] / 0x1000 * 0x1000 != pgtbl;
      StoreTable(pgd, i, pgtbl, flags);
    }

    // Clears the table at t and enters it in the directory.
    method StoreTable(pgd: nat, i: nat, t: nat, flags: nat)
      requires Directory(pgd) && i < 1024 && flags < 0x1000 && i !in Tables(pgd)
      requires Live(t) && t != pgd
      requires forall j :: 0 <= j < 1024 && ram[Cell(pgd / 0x1000, j)] % 2 == 1 ==>
        ram[Cell(pgd / 0x1000, j)] / 0x1000 * 0x1000 != t
      modifies this`ram
      ensures Directory(pgd) && |ram| == |old(ram)| && t == ram[Cell(pgd / 0x1000, i)] / 0x1000 * 0x1000
      ensures Entered(old(ram), ram, pgd / 0x1000, i, t + Odd(flags))
      ensures forall q :: 0 <= q < 0x10_0000 ==> Flat(ram, pgd / 0x1000, q) == old(Flat(ram, pgd / 0x1000, q))
      ensures Tables(pgd) == old(Tables(pgd)) + {i}
    {
      hide And, Or, Flat, Tree, Odd, Kernel.Live;
      ghost var d, was := pgd / 0x1000, ram;
      LivePage(t);
      LivePage(pgd);
      TreeCell(ram, d, i, 0);
      TableEntry(t, flags);
      var pde := Or(Or(t, flags), PAGE_PRESENT);
      NewTable(ram, d, i, t / 0x1000, pde);
      ram := ZeroPage(ram, t / 0x1000);
      ram := ram[pgd / 4 + i := pde];
      Grown(was, pgd, i, pde);
    }

    // A directory with one entry more.
    lemma Grown(was: Ram, pgd: nat, i: nat, e: nat)
      requires Valid() && Live(pgd) && Tree(was, pgd / 0x1000) && Tree(ram, pgd / 0x1000) && i < 1024
      requires forall j :: 0 <= j < 1024 ==>
        ram[Cell(pgd / 0x1000, j)] == if j == i then e else was[Cell(pgd / 0x1000, j)]
      requires forall j :: 0 <= j < 1024 && was[Cell(pgd / 0x1000, j)] % 2 == 1 ==>
        Live(was[Cell(pgd / 0x1000, j)] / 0x1000 * 0x1000)
      requires e % 2 == 1 && Live(e / 0x1000 * 0x1000)
      ensures Directory(pgd)
      ensures Tables(pgd) == (set j | 0 <= j < 1024 && was[Cell(pgd / 0x1000, j)] % 2 == 1) + {i}
    {
      hide Kernel.Valid, Kernel.Live;
    }

    // The directory entry of va, with a fresh zeroed table when it has none (memory.c:136-154).
    method TableFor(pgd: nat, va: nat, flags: nat) returns (pgtbl: nat)
      requires Directory(pgd) && va < 0x1_0000_0000 && flags < 0x1000
      requires va / 0x1000 / 1024 in Tables(pgd) || Spare() > 0
      modifies this`ram, this`pglist, this`pgavail, this`brk
      ensures Directory(pgd) && |ram| == |old(ram)|
      ensures va / 0x1000 / 1024 in Tables(pgd)
      ensures pgtbl == ram[Cell(pgd / 0x1000, va / 0x1000 / 1024)] / 0x1000 * 0x1000
      ensures Entered(old(ram), ram, pgd / 0x1000, va / 0x1000 / 1024, old(Next()) + Odd(flags))
      ensures forall q :: 0 <= q < 0x10_0000 ==> Flat(ram, pgd / 0x1000, q) == old(Flat(ram, pgd / 0x1000, q))
      ensures Tables(pgd) == old(Tables(pgd)) + {va / 0x1000 / 1024}
      ensures forall p :: 0 <= p && old(Live(p)) ==> Live(p)
      ensures if va / 0x1000 / 1024 in old(Tables(pgd)) then brk == old(brk) && pglist == old(pglist)
              else if old(pglist) != [] then brk == old(brk) && pglist == old(pglist)[1..]
              else brk == old(brk) + 0x1000 && pglist == []
    {
      hide And, Or, Flat, Tree, PgLowBound, PgdIndex, Ppn;
      Walk(va);
      var plb := PgLowBound(va);
      ghost var d, i := pgd / 0x1000, va / 0x1000 / 1024;
      TreeCell(ram, d, i, 0);
      assert pgd / 4 + PgdIndex(plb) == Cell(d, i);
      var pde := ram[pgd / 4 + PgdIndex(plb)];
      Parts(pde);
      if And(pde, PAGE_PRESENT) != 0 {
        pgtbl := Ppn(pde);
        ram := ram[pgd / 4 + PgdIndex(plb) := pde];
        assert ram == old(ram);
      } else {
        pgtbl := AddTable(pgd, PgdIndex(plb), flags);
      }
    }

    method Map(pgd: nat, pa: nat, va: nat, flags: nat) returns (pte: nat)
      requires Directory(pgd) && pa < 0x1_0000_0000 && va < 0x1_0000_0000 && flags < 0x1000
      requires va / 0x1000 / 1024 in Tables(pgd) || Spare() > 0
      modifies this`ram, this`pglist, this`pgavail, this`brk
      ensures Directory(pgd) && |ram| == |old(ram)| && pte == Entry(pa, flags)
      ensures Entered(old(ram), ram, pgd / 0x1000, va / 0x1000 / 1024, old(Next()) + Odd(flags))
      ensures forall q :: 0 <= q < 0x10_0000 ==>
        Flat(ram, pgd / 0x1000, q) == if q == va / 0x1000 then Entry(pa, flags) else old(Flat(ram, pgd / 0x1000, q))
      ensures Tables(pgd) == old(Tables(pgd)) + {va / 0x1000 / 1024}
      ensures forall p :: 0 <= p && old(Live(p)) ==> Live(p)
      ensures if va / 0x1000 / 1024 in old(Tables(pgd)) then brk == old(brk) && pglist == old(pglist)
              else if old(pglist) != [] then brk == old(brk) && pglist == old(pglist)[1..]
              else brk == old(brk) + 0x1000 && pglist == []
    {
      hide And, Or, Flat, Tree, Ppn, Odd, Kernel.Valid, Kernel.Live, Kernel.Tables, Kernel.Spare;
      var pgtbl := TableFor(pgd, va, flags);
      EntryValue(pa, flags);
      pte := SetEntry(pgd, pgtbl, va, Or(Or(Ppn(pa), flags), PAGE_PRESENT));
    }

    method SetEntry(pgd: nat, pgtbl: nat, va: nat, entry: nat) returns (pte: nat)
      requires Directory(pgd) && va < 0x1_0000_0000 && entry % 2 == 1
      requires va / 0x1000 / 1024 in Tables(pgd)
      requires pgtbl == ram[Cell(pgd / 0x1000, va / 0x1000 / 1024)] / 0x1000 * 0x1000
      modifies this`ram
      ensures Directory(pgd) && |ram| == |old(ram)| && pte == entry && Tables(pgd) == old(Tables(pgd))
      ensures forall j :: 0 <= j < 1024 ==> ram[Cell(pgd / 0x1000, j)] == old(ram)[Cell(pgd / 0x1000, j)]
      ensures forall q :: 0 <= q < 0x10_0000 ==>
        Flat(ram, pgd / 0x1000, q) == if q == va / 0x1000 then entry else old(Flat(ram, pgd / 0x1000, q))
    {
      hide And, Or, Flat, Tree, PgLowBound, PgdIndex, PgtIndex;
      Walk(va);
      var plb := PgLowBound(va);
      ghost var d, p := pgd / 0x1000, va / 0x1000;
      TreeCell(ram, d, p / 1024, p % 1024);
      assert pgtbl / 4 + PgtIndex(plb) == Cell(ram[Cell(d, p / 1024)] / 0x1000, p % 1024);
      StoreEntry(ram, d, p, entry);
      ram := ram[pgtbl / 4 + PgtIndex(plb) := entry];
      pte := ram[pgtbl / 4 + PgtIndex(plb)];
    }

    // k of n pages from page p on have been mapped since memory was `before`.
    ghost predicate Ranging(before: Ram, tables: set<int>, brk0: int, pgd: nat,
                            p: nat, k: nat, n: nat, base: nat, flags: nat)
      reads this
    {
      && Directory(pgd) && |ram| == |before| && Tree(before, pgd / 0x1000) && p < 0x10_0000 && k <= n < 0x10_0000
      && Mapped(before, ram, pgd / 0x1000, p, k, base, flags)
      && Flagged(before, ram, pgd / 0x1000, Covered(p, k), flags)
      && Tables(pgd) == tables + Covered(p, k)
      && Spare() >= |tables + Covered(p, n)| - |Tables(pgd)|
      && (brk0 >= 0 ==> pglist == [] && brk == brk0 + 0x1000 * (|Tables(pgd)| - |tables|))
    }

    lemma NextAligned()
      requires Valid()
      ensures Next() % 0x1000 == 0
    {
    }

    // map for the page q0, with what it costs.
    method MapPage(pgd: nat, pa: nat, va: nat, ghost q0: nat, flags: nat)
      requires Directory(pgd) && pa < 0x1_0000_0000 && flags < 0x1000 && q0 < 0x10_0000 && va == q0 * 0x1000
      requires q0 / 1024 in Tables(pgd) || Spare() > 0
      modifies this`ram, this`pglist, this`pgavail, this`brk
      ensures Directory(pgd) && |ram| == |old(ram)|
      ensures Entered(old(ram), ram, pgd / 0x1000, q0 / 1024, old(Next()) + Odd(flags))
      ensures forall q :: 0 <= q < 0x10_0000 ==>
        Flat(ram, pgd / 0x1000, q) == if q == q0 then Entry(pa, flags) else old(Flat(ram, pgd / 0x1000, q))
      ensures Tables(pgd) == old(Tables(pgd)) + {q0 / 1024}
      ensures Spare() == old(Spare()) - if q0 / 1024 in old(Tables(pgd)) then 0 else 1
      ensures old(pglist) == [] ==>
        pglist == [] && brk == old(brk) + if q0 / 1024 in old(Tables(pgd)) then 0 else 0x1000
    {
      hide Flat, Entry, Tree, Kernel.Valid, Kernel.Live, Kernel.Tables;
      assert va / 0x1000 == q0;
      var _ := Map(pgd, pa, va, flags);
    }

    method RangeStep(ghost before: Ram, ghost tables: set<int>, ghost brk0: int, pgd: nat,
                     ghost p: nat, ghost k: nat, ghost n: nat, ghost base: nat, plb: nat, vlb: nat, flags: nat)
      requires Ranging(before, tables, brk0, pgd, p, k, n, base, flags) && k < n && flags < 0x1000
      requires plb == base + k * 0x1000 < 0x1_0000_0000 && vlb == Wrap(p, k) * 0x1000
      modifies this`ram, this`pglist, this`pgavail, this`brk
      ensures Ranging(before, tables, brk0, pgd, p, k + 1, n, base, flags)
    {
      hide Flat, Entry, Mapped, Tree, Kernel.Valid, Kernel.Live, Kernel.Spare, Kernel.Tables;
      CoveredStep(p, k, n, tables);
      ghost var was, next := ram, Next();
      NextAligned();
      MapPage(pgd, plb, vlb, Wrap(p, k), flags);
      assert Tables(pgd) == tables + Covered(p, k + 1);
      MappedStep(before, was, ram, pgd / 0x1000, p, k, base, flags);
      FlaggedNext(before, was, ram, pgd / 0x1000, Covered(p, k), DirOf(p, k), next, flags);
    }

    // Maps the pages from that of va on to the frames from that of pa on.  The addresses
    // are 32 bits wide: virtual pages go on from 0 behind the last.
    method RangeMap(pgd: nat, pa: nat, va: nat, size: nat, flags: nat)
      requires Directory(pgd) && pa < 0x1_0000_0000 && va < 0x1_0000_0000 && size < 0x1_0000_0000 && flags < 0x1000
      requires pa - pa % 0x1000 + size <= 0x1_0000_0000 - 0x1000
      requires Spare() >= |Tables(pgd) + Covered(va / 0x1000, PagesFor(size))| - |Tables(pgd)|
      modifies this`ram, this`pglist, this`pgavail, this`brk
      ensures Directory(pgd) && |ram| == |old(ram)|
      ensures Mapped(old(ram), ram, pgd / 0x1000, va / 0x1000, PagesFor(size), pa - pa % 0x1000, flags)
      ensures Flagged(old(ram), ram, pgd / 0x1000, Covered(va / 0x1000, PagesFor(size)), flags)
      ensures Tables(pgd) == old(Tables(pgd)) + Covered(va / 0x1000, PagesFor(size))
      ensures old(pglist) == [] ==> pglist == [] && brk == old(brk) + 0x1000 * (|Tables(pgd)| - |old(Tables(pgd))|)
    {
      hide Tree, Flat, Entry, Mapped, Covered, PagesFor;
      hide Kernel.Valid, Kernel.Spare, Kernel.Tables, Kernel.Ranging, Kernel.Live;
      PagesBelow(size);
      ghost var before, tables, brk0 := ram, Tables(pgd), if pglist == [] then brk else -1;
      RangeStart(pgd, va / 0x1000, PagesFor(size), pa - pa % 0x1000, flags);
      RangeLoop(before, tables, brk0, pgd, pa, va, size, flags);
      RangeEnd(before, tables, brk0, pgd, va / 0x1000, PagesFor(size), pa - pa % 0x1000, flags);
    }

    lemma RangeEnd(before: Ram, tables: set<int>, brk0: int, pgd: nat, p: nat, n: nat, base: nat, flags: nat)
      requires Ranging(before, tables, brk0, pgd, p, n, n, base, flags)
      ensures Directory(pgd) && |ram| == |before| && Tree(before, pgd / 0x1000) && p < 0x10_0000
      ensures Mapped(before, ram, pgd / 0x1000, p, n, base, flags)
      ensures Flagged(before, ram, pgd / 0x1000, Covered(p, n), flags)
      ensures Tables(pgd) == tables + Covered(p, n)
      ensures brk0 >= 0 ==> pglist == [] && brk == brk0 + 0x1000 * (|Tables(pgd)| - |tables|)
    {
    }

    lemma RangeStart(pgd: nat, p: nat, n: nat, base: nat, flags: nat)
      requires Directory(pgd) && p < 0x10_0000 && n < 0x10_0000
      requires Spare() >= |Tables(pgd) + Covered(p, n)| - |Tables(pgd)|
      ensures Ranging(ram, Tables(pgd), if pglist == [] then brk else -1, pgd, p, 0, n, base, flags)
    {
      hide Tree, Flat, Entry, Kernel.Valid, Mapped, Kernel.Spare;
      assert Tables(pgd) + Covered(p, 0) == Tables(pgd);
      SameMapped(ram, pgd / 0x1000, p, base, flags);
      assert Flagged(ram, ram, pgd / 0x1000, Covered(p, 0), flags);
    }

    method RangeLoop(ghost before: Ram, ghost tables: set<int>, ghost brk0: int, pgd: nat,
                     pa: nat, va: nat, size: nat, flags: nat)
      requires pa < 0x1_0000_0000 && va < 0x1_0000_0000 && size < 0x1_0000_0000 && flags < 0x1000
      requires pa - pa % 0x1000 + size <= 0x1_0000_0000 - 0x1000
      requires Ranging(before, tables, brk0, pgd, va / 0x1000, 0, PagesFor(size), pa - pa % 0x1000, flags)
      modifies this`ram, this`pglist, this`pgavail, this`brk
      ensures Ranging(before, tables, brk0, pgd, va / 0x1000, PagesFor(size), PagesFor(size), pa - pa % 0x1000, flags)
    {
      hide *;
      Splitting(pa);
      Splitting(va);
      NextPage(va / 0x1000, 0);
      var plb := PgLowBound(pa);
      var pub := (plb + size) % 0x1_0000_0000;
      var vlb := PgLowBound(va);
      ghost var k, n, p, base := 0, PagesFor(size), va / 0x1000, plb;
      while plb < pub
        invariant 0 <= k <= n && plb == base + k * 0x1000 && vlb == Wrap(p, k) * 0x1000
        invariant Ranging(before, tables, brk0, pgd, p, k, n, base, flags)
        decreases n - k
      {
        TurnsLeft(size, k);
        NextPage(p, k);
        RangeStep(before, tables, brk0, pgd, p, k, n, base, plb, vlb, flags);
        plb := plb + 0x1000;
        vlb := (vlb + 0x1000) % 0x1_0000_0000;
        k := k + 1;
      }
      TurnsLeft(size, k);
    }

    // The allocator at boot and its first page, cleared to be the kernel's directory.
    method FirstPage(kernheap: nat) returns (kpgdir: nat)
      requires kernheap + 0xfff < 0x1_0000_0000 && PgUpBound(kernheap) + 0x1000 <= 4 * |ram| <= 0x1_0000_0000
      modifies this
      ensures Directory(kpgdir) && |ram| == |old(ram)| && heap == kpgdir == PgUpBound(kernheap)
      ensures brk == heap + 0x1000 && pglist == [] && Tables(kpgdir) == {}
      ensures forall i :: 0 <= i < 1024 ==> ram[Cell(kpgdir / 0x1000, i)] == 0
    {
      hide And, Or, PgUpBound, Tree, Kernel.Tables;
      UpBound(kernheap);
      pgavail, pglist := 0, [];
      brk := PgUpBound(kernheap);
      heap := brk;
      kpgdir := AllocPage();
      ZeroCells(ram, kpgdir / 0x1000);
      ram := ZeroPage(ram, kpgdir / 0x1000);
      EmptyDirectory(kpgdir);
    }

    lemma EmptyDirectory(pgd: nat)
      requires Valid() && Live(pgd) && Cell(pgd / 0x1000, 1023) < |ram|
      requires forall i :: 0 <= i < 1024 ==> ram[Cell(pgd / 0x1000, i)] == 0
      ensures Directory(pgd) && Tables(pgd) == {}
    {
    }

    // The table-building part of kmemInit.
    method KmemInit(kernheap: nat) returns (kpgdir: nat)
      requires kernheap + 0xfff < 0x1_0000_0000
      requires PgUpBound(kernheap) + 65 * 0x1000 <= 4 * |ram| <= 0x1_0000_0000
      modifies this
      ensures Directory(kpgdir) && kpgdir == PgUpBound(kernheap) && brk == kpgdir + 65 * 0x1000
      ensures forall a :: 0 <= a < KERNSIZE ==> Translate(ram, kpgdir, Ptov(a)) == a
      ensures forall va :: 0 <= va < 0x1_0000_0000 && !(KERNELBASE <= va < KERNELBASE + KERNSIZE) ==>
        GetPte(ram, kpgdir, va) == 0
      ensures forall a :: 0 <= a < KERNSIZE ==> GetPte(ram, kpgdir, Ptov(a)) == a - a % 0x1000 + 3
      ensures forall j :: 0 <= j < 1024 ==>
        if 32 <= j < 96 then ram[Cell(kpgdir / 0x1000, j)] % 2 == 1 && Offset(ram[Cell(kpgdir / 0x1000, j)]) == 3
        else ram[Cell(kpgdir / 0x1000, j)] == 0
    {
      hide And, Or, Flat, Entry, Mapped, Tree, Covered, PgUpBound, Tables, Offset;
      kpgdir := FirstPage(kernheap);
      ghost var before := ram;
      CoveredRange(0x8000, 0x10000);
      assert {} + Covered(0x8000, 0x10000) == Covered(0x8000, 0x10000);
      assert PagesFor(KERNSIZE) == 0x10000 && Ptov(0) / 0x1000 == 0x8000;
      RangeMap(kpgdir, 0, Ptov(0), KERNSIZE, PAGE_RW);
      KernelMapped(before, ram, kpgdir);
      KernelFlags(before, ram, kpgdir);
    }
  }
}
