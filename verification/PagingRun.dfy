// Runs of map on one directory, and runs of the page allocator.
module PagingRun {
  import opened Address
  import opened Paging
  import Counting
  import Links

  // A call of map.
  datatype Request = Request(pa: nat, va: nat, flags: nat)

  predicate Proper(r: Request) {
    r.pa < 0x1_0000_0000 && r.va < 0x1_0000_0000 && r.flags < 0x1000
  }

  // The last request for page q, if there is one.
  function Last(rs: seq<Request>, q: nat): (i: int)
    ensures -1 <= i < |rs|
    ensures i >= 0 ==> rs[i].va / 0x1000 == q && forall j :: i < j < |rs| ==> rs[j].va / 0x1000 != q
    ensures i < 0 ==> forall j :: 0 <= j < |rs| ==> rs[j].va / 0x1000 != q
  {
    if rs == [] then -1
    else if rs[|rs| - 1].va / 0x1000 == q then |rs| - 1
    else
      var i := Last(rs[..|rs| - 1], q);
      assert forall j :: 0 <= j < |rs| - 1 ==> rs[..|rs| - 1][j] == rs[j];
      i
  }

  // The directory entries in whose range a page is mapped.
  ghost function Dirs(rs: seq<Request>): set<int> {
    set j | 0 <= j < |rs| :: rs[j].va / 0x1000 / 1024
  }

  // The first request for a page in the range of directory entry i, if there is one.
  function First(rs: seq<Request>, i: nat): (j: int)
    ensures -1 <= j < |rs|
    ensures j >= 0 ==> rs[j].va / 0x1000 / 1024 == i && forall k :: 0 <= k < j ==> rs[k].va / 0x1000 / 1024 != i
    ensures j < 0 ==> forall k :: 0 <= k < |rs| ==> rs[k].va / 0x1000 / 1024 != i
  {
    if rs == [] then -1
    else
      var j := First(rs[..|rs| - 1], i);
      assert forall k :: 0 <= k < |rs| - 1 ==> rs[..|rs| - 1][k] == rs[k];
      if j >= 0 then j else if rs[|rs| - 1].va / 0x1000 / 1024 == i then |rs| - 1 else -1
  }

  // Each directory entry that was absent has the flags of the first request in its range, and every
  // other is as it was.
  ghost predicate FirstFlags(before: Ram, ram: Ram, d: nat, rs: seq<Request>)
    requires Tree(before, d) && Tree(ram, d)
  {
    forall i :: 0 <= i < 1024 ==>
      var j := First(rs, i);
      if before[Cell(d, i)] % 2 != 1 && j >= 0 then
        ram[Cell(d, i)] % 2 == 1 && Offset(ram[Cell(d, i)]) == Odd(rs[j].flags)
      else ram[Cell(d, i)] == before[Cell(d, i)]
  }

  lemma FirstNext(before: Ram, was: Ram, ram: Ram, d: nat, rs: seq<Request>, r: Request, t: nat)
    requires Tree(before, d) && Tree(was, d) && Tree(ram, d) && Proper(r) && t % 0x1000 == 0
    requires FirstFlags(before, was, d, rs) && Entered(was, ram, d, r.va / 0x1000 / 1024, t + Odd(r.flags))
    ensures FirstFlags(before, ram, d, rs + [r])
  {
    hide Offset, Odd, Tree;
    OddEntry(t, r.flags);
    assert (rs + [r])[..|rs|] == rs;
  }

  // Each page is as its last request has it, or as it was.
  ghost predicate Mirrors(before: Ram, ram: Ram, d: nat, rs: seq<Request>)
    requires Tree(before, d) && Tree(ram, d)
  {
    forall q :: 0 <= q < 0x10_0000 ==>
      Flat(ram, d, q) == (var i := Last(rs, q); if i < 0 then Flat(before, d, q) else Entry(rs[i].pa, rs[i].flags))
  }

  lemma MirrorsNext(before: Ram, ram: Ram, ram': Ram, d: nat, rs: seq<Request>, r: Request)
    requires Tree(before, d) && Tree(ram, d) && Tree(ram', d) && Mirrors(before, ram, d, rs) && Proper(r)
    requires forall q :: 0 <= q < 0x10_0000 ==>
      Flat(ram', d, q) == if q == r.va / 0x1000 then Entry(r.pa, r.flags) else Flat(ram, d, q)
    ensures Mirrors(before, ram', d, rs + [r])
  {
    hide Flat, Entry, Tree;
    assert (rs + [r])[..|rs|] == rs;
  }

  lemma DirsNext(tables: set<int>, rs: seq<Request>, n: nat)
    requires n < |rs|
    ensures Dirs(rs[..n + 1]) == Dirs(rs[..n]) + {rs[n].va / 0x1000 / 1024}
    ensures |tables + Dirs(rs[..n + 1])| <= |tables + Dirs(rs)|
  {
    forall i ensures i in Dirs(rs[..n + 1]) <==> i in Dirs(rs[..n]) + {rs[n].va / 0x1000 / 1024} {
      if i in Dirs(rs[..n]) {
        var j :| 0 <= j < n && rs[..n][j].va / 0x1000 / 1024 == i;
        assert rs[..n + 1][j] == rs[..n][j];
      }
      assert rs[..n + 1][n] == rs[n];
    }
    forall i | i in Dirs(rs[..n + 1]) ensures i in Dirs(rs) {
      var j :| 0 <= j < n + 1 && rs[..n + 1][j].va / 0x1000 / 1024 == i;
      assert rs[..n + 1][j] == rs[j];
    }
    Counting.SubsetSize(tables + Dirs(rs[..n + 1]), tables + Dirs(rs));
  }

  // The state after the first n of the requests.
  ghost predicate Mapping(k: Kernel, before: Ram, tables: set<int>, spare: int, pgd: nat, rs: seq<Request>, n: nat)
    reads k
  {
    && n <= |rs| && k.Directory(pgd) && Tree(before, pgd / 0x1000) && |k.ram| == |before|
    && Mirrors(before, k.ram, pgd / 0x1000, rs[..n]) && FirstFlags(before, k.ram, pgd / 0x1000, rs[..n])
    && k.Tables(pgd) == tables + Dirs(rs[..n])
    && k.Spare() == spare - (|k.Tables(pgd)| - |tables|)
  }

  method MapNext(k: Kernel, ghost before: Ram, ghost tables: set<int>, ghost spare: int,
                 pgd: nat, rs: seq<Request>, n: nat)
    requires n < |rs| && Mapping(k, before, tables, spare, pgd, rs, n) && Proper(rs[n])
    requires spare >= |tables + Dirs(rs)| - |tables|
    modifies k`ram, k`pglist, k`pgavail, k`brk
    ensures Mapping(k, before, tables, spare, pgd, rs, n + 1)
  {
    hide Tree, Flat, Entry, Mirrors, FirstFlags, Entered, Dirs, Kernel.Valid, Kernel.Tables;
    DirsNext(tables, rs, n);
    k.NextAligned();
    ghost var next := k.Next();
    ghost var was, t, dir := k.ram, k.Tables(pgd), rs[n].va / 0x1000 / 1024;
    assert tables + Dirs(rs[..n + 1]) == t + {dir};
    assert dir in t ==> t + {dir} == t;
    var _ := k.Map(pgd, rs[n].pa, rs[n].va, rs[n].flags);
    MirrorsNext(before, was, k.ram, pgd / 0x1000, rs[..n], rs[n]);
    FirstNext(before, was, k.ram, pgd / 0x1000, rs[..n], rs[n], next);
    assert rs[..n] + [rs[n]] == rs[..n + 1];
  }

  // Over every run of map calls, getpte gives the entry of the last mapping of a page and what it
  // gave before for a page never mapped, and one new table is used for each directory entry first
  // needed.
  method MapAll(k: Kernel, pgd: nat, rs: seq<Request>)
    requires k.Directory(pgd) && forall j :: 0 <= j < |rs| ==> Proper(rs[j])
    requires k.Spare() >= |k.Tables(pgd) + Dirs(rs)| - |k.Tables(pgd)|
    modifies k`ram, k`pglist, k`pgavail, k`brk
    ensures k.Directory(pgd) && Mirrors(old(k.ram), k.ram, pgd / 0x1000, rs)
    ensures FirstFlags(old(k.ram), k.ram, pgd / 0x1000, rs)
    ensures k.Tables(pgd) == old(k.Tables(pgd)) + Dirs(rs)
    ensures k.Spare() == old(k.Spare()) - (|k.Tables(pgd)| - |old(k.Tables(pgd))|)
  {
    hide Mapping, Dirs, Mirrors, FirstFlags, Tree, Kernel.Tables, Kernel.Valid;
    ghost var before, tables, spare := k.ram, k.Tables(pgd), k.Spare();
    MapStart(k, pgd, rs);
    for n := 0 to |rs|
      invariant Mapping(k, before, tables, spare, pgd, rs, n)
    {
      MapNext(k, before, tables, spare, pgd, rs, n);
    }
    MapEnd(k, before, tables, spare, pgd, rs);
  }

  lemma MapEnd(k: Kernel, before: Ram, tables: set<int>, spare: int, pgd: nat, rs: seq<Request>)
    requires Mapping(k, before, tables, spare, pgd, rs, |rs|)
    ensures k.Directory(pgd) && Tree(before, pgd / 0x1000) && Mirrors(before, k.ram, pgd / 0x1000, rs)
    ensures FirstFlags(before, k.ram, pgd / 0x1000, rs)
    ensures k.Tables(pgd) == tables + Dirs(rs) && k.Spare() == spare - (|k.Tables(pgd)| - |tables|)
  {
    assert rs[..|rs|] == rs;
  }

  lemma MapStart(k: Kernel, pgd: nat, rs: seq<Request>)
    requires k.Directory(pgd)
    ensures Mapping(k, k.ram, k.Tables(pgd), k.Spare(), pgd, rs, 0)
  {
    assert rs[..0] == [];
  }

  lemma GetPteOfLast(before: Ram, ram: Ram, pgd: nat, rs: seq<Request>, va: nat)
    requires pgd % 0x1000 == 0 && Tree(before, pgd / 0x1000) && Tree(ram, pgd / 0x1000) && va < 0x1_0000_0000
    requires Mirrors(before, ram, pgd / 0x1000, rs) && forall j :: 0 <= j < |rs| ==> Proper(rs[j])
    ensures
      var i := Last(rs, va / 0x1000);
      if i < 0 then
        GetPte(ram, pgd, va) == GetPte(before, pgd, va) && Translate(ram, pgd, va) == Translate(before, pgd, va)
      else
        && GetPte(ram, pgd, va) == Entry(rs[i].pa, rs[i].flags)
        && Translate(ram, pgd, va) == rs[i].pa - rs[i].pa % 0x1000 + va % 0x1000
  {
    GetPteIsFlat(ram, pgd, va);
    GetPteIsFlat(before, pgd, va);
    var i := Last(rs, va / 0x1000);
    hide Flat, Entry, GetPte, Last;
    if i >= 0 {
      TranslateEntry(ram, pgd, va, rs[i].pa, rs[i].flags);
    }
  }

  // ---- the page allocator

  // Take allocates a page; Give frees the i-th of those held, if there are so many.
  datatype PageOp = Take | Give(i: nat)

  // The pages held, apart from those that were live before.
  ghost predicate Holding(k: Kernel, others: set<nat>, held: seq<nat>)
    reads k
  {
    && k.Valid()
    && (forall i, j :: 0 <= i < j < |held| ==> held[i] != held[j])
    && (forall p: nat :: k.Live(p) <==> p in held || p in others)
    && (forall i :: 0 <= i < |held| ==> held[i] !in others)
  }

  method Serve(k: Kernel, ghost others: set<nat>, held: seq<nat>, op: PageOp) returns (now: seq<nat>)
    requires Holding(k, others, held) && (op.Take? ==> k.Spare() > 0)
    modifies k`ram, k`pglist, k`pgavail, k`brk
    ensures Holding(k, others, now) && |k.ram| == |old(k.ram)|
    ensures
      match op
      case Take => |now| == |held| + 1 && now[..|held|] == held && k.Spare() == old(k.Spare()) - 1
      case Give(i) =>
        if i < |held| then
          && now == Links.Without(held, i) && k.Spare() == old(k.Spare()) + 1
          && k.pglist == [held[i]] + old(k.pglist)
        else now == held && k.Spare() == old(k.Spare())
    ensures 0x1000 * (|now| - |held| + |k.pglist| - |old(k.pglist)|) == k.brk - old(k.brk)
    ensures op.Take? && old(k.pglist) != [] ==> now[|held|] == old(k.pglist)[0]
  {
    match op
    case Take =>
      var p := k.AllocPage();
      now := held + [p];
    case Give(i) =>
      if i < |held| {
        assert k.Live(held[i]);
        k.FreePage(held[i]);
        now := Links.Without(held, i);
      } else {
        now := held;
      }
  }

  // How many pages a run holds at its end.
  function HeldAfter(ops: seq<PageOp>): nat {
    if ops == [] then 0
    else
      var n := HeldAfter(ops[..|ops| - 1]);
      match ops[|ops| - 1]
      case Take => n + 1
      case Give(i) => if i < n then n - 1 else n
  }

  lemma HeldNext(ops: seq<PageOp>, n: nat)
    requires n < |ops|
    ensures
      var held := HeldAfter(ops[..n]);
      HeldAfter(ops[..n + 1]) ==
        match ops[n]
        case Take => held + 1
        case Give(i) => if i < held then held - 1 else held
  {
    assert ops[..n + 1][..n] == ops[..n];
  }

  lemma HeldNone()
    ensures HeldAfter([]) == 0
  {
  }

  // No allocation finds the memory used up.
  predicate AlwaysSpare(spare: int, ops: seq<PageOp>) {
    forall n :: 0 <= n < |ops| && ops[n].Take? ==> HeldAfter(ops[..n]) < spare
  }

  // Over every run of allocations and frees, whatever pages were live before, no page is held twice,
  // the pages held are the newly live ones, and each page that brk has moved past is held or in
  // the list.
  method PageRun(k: Kernel, ghost others: set<nat>, ops: seq<PageOp>) returns (held: seq<nat>)
    requires Holding(k, others, []) && AlwaysSpare(k.Spare(), ops)
    modifies k`ram, k`pglist, k`pgavail, k`brk
    ensures Holding(k, others, held) && |held| == HeldAfter(ops)
    ensures 0x1000 * (|held| + k.pgavail - old(k.pgavail)) == k.brk - old(k.brk)
  {
    hide HeldAfter, Kernel.Live, Kernel.Spare;
    HeldNone();
    assert ops[..0] == [];
    held := [];
    for n := 0 to |ops|
      invariant Holding(k, others, held) && |held| == HeldAfter(ops[..n])
      invariant k.Spare() == old(k.Spare()) - |held|
      invariant 0x1000 * (|held| + |k.pglist| - old(|k.pglist|)) == k.brk - old(k.brk)
    {
      HeldNext(ops, n);
      held := Serve(k, others, held, ops[n]);
    }
    assert ops[..|ops|] == ops;
  }

  // From an empty heap: the pages held and those in the list are all pages up to brk.
  method PageRunFromBoot(k: Kernel, ops: seq<PageOp>) returns (held: seq<nat>)
    requires k.Valid() && k.brk == k.heap && k.pglist == [] && AlwaysSpare(k.Spare(), ops)
    modifies k`ram, k`pglist, k`pgavail, k`brk
    ensures Holding(k, {}, held) && 0x1000 * (|held| + k.pgavail) == k.brk - k.heap
  {
    held := PageRun(k, {}, ops);
  }
}
