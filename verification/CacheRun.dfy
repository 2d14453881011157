// Runs of blockRead, blockWrite and relCachedBlock.
module CacheRun {
  import opened BlockCache
  import Counting

  // Drop releases the block after a read of it, Edit changes the cached buffer in place before
  // its blockWrite, Put writes from a buffer of the caller's own.
  datatype Op =
    | Get(dev: int, blkno: nat)
    | Put(dev: int, blkno: nat, bytes: seq<byte>)
    | Edit(dev: int, blkno: nat, bytes: seq<byte>)
    | Drop(dev: int, blkno: nat)

  function Key(op: Op): (int, int) {
    (op.dev, op.blkno as int)
  }

  predicate Writes(op: Op, dev: int, blkno: int) {
    (op.Put? || op.Edit?) && op.dev == dev && op.blkno == blkno
  }

  // The bytes last written to a block, or what the disk had.
  function LastWritten(disk: Disk, ops: seq<Op>, dev: int, blkno: int): seq<byte> {
    if ops == [] then Sector(disk, dev, blkno)
    else
      var op := ops[|ops| - 1];
      if Writes(op, dev, blkno) then op.bytes else LastWritten(disk, ops[..|ops| - 1], dev, blkno)
  }

  predicate OpsOk(ops: seq<Op>) {
    forall k :: 0 <= k < |ops| && (ops[k].Put? || ops[k].Edit?) ==> |ops[k].bytes| == BSIZE
  }

  ghost function Touched(ops: seq<Op>): set<(int, int)> {
    set k | 0 <= k < |ops| :: Key(ops[k])
  }

  // The blocks in the cache.
  ghost function Cached(cache: Cache): set<(int, int)>
    requires cache.Valid()
    reads cache
  {
    cache.Resident()
  }

  ghost predicate Mirrors(cache: Cache, disk: Disk, ops: seq<Op>)
    reads cache
  {
    forall d, b :: Sector(cache.disk, d, b) == LastWritten(disk, ops, d, b)
  }

  lemma LastNext(disk: Disk, ops: seq<Op>, op: Op)
    ensures forall d, b ::
      LastWritten(disk, ops + [op], d, b) == if Writes(op, d, b) then op.bytes else LastWritten(disk, ops, d, b)
  {
    assert (ops + [op])[..|ops|] == ops;
  }

  lemma MirrorsNone(cache: Cache)
    ensures Mirrors(cache, cache.disk, [])
  {
  }

  // One operation; out is what a Get delivers.
  method Serve(cache: Cache, op: Op, ghost disk: Disk, ghost ops: seq<Op>) returns (out: seq<byte>)
    requires cache.Valid() && Mirrors(cache, disk, ops) && OpsOk([op])
    requires Key(op) in Cached(cache) || |Cached(cache)| < BCACHE_SIZE
    modifies cache
    ensures cache.Valid() && Mirrors(cache, disk, ops + [op])
    ensures Cached(cache) == if op.Drop? then old(Cached(cache)) - {Key(op)} else old(Cached(cache)) + {Key(op)}
    ensures op.Get? ==> out == LastWritten(disk, ops, op.dev, op.blkno)
  {
    hide Cache.Structure, Cache.Coherent, ResidentOf, LastWritten;
    LastNext(disk, ops, op);
    out := [];
    match op
    case Get(dev, blkno) =>
      var blk := cache.BlockRead(dev, blkno);
      out := cache.data[blk];
    case Put(dev, blkno, bytes) =>
      assert [op][0] == op;
      cache.BlockWrite(dev, blkno, bytes, -1);
    case Edit(dev, blkno, bytes) =>
      assert [op][0] == op;
      var blk := cache.BlockRead(dev, blkno);
      cache.EditAndWrite(blk, bytes);
    case Drop(dev, blkno) =>
      var blk := cache.BlockRead(dev, blkno);
      cache.Release(blk);
  }

  // The blocks cached after a run that began with those of c.
  ghost function CachedAfter(c: set<(int, int)>, ops: seq<Op>): set<(int, int)> {
    if ops == [] then c
    else
      var was, op := CachedAfter(c, ops[..|ops| - 1]), ops[|ops| - 1];
      if op.Drop? then was - {Key(op)} else was + {Key(op)}
  }

  // Each operation finds its block cached or a buffer on the ring.
  ghost predicate AlwaysServed(c: set<(int, int)>, ops: seq<Op>) {
    forall k :: 0 <= k < |ops| ==>
      Key(ops[k]) in CachedAfter(c, ops[..k]) || |CachedAfter(c, ops[..k])| < BCACHE_SIZE
  }

  lemma CachedNext(c: set<(int, int)>, ops: seq<Op>, k: nat)
    requires k < |ops|
    ensures CachedAfter(c, ops[..k + 1]) ==
            if ops[k].Drop? then CachedAfter(c, ops[..k]) - {Key(ops[k])}
            else CachedAfter(c, ops[..k]) + {Key(ops[k])}
  {
    assert ops[..k + 1][..k] == ops[..k];
  }

  // Over every run in which a miss finds a buffer on the ring, each read yields the bytes last
  // written to its block, whatever was released and reused in between.
  method Replay(cache: Cache, ops: seq<Op>) returns (outs: seq<seq<byte>>)
    requires cache.Valid() && OpsOk(ops) && AlwaysServed(Cached(cache), ops)
    modifies cache
    ensures cache.Valid() && Mirrors(cache, old(cache.disk), ops) && |outs| == |ops|
    ensures Cached(cache) == CachedAfter(old(Cached(cache)), ops)
    ensures forall k :: 0 <= k < |ops| && ops[k].Get? ==>
      outs[k] == LastWritten(old(cache.disk), ops[..k], ops[k].dev, ops[k].blkno)
  {
    hide Cache.Valid, Cached, CachedAfter, Mirrors, Sector, LastWritten;
    ghost var disk, c := cache.disk, Cached(cache);
    MirrorsNone(cache);
    CachedNone(c);
    assert ops[..0] == [];
    outs := [];
    for k := 0 to |ops|
      invariant cache.Valid() && Mirrors(cache, disk, ops[..k]) && |outs| == k
      invariant Cached(cache) == CachedAfter(c, ops[..k])
      invariant forall i :: 0 <= i < k && ops[i].Get? ==>
        outs[i] == LastWritten(disk, ops[..i], ops[i].dev, ops[i].blkno)
    {
      assert ops[..k] + [ops[k]] == ops[..k + 1];
      CachedNext(c, ops, k);
      var out := Serve(cache, ops[k], disk, ops[..k]);
      outs := outs + [out];
    }
    assert ops[..|ops|] == ops;
  }

  lemma CachedNone(c: set<(int, int)>)
    ensures CachedAfter(c, []) == c
  {
  }

  // A run on at most BCACHE_SIZE blocks, those cached before it included, is always served.
  lemma FewBlocksServed(c: set<(int, int)>, ops: seq<Op>)
    requires |c + Touched(ops)| <= BCACHE_SIZE
    ensures AlwaysServed(c, ops)
  {
    hide CachedAfter;
    forall k | 0 <= k < |ops|
      ensures Key(ops[k]) in CachedAfter(c, ops[..k]) || |CachedAfter(c, ops[..k])| < BCACHE_SIZE
    {
      CachedWithin(c, ops, k);
      assert Key(ops[k]) in Touched(ops);
      Counting.SubsetSize(CachedAfter(c, ops[..k]), c + Touched(ops));
    }
  }

  lemma {:induction false} CachedWithin(c: set<(int, int)>, ops: seq<Op>, k: nat)
    requires k <= |ops|
    ensures CachedAfter(c, ops[..k]) <= c + Touched(ops)
  {
    if k > 0 {
      CachedWithin(c, ops, k - 1);
      CachedNext(c, ops, k - 1);
      assert Key(ops[k - 1]) in Touched(ops);
    }
  }
}
