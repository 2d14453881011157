// The write-through buffer cache of fs.c over a disk.
module BlockCache {
  import opened Links
  import Counting

  const BSIZE: nat := 512
  const BCACHE_SIZE: nat := 128
  const BLK_HASH_SIZE: nat := 128
  const B_UNUSED := 1
  const B_VALID := 2

  // The nodes: BCACHE_SIZE buffers, the LRU sentinel, and one node for each bucket.
  const LRU_HEAD: nat := BCACHE_SIZE
  const NODES: nat := BCACHE_SIZE + 1 + BLK_HASH_SIZE

  const IN_RING: int := -1
  const IN_TRANSIT: int := -2

  newtype byte = x: int | 0 <= x < 256

  // What a disk holds, by device and block; sectors never written read as zeros.
  type Disk = map<(int, int), seq<byte>>

  function Sector(disk: Disk, device: int, block: int): seq<byte> {
    if (device, block) in disk then disk[(device, block)] else seq(BSIZE, _ => 0)
  }

  function BlkHash(block: nat): nat {
    block % BLK_HASH_SIZE
  }

  function Bucket(key: nat): nat {
    BCACHE_SIZE + 1 + key
  }

  // The place of a buffer that is in a bucket.
  ghost predicate Held(place: int) {
    place != IN_RING && place != IN_TRANSIT
  }

  ghost function ResidentOf(home: seq<int>, device: seq<int>, block: seq<int>): set<(int, int)>
    requires |home| <= |device| && |home| <= |block|
  {
    set i | 0 <= i < |home| && Held(home[i]) :: (device[i], block[i])
  }

  lemma ResidentAdd(home: seq<int>, device: seq<int>, block: seq<int>, b: nat, place: int, dev: int, blkno: int)
    requires b < |home| <= |device| && |home| <= |block| && Held(place)
    requires Held(home[b]) ==> device[b] == dev && block[b] == blkno
    ensures ResidentOf(home[b := place], device[b := dev], block[b := blkno]) ==
            ResidentOf(home, device, block) + {(dev, blkno)}
  {
    var home', device', block' := home[b := place], device[b := dev], block[b := blkno];
    assert Held(home'[b]) && (device'[b], block'[b]) == (dev, blkno);
    forall t | t in ResidentOf(home, device, block) ensures t in ResidentOf(home', device', block') {
      var i :| 0 <= i < |home| && Held(home[i]) && (device[i], block[i]) == t;
      assert Held(home'[i]) && (device'[i], block'[i]) == t;
    }
    forall t | t in ResidentOf(home', device', block') ensures t in ResidentOf(home, device, block) + {(dev, blkno)} {
      var i :| 0 <= i < |home| && Held(home'[i]) && (device'[i], block'[i]) == t;
      assert i != b ==> Held(home[i]) && (device[i], block[i]) == t;
    }
  }

  class Cache {
    // struct block, one sequence a member
    var flags: seq<int>
    var device: seq<int>
    var block: seq<int>
    var lruCnt: seq<int>
    var data: seq<seq<byte>>
    var lruPrev: seq<int>
    var lruNext: seq<int>
    var hashPrev: seq<int>
    var hashNext: seq<int>
    var disk: Disk

    ghost var ring: seq<int>
    ghost var chain: seq<seq<int>>
    ghost var home: seq<int> // where each buffer is: IN_RING, IN_TRANSIT, or a bucket key

    ghost predicate Sizes()
      reads this
    {
      && |flags| == |device| == |block| == |lruCnt| == |data| == NODES
      && |lruPrev| == |lruNext| == |hashPrev| == |hashNext| == NODES
      && |chain| == BLK_HASH_SIZE
    }

    ghost predicate RingOk()
      reads this`lruNext, this`lruPrev, this`ring
    {
      Ring(lruNext, lruPrev, LRU_HEAD, ring) && Within(ring, BCACHE_SIZE)
    }

    ghost predicate ChainOk(k: nat)
      requires k < |chain|
      reads this`hashNext, this`chain
    {
      Chain(hashNext, Bucket(k), chain[k]) && Within(chain[k], BCACHE_SIZE)
    }

    ghost predicate ChainsOk()
      reads this`hashNext, this`chain
    {
      forall k :: 0 <= k < |chain| ==> ChainOk(k)
    }

    // Each buffer is in exactly one place, the ring or the bucket of its block.
    ghost predicate Partition()
      reads this`block, this`ring, this`chain, this`home
    {
      && |block| == NODES && |chain| == BLK_HASH_SIZE && |home| == BCACHE_SIZE
      && (forall i :: 0 <= i < BCACHE_SIZE ==> (i in ring <==> home[i] == IN_RING))
      && (forall i, k :: 0 <= i < BCACHE_SIZE && 0 <= k < BLK_HASH_SIZE ==> (i in chain[k] <==> home[i] == k))
      && (forall i :: 0 <= i < BCACHE_SIZE && Held(home[i]) ==> block[i] >= 0 && home[i] == BlkHash(block[i]))
    }

    // No two cached buffers are for the same block.
    ghost predicate Labels()
      reads this
    {
      && |flags| == |device| == |block| == NODES && |home| == BCACHE_SIZE
      && (forall i :: 0 <= i < BCACHE_SIZE && !Held(home[i]) ==> flags[i] == B_UNUSED)
      && (forall i, j :: 0 <= i < j < BCACHE_SIZE && Held(home[i]) && Held(home[j]) ==>
            device[i] != device[j] || block[i] != block[j])
    }

    // The buffer x, if any, is on its way between the ring and a bucket.
    ghost predicate Structure(x: int)
      reads this
    {
      && Sizes() && RingOk() && ChainsOk() && Partition() && Labels()
      && forall i :: 0 <= i < BCACHE_SIZE ==> (home[i] == IN_TRANSIT <==> i == x)
    }

    ghost predicate Holds(dev: int, blkno: int)
      requires Sizes()
      reads this
    {
      && |home| == BCACHE_SIZE
      && exists i :: 0 <= i < BCACHE_SIZE && Held(home[i]) && device[i] == dev && block[i] == blkno
    }

    // blockCacheInit, over whatever the static storage and the disk hold.
    constructor (disk: Disk)
      requires forall k :: k in disk ==> |disk[k]| == BSIZE
      ensures Valid() && this.disk == disk && Resident() == {}
    {
      flags, lruCnt := seq(NODES, _ => 0), seq(NODES, _ => 0);
      device, block := seq(NODES, _ => 0), seq(NODES, _ => 0);
      data := seq(NODES, _ => seq(BSIZE, _ => 0));
      lruPrev, lruNext := seq(NODES, _ => NULL), seq(NODES, _ => NULL);
      hashPrev, hashNext := seq(NODES, _ => NULL), seq(NODES, _ => NULL);
      this.disk := disk;
      ring, chain := [], seq(BLK_HASH_SIZE, _ => []);
      home := seq(BCACHE_SIZE, _ => IN_RING);
      new;
      Init();
    }

    method Init()
      requires Sizes() && chain == seq(BLK_HASH_SIZE, _ => []) && home == seq(BCACHE_SIZE, _ => IN_RING)
      modifies this`flags, this`device, this`block, this`lruCnt, this`lruNext, this`lruPrev, this`hashNext, this`ring
      ensures Structure(NULL)
    {
      hide Countdown;
      LinkRing();
      ClearBuckets();
    }

    // One turn of the loop at fs.c:14-27.
    method LinkBuffer(i: nat)
      requires Sizes() && i < BCACHE_SIZE && Pushed(lruNext, lruPrev, LRU_HEAD, i)
      modifies this`flags, this`device, this`block, this`lruCnt, this`lruNext, this`lruPrev
      ensures Sizes() && Pushed(lruNext, lruPrev, LRU_HEAD, i + 1) && flags == old(flags)[i := B_UNUSED]
    {
      hide Pushed;
      PushedStep(lruNext, lruPrev, LRU_HEAD, i);
      device := device[i := -1];
      block := block[i := -1];
      flags := flags[i := B_UNUSED];
      lruCnt := lruCnt[i := 0];
      lruNext := lruNext[i := lruNext[LRU_HEAD]];
      if lruNext[LRU_HEAD] != NULL {
        lruPrev := lruPrev[lruNext[LRU_HEAD] := i];
      }
      lruPrev := lruPrev[i := LRU_HEAD];
      lruNext := lruNext[LRU_HEAD := i];
    }

    method LinkRing()
      requires Sizes()
      modifies this`flags, this`device, this`block, this`lruCnt, this`lruNext, this`lruPrev, this`ring
      ensures Sizes() && RingOk() && ring == Countdown(BCACHE_SIZE)
      ensures forall i :: 0 <= i < BCACHE_SIZE ==> flags[i] == B_UNUSED
    {
      hide Pushed, Countdown, Ring;
      PushedNone(lruNext, lruPrev, LRU_HEAD);
      lruPrev, lruNext := lruPrev[LRU_HEAD := NULL], lruNext[LRU_HEAD := NULL];
      for i := 0 to BCACHE_SIZE
        invariant Sizes() && Pushed(lruNext, lruPrev, LRU_HEAD, i)
        invariant forall j :: 0 <= j < i ==> flags[j] == B_UNUSED
      {
        LinkBuffer(i);
      }
      RingClose(lruNext, lruPrev, LRU_HEAD, BCACHE_SIZE);
      lruPrev := lruPrev[LRU_HEAD := 0];
      lruNext := lruNext[0 := LRU_HEAD];
      ring := Countdown(BCACHE_SIZE);
    }

    method ClearBuckets()
      requires Sizes() && forall k :: 0 <= k < |chain| ==> chain[k] == []
      modifies this`device, this`block, this`hashNext
      ensures Sizes() && ChainsOk()
    {
      for i := 0 to BLK_HASH_SIZE
        invariant Sizes() && forall k :: 0 <= k < i ==> hashNext[Bucket(k)] == NULL
      {
        device := device[Bucket(i) := -1];
        block := block[Bucket(i) := -1];
        hashNext := hashNext[Bucket(i) := NULL];
      }
    }

    method TakeFirst() returns (blk: int)
      requires Structure(NULL) && ring != []
      modifies this`lruNext, this`lruPrev, this`ring, this`home
      ensures 0 <= blk < BCACHE_SIZE && Structure(blk)
      ensures blk == old(ring)[0] && ring == old(ring)[1..] && home == old(home)[blk := IN_TRANSIT]
    {
      RingTakeFirst(lruNext, lruPrev, LRU_HEAD, ring);
      blk := lruNext[LRU_HEAD];
      lruNext := lruNext[LRU_HEAD := lruNext[blk]];
      lruPrev := lruPrev[lruNext[blk] := LRU_HEAD];
      ring := ring[1..];
      home := home[blk := IN_TRANSIT];
      assert old(ring) == [blk] + ring;
      assert forall i :: i in old(ring) <==> i == blk || i in ring;
      assert blk !in ring;
    }

    method Find(dev: int, blkno: nat) returns (blk: int)
      requires Structure(NULL)
      ensures blk == NULL <==> !Holds(dev, blkno)
      ensures blk != NULL ==> 0 <= blk < BCACHE_SIZE && Held(home[blk]) && device[blk] == dev && block[blk] == blkno
    {
      var key := BlkHash(blkno);
      ghost var c, j := chain[key], 0;
      assert ChainOk(key);
      ChainStep(hashNext, Bucket(key), c, 0);
      blk := hashNext[Bucket(key)];
      while blk != NULL && (device[blk] != dev || block[blk] != blkno)
        invariant 0 <= j <= |c| && blk == if j < |c| then c[j] else NULL
        invariant forall i :: 0 <= i < j ==> device[c[i]] != dev || block[c[i]] != blkno
        decreases |c| - j
      {
        ChainStep(hashNext, Bucket(key), c, j + 1);
        blk := hashNext[blk];
        j := j + 1;
      }
      assert blk != NULL ==> c[j] in c;
    }

    // A hit leaves the ring alone; a miss takes over the least recently released buffer.
    method GetCachedBlock(dev: int, blkno: nat) returns (blk: int)
      requires Structure(NULL)
      modifies this`flags, this`device, this`block, this`lruCnt, this`lruNext, this`lruPrev
      modifies this`hashNext, this`hashPrev, this`ring, this`chain, this`home
      ensures Structure(NULL)
      ensures blk == NULL <==> old(ring) == [] && !old(Holds(dev, blkno))
      ensures blk == NULL ==>
        ring == old(ring) && home == old(home) && device == old(device) && block == old(block) && flags == old(flags)
      ensures blk != NULL ==>
        && 0 <= blk < BCACHE_SIZE && home == old(home)[blk := BlkHash(blkno)]
        && device == old(device)[blk := dev] && block == old(block)[blk := blkno]
        && if old(Holds(dev, blkno)) then ring == old(ring) && flags == old(flags)[blk := B_VALID]
           else blk == old(ring)[0] && ring == old(ring)[1..] && flags == old(flags)
    {
      blk := Find(dev, blkno);
      if blk != NULL {
        flags := flags[blk := B_VALID];
        assert home == old(home)[blk := BlkHash(blkno)] && device == old(device)[blk := dev];
        return;
      }
      RingEnds(lruNext, lruPrev, LRU_HEAD, ring);
      if lruNext[LRU_HEAD] == LRU_HEAD {
        return;
      }
      blk := TakeFirst();
      Enter(blk, dev, blkno);
    }

    // The second half of a miss: relabel the buffer just taken off the ring and hash it.
    method Enter(blk: int, dev: int, blkno: nat)
      requires 0 <= blk < BCACHE_SIZE && Structure(blk) && !Holds(dev, blkno)
      modifies this`device, this`block, this`lruCnt, this`hashNext, this`hashPrev, this`chain, this`home
      ensures Structure(NULL)
      ensures device == old(device)[blk := dev] && block == old(block)[blk := blkno]
      ensures home == old(home)[blk := BlkHash(blkno)]
    {
      hide Cache.RingOk, Cache.ChainsOk;
      var key := BlkHash(blkno);
      assert home[blk] == IN_TRANSIT;
      assert forall k :: 0 <= k < BLK_HASH_SIZE ==> blk !in chain[k];
      device := device[blk := dev];
      block := block[blk := blkno];
      lruCnt := lruCnt[blk := 0];
      HashIn(key, blk);
      home := home[blk := key];
    }

    method HashIn(key: nat, blk: int)
      requires Sizes() && ChainsOk() && key < BLK_HASH_SIZE && 0 <= blk < BCACHE_SIZE
      requires forall k :: 0 <= k < BLK_HASH_SIZE ==> blk !in chain[k]
      modifies this`hashNext, this`hashPrev, this`chain
      ensures Sizes() && ChainsOk() && chain == old(chain)[key := [blk] + old(chain)[key]]
    {
      assert ChainOk(key);
      ChainPush(hashNext, Bucket(key), chain[key], blk);
      hashNext := hashNext[blk := hashNext[Bucket(key)]];
      hashPrev := hashPrev[blk := Bucket(key)];
      hashNext := hashNext[Bucket(key) := blk];
      chain := chain[key := [blk] + chain[key]];
      forall k | 0 <= k < |chain| && k != key ensures ChainOk(k) {
        assert old(ChainOk(k)) && Bucket(key) !in chain[k];
        ChainFrame(old(hashNext), hashNext, Bucket(k), chain[k]);
      }
    }

    // Gives the buffer back: out of its bucket, onto the tail of the ring.
    method RelCachedBlock(blk: int)
      requires Structure(NULL) && 0 <= blk < BCACHE_SIZE && Held(home[blk])
      modifies this`flags, this`lruNext, this`lruPrev, this`hashNext, this`hashPrev
      modifies this`ring, this`chain, this`home
      ensures Structure(NULL)
      ensures ring == old(ring) + [blk] && home == old(home)[blk := IN_RING]
      ensures flags == old(flags)[blk := B_UNUSED]
    {
      HashOut(blk);
      flags := flags[blk := B_UNUSED];
      home := home[blk := IN_TRANSIT];
      Append(blk);
    }

    lemma ChainsDisjoint(key: nat)
      requires Partition() && key < BLK_HASH_SIZE
      ensures forall i, k :: 0 <= i < BCACHE_SIZE && 0 <= k < BLK_HASH_SIZE && k != key && i in chain[key] ==>
                i !in chain[k]
    {
      forall i, k | 0 <= i < BCACHE_SIZE && 0 <= k < BLK_HASH_SIZE && k != key && i in chain[key]
        ensures i !in chain[k]
      {
        assert home[i] == key;
      }
    }

    method HashOut(blk: int)
      requires Structure(NULL) && 0 <= blk < BCACHE_SIZE && Held(home[blk])
      modifies this`hashNext, this`hashPrev, this`chain
      ensures Sizes() && ChainsOk()
      ensures forall i, k :: 0 <= i < BCACHE_SIZE && 0 <= k < BLK_HASH_SIZE ==>
                (i in chain[k] <==> i != blk && i in old(chain[k]))
    {
      var p, j := FindPrev(blk);
      assert ChainOk(home[blk]);
      ChainDistinct(hashNext, Bucket(home[blk]), chain[home[blk]]);
      WithoutMembers(chain[home[blk]], j);
      ChainsDisjoint(BlkHash(block[blk]));
      if hashNext[p] != NULL {
        Unlink(BlkHash(block[blk]), p, j);
      }
      hashPrev := hashPrev[blk := NULL];
    }

    // The node before blk in its bucket, which is the bucket's own node for the first.
    method FindPrev(blk: int) returns (p: int, ghost j: nat)
      requires Structure(NULL) && 0 <= blk < BCACHE_SIZE && Held(home[blk])
      ensures j < |chain[home[blk]]| && p == ([Bucket(home[blk])] + chain[home[blk]])[j]
      ensures 0 <= p < NODES && hashNext[p] == chain[home[blk]][j] == blk
    {
      var key := BlkHash(block[blk]);
      ghost var c := chain[key];
      assert ChainOk(key) && blk in c;
      ChainStep(hashNext, Bucket(key), c, 0);
      p, j := Bucket(key), 0;
      while hashNext[p] != NULL && (device[hashNext[p]] != device[blk] || block[hashNext[p]] != block[blk])
        invariant 0 <= j <= |c| && p == ([Bucket(key)] + c)[j]
        invariant 0 <= p < NODES && hashNext[p] == if j < |c| then c[j] else NULL
        invariant blk !in c[..j]
        decreases |c| - j
      {
        ChainStep(hashNext, Bucket(key), c, j + 1);
        p := hashNext[p];
        j := j + 1;
      }
      assert j < |c| && c[j] in c && c[j] == blk;
    }

    // Drops the node after p, the j-th node of its chain.
    method Unlink(key: nat, p: int, ghost j: nat)
      requires Sizes() && ChainsOk() && key < BLK_HASH_SIZE && j < |chain[key]|
      requires 0 <= p < NODES && p == ([Bucket(key)] + chain[key])[j] && hashNext[p] == chain[key][j]
      requires forall i, k :: 0 <= i < BCACHE_SIZE && 0 <= k < BLK_HASH_SIZE && k != key && i in chain[key] ==>
                 i !in chain[k]
      modifies this`hashNext, this`hashPrev, this`chain
      ensures Sizes() && ChainsOk() && chain == old(chain)[key := Without(old(chain)[key], j)]
    {
      assert ChainOk(key);
      assert chain[key][j] in chain[key] && (p != Bucket(key) ==> chain[key][j - 1] == p && p in chain[key]);
      ChainStep(hashNext, Bucket(key), chain[key], j + 1);
      ChainRemove(hashNext, Bucket(key), chain[key], j);
      var blk := hashNext[p];
      hashNext := hashNext[p := hashNext[blk]];
      if hashNext[blk] != NULL {
        hashPrev := hashPrev[hashNext[blk] := p];
      }
      hashNext := hashNext[blk := NULL];
      chain := chain[key := Without(chain[key], j)];
      forall k | 0 <= k < |chain| && k != key ensures ChainOk(k) {
        assert old(ChainOk(k)) && Bucket(key) !in chain[k] && blk !in chain[k] && p !in chain[k];
        ChainFrame(old(hashNext), hashNext, Bucket(k), chain[k]);
      }
    }

    method Append(blk: int)
      requires 0 <= blk < BCACHE_SIZE && Structure(blk)
      modifies this`lruNext, this`lruPrev, this`ring, this`home
      ensures Structure(NULL)
      ensures ring == old(ring) + [blk] && home == old(home)[blk := IN_RING]
    {
      assert home[blk] == IN_TRANSIT && blk !in ring;
      RingAppend(lruNext, lruPrev, LRU_HEAD, ring, blk);
      lruNext := lruNext[lruPrev[LRU_HEAD] := blk];
      lruPrev := lruPrev[blk := lruPrev[LRU_HEAD]];
      lruPrev := lruPrev[LRU_HEAD := blk];
      lruNext := lruNext[blk := LRU_HEAD];
      ring := ring + [blk];
      home := home[blk := IN_RING];
    }

    // Every cached buffer but x is valid and equal to its sector: the cache is write-through.
    ghost predicate Coherent(x: int)
      reads this
    {
      && |data| == |flags| == |device| == |block| == NODES && |home| == BCACHE_SIZE
      && (forall i :: 0 <= i < BCACHE_SIZE ==> |data[i]| == BSIZE)
      && (forall i :: 0 <= i < BCACHE_SIZE && Held(home[i]) && i != x ==>
            flags[i] == B_VALID && data[i] == Sector(disk, device[i], block[i]))
      && (forall k :: k in disk ==> |disk[k]| == BSIZE)
    }

    ghost predicate Valid()
      reads this
    {
      Structure(NULL) && Coherent(NULL)
    }

    // The cached blocks.
    ghost function Resident(): set<(int, int)>
      requires Sizes() && |home| == BCACHE_SIZE
      reads this
    {
      ResidentOf(home, device, block)
    }

    ghost predicate IsBuffer(blk: int, dev: int, blkno: int)
      reads this
    {
      && |device| == |block| == |data| == NODES && |home| == BCACHE_SIZE
      && 0 <= blk < BCACHE_SIZE && Held(home[blk]) && device[blk] == dev && block[blk] == blkno
    }

    // A buffer is either on the ring or holds a block of its own.
    lemma ResidentSize()
      requires Structure(NULL)
      ensures |Resident()| + |ring| == BCACHE_SIZE
    {
      var held := set i | 0 <= i < BCACHE_SIZE && Held(home[i]);
      forall i | 0 <= i < BCACHE_SIZE ensures i in held <==> i !in ring {
        assert home[i] != IN_TRANSIT;
      }
      HeldSize(held);
      Counting.Complement(held, ring, BCACHE_SIZE);
    }

    lemma HeldSize(held: set<int>)
      requires Sizes() && Labels() && held == set i | 0 <= i < BCACHE_SIZE && Held(home[i])
      ensures |Resident()| == |held|
    {
      var d, b := device, block;
      var tag := i => if 0 <= i < |d| == |b| then (d[i], b[i]) else (0, 0);
      forall i, j | i in held && j in held && tag(i) == tag(j) ensures i == j {
        assert i < j || j < i || i == j;
      }
      Counting.ImageSize(tag, held);
      forall t ensures t in Resident() <==> t in Counting.Image(tag, held) {
        if t in Resident() {
          var i :| 0 <= i < BCACHE_SIZE && Held(home[i]) && (device[i], block[i]) == t;
          assert i in held && tag(i) == t;
        }
      }
      assert Resident() == Counting.Image(tag, held);
    }

    // GetCachedBlock, with what it means for the cached blocks and their contents.
    method Acquire(dev: int, blkno: nat, ghost x: int) returns (blk: int)
      requires Structure(NULL) && Coherent(x)
      requires x != NULL ==> IsBuffer(x, dev, blkno)
      requires (dev, blkno) in Resident() || |Resident()| < BCACHE_SIZE
      modifies this
      ensures Structure(NULL) && Coherent(blk) && disk == old(disk) && data == old(data)
      ensures Resident() == old(Resident()) + {(dev, blkno)}
      ensures IsBuffer(blk, dev, blkno) && (x != NULL ==> blk == x)
      ensures x == NULL && flags[blk] == B_VALID ==> data[blk] == Sector(disk, dev, blkno)
    {
      ResidentSize();
      assert Holds(dev, blkno) <==> (dev, blkno) in Resident();
      blk := GetCachedBlock(dev, blkno);
      ResidentAdd(old(home), old(device), old(block), blk, BlkHash(blkno), dev, blkno);
    }

    method BlockRead(dev: int, blkno: nat) returns (blk: int)
      requires Valid() && ((dev, blkno) in Resident() || |Resident()| < BCACHE_SIZE)
      modifies this
      ensures Valid() && disk == old(disk)
      ensures Resident() == old(Resident()) + {(dev, blkno)}
      ensures IsBuffer(blk, dev, blkno) && data[blk] == Sector(disk, dev, blkno)
    {
      hide Cache.RingOk, Cache.ChainsOk, Cache.Partition, ResidentOf;
      blk := Acquire(dev, blkno, NULL);
      if flags[blk] == B_VALID {
        return;
      }
      data := data[blk := Sector(disk, device[blk], block[blk])];
      flags := flags[blk := B_VALID];
    }

    // x is the buffer the caller has been editing, or NULL.
    method BlockWrite(dev: int, blkno: nat, bytes: seq<byte>, ghost x: int)
      requires Structure(NULL) && Coherent(x) && |bytes| == BSIZE
      requires x != NULL ==> IsBuffer(x, dev, blkno)
      requires (dev, blkno) in Resident() || |Resident()| < BCACHE_SIZE
      modifies this
      ensures Valid() && disk == old(disk)[(dev, blkno) := bytes]
      ensures Resident() == old(Resident()) + {(dev, blkno)}
      ensures x != NULL ==> IsBuffer(x, dev, blkno)
    {
      hide Cache.RingOk, Cache.ChainsOk, Cache.Partition, ResidentOf;
      var cblk := Acquire(dev, blkno, x);
      data := data[cblk := bytes];
      disk := disk[(device[cblk], block[cblk]) := data[cblk]];
      flags := flags[cblk := B_VALID];
    }

    // relCachedBlock, with what it means for the cached blocks and their contents.
    method Release(blk: int)
      requires Valid() && 0 <= blk < BCACHE_SIZE && Held(home[blk])
      modifies this`flags, this`lruNext, this`lruPrev, this`hashNext, this`hashPrev
      modifies this`ring, this`chain, this`home
      ensures Valid() && Resident() == old(Resident()) - {(device[blk], block[blk])}
    {
      RelCachedBlock(blk);
    }

    // A caller's edit of a cached buffer followed by its blockWrite.
    method EditAndWrite(blk: int, bytes: seq<byte>)
      requires Valid() && 0 <= blk < BCACHE_SIZE && Held(home[blk]) && |bytes| == BSIZE
      modifies this
      ensures Valid() && disk == old(disk)[(old(device[blk]), old(block[blk])) := bytes]
      ensures Resident() == old(Resident())
      ensures IsBuffer(blk, old(device[blk]), old(block[blk]))
    {
      assert (device[blk], block[blk]) in Resident();
      data := data[blk := bytes];
      BlockWrite(device[blk], block[blk], data[blk], blk);
    }
  }
}
