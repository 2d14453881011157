// Where the lookups of fs.c:41-127 as they stand do what they are for, and where they do not.
module CacheAsWritten {
  import opened Links
  import opened BlockCache

  type Label = (int, int)

  // ---- searching a bucket whose nodes have the given labels, first to last

  datatype Outcome = Found(i: nat) | Absent | NullDereference

  predicate Meets(l: Label, dev: int, blkno: int) {
    l.0 == dev && l.1 == blkno
  }

  // What the loop's conditions joined by && let pass only when both differ.
  predicate Stops(l: Label, dev: int, blkno: int) {
    l.0 == dev || l.1 == blkno
  }

  // The search intended: the node with that device and block.
  function Search(c: seq<Label>, dev: int, blkno: int, i: nat): Outcome
    decreases |c| - i
  {
    if i >= |c| then Absent else if Meets(c[i], dev, blkno) then Found(i) else Search(c, dev, blkno, i + 1)
  }

  // fs.c:47-65: past the end of the chain, the comparison reads through NULL.
  function Lookup(c: seq<Label>, dev: int, blkno: int): Outcome {
    if c == [] then Absent else Walk(c, dev, blkno, 0)
  }

  function Walk(c: seq<Label>, dev: int, blkno: int, i: nat): Outcome
    decreases |c| - i
  {
    if i >= |c| then NullDereference
    else if !Stops(c[i], dev, blkno) then Walk(c, dev, blkno, i + 1)
    else if Meets(c[i], dev, blkno) then Found(i)
    else Absent
  }

  // Blocks of one device: the loop never gets past the first node, so the lookup is right exactly
  // when the block is in that node or in none.
  lemma LookupLooksAtTheFirst(c: seq<Label>, dev: int, blkno: int)
    requires forall i :: 0 <= i < |c| ==> c[i].0 == dev
    ensures Lookup(c, dev, blkno) == Search(c, dev, blkno, 0) <==>
      c == [] || Meets(c[0], dev, blkno) || forall i :: 0 <= i < |c| ==> !Meets(c[i], dev, blkno)
  {
    SearchFinds(c, dev, blkno, 0);
  }

  lemma {:induction false} SearchFinds(c: seq<Label>, dev: int, blkno: int, i: nat)
    ensures var r := Search(c, dev, blkno, i);
            match r
            case Found(k) =>
              i <= k < |c| && Meets(c[k], dev, blkno) && forall j :: i <= j < k ==> !Meets(c[j], dev, blkno)
            case Absent => forall j :: i <= j < |c| ==> !Meets(c[j], dev, blkno)
            case NullDereference => false
    decreases |c| - i
  {
    if i < |c| { SearchFinds(c, dev, blkno, i + 1); }
  }

  lemma {:induction false} WalkStops(c: seq<Label>, dev: int, blkno: int, i: nat)
    ensures Walk(c, dev, blkno, i) == NullDereference ==> forall j :: i <= j < |c| ==> !Stops(c[j], dev, blkno)
    ensures Walk(c, dev, blkno, i) != NullDereference ==> exists k :: WalkEnds(c, dev, blkno, i, k)
    decreases |c| - i
  {
    if i < |c| {
      if Stops(c[i], dev, blkno) {
        assert WalkEnds(c, dev, blkno, i, i);
      } else {
        var n := i + 1;
        WalkStops(c, dev, blkno, n);
        if Walk(c, dev, blkno, n) != NullDereference {
          var k :| WalkEnds(c, dev, blkno, n, k);
          assert WalkEnds(c, dev, blkno, i, k);
        }
      }
    }
  }

  // The walk from node i stops at node k.
  ghost predicate WalkEnds(c: seq<Label>, dev: int, blkno: int, i: nat, k: nat) {
    && FirstStop(c, dev, blkno, i, k)
    && Walk(c, dev, blkno, i) == if Meets(c[k], dev, blkno) then Found(k) else Absent
  }

  ghost predicate FirstStop(c: seq<Label>, dev: int, blkno: int, i: nat, k: nat) {
    i <= k < |c| && Stops(c[k], dev, blkno) && forall j :: i <= j < k ==> !Stops(c[j], dev, blkno)
  }

  // In general the lookup is right exactly when the chain is empty or its first node that shares
  // the device or the block shares both, or no node does.
  lemma LookupExactly(c: seq<Label>, dev: int, blkno: int)
    ensures Lookup(c, dev, blkno) == Search(c, dev, blkno, 0) <==>
      || c == []
      || (exists k :: 0 <= k < |c| && FirstStop(c, dev, blkno, 0, k) && Meets(c[k], dev, blkno))
      || ((exists k :: 0 <= k < |c| && FirstStop(c, dev, blkno, 0, k))
          && forall i :: 0 <= i < |c| ==> !Meets(c[i], dev, blkno))
  {
    SearchFinds(c, dev, blkno, 0);
    WalkStops(c, dev, blkno, 0);
  }

  // ---- taking a buffer out of its bucket

  // fs.c:99-117, for the buffer of node k: whether it is unlinked.  The loop starts behind the
  // first node and stops before the one it looks for.
  datatype Removal = Unlinked | Left | Faults

  function Remove(c: seq<Label>, dev: int, blkno: int): Removal {
    if c == [] then Left
    else
      match Walk(c, dev, blkno, 1)
      case Found(_) => Unlinked
      case Absent => Left
      case NullDereference => Faults
  }

  // With one device and no block twice in the chain, only the second node is ever unlinked.
  lemma OnlyTheSecondIsUnlinked(c: seq<Label>, k: nat)
    requires k < |c| && (forall i :: 0 <= i < |c| ==> c[i].0 == c[k].0)
    requires forall i, j :: 0 <= i < j < |c| ==> c[i] != c[j]
    ensures Remove(c, c[k].0, c[k].1) == if k == 1 then Unlinked else if |c| == 1 then Faults else Left
  {
    if |c| > 1 {
      assert Stops(c[1], c[k].0, c[k].1);
      assert c[0] != c[1];
      assert k > 1 ==> c[1] != c[k];
    }
  }

  // ---- unlinking a buffer that is off the ring (fs.c:60-61)

  lemma HitKeepsRing(next: seq<int>, prev: seq<int>, s: int, ring: seq<int>, b: int)
    requires Ring(next, prev, s, ring) && 0 <= b < |next| && b != s && b !in ring
    requires 0 <= next[b] < |next| && prev[b] == s
    ensures 0 <= s < |next|
    ensures Ring(next[s := next[b]], prev[next[b] := s], s, ring) <==> next[b] == next[s]
  {
    RingEnds(next, prev, s, ring);
    if next[b] == next[s] {
      var c := Cycle(s, ring);
      assert c[0] == s && c[1] == next[s];
      assert next[s := next[b]] == next && prev[next[b] := s] == prev;
    } else if Ring(next[s := next[b]], prev[next[b] := s], s, ring) {
      RingEnds(next[s := next[b]], prev[next[b] := s], s, ring);
    }
  }

  // ---- the whole of blockRead as it stands

  datatype Buffers = Buffers(flags: seq<int>, device: seq<int>, block: seq<int>, data: seq<seq<byte>>,
                             prev: seq<int>, next: seq<int>, hashNext: seq<int>)

  datatype Result = Buffer(s: Buffers, blk: int) | Fault

  predicate Node(p: int) { 0 <= p < NODES }

  ghost predicate SizesOk(s: Buffers) {
    && |s.flags| == |s.device| == |s.block| == |s.data| == NODES
    && |s.prev| == |s.next| == |s.hashNext| == NODES
  }

  // The loop of fs.c:50-54, for at most as many turns as there are nodes.
  function Stop(s: Buffers, p: int, dev: int, blkno: int, turns: nat): int
    requires SizesOk(s)
    decreases turns
  {
    if turns == 0 || !Node(p) || Stops((s.device[p], s.block[p]), dev, blkno) then p
    else Stop(s, s.hashNext[p], dev, blkno, turns - 1)
  }

  function Get(s: Buffers, dev: int, blkno: nat): (r: Result)
    requires SizesOk(s)
    ensures r.Buffer? ==> SizesOk(r.s)
  {
    var first := s.hashNext[Bucket(BlkHash(blkno))];
    var p := if first == NULL then NULL else Stop(s, first, dev, blkno, NODES);
    if first != NULL && !Node(p) then Fault
    else if first != NULL && Meets((s.device[p], s.block[p]), dev, blkno) then Hit(s, p)
    else Miss(s, dev, blkno)
  }

  function Hit(s: Buffers, b: int): (r: Result)
    requires SizesOk(s) && Node(b)
    ensures r.Buffer? ==> SizesOk(r.s)
  {
    if !Node(s.prev[b]) then Fault
    else
      var next := s.next[s.prev[b] := s.next[b]];
      if !Node(next[b]) then Fault
      else Buffer(s.(flags := s.flags[b := B_VALID], next := next, prev := s.prev[next[b] := s.prev[b]]), b)
  }

  function Miss(s: Buffers, dev: int, blkno: nat): (r: Result)
    requires SizesOk(s)
    ensures r.Buffer? ==> SizesOk(r.s)
  {
    var b, h := s.next[LRU_HEAD], Bucket(BlkHash(blkno));
    if b == LRU_HEAD || b == NULL then Buffer(s, NULL)
    else if !Node(b) || !Node(s.next[b]) then Fault
    else
      Buffer(s.(next := s.next[LRU_HEAD := s.next[b]], prev := s.prev[s.next[b] := LRU_HEAD],
                device := s.device[b := dev], block := s.block[b := blkno],
                hashNext := s.hashNext[b := s.hashNext[h]][h := b]), b)
  }

  function Read(s: Buffers, disk: Disk, dev: int, blkno: nat): (r: Result)
    requires SizesOk(s)
    ensures r.Buffer? ==> SizesOk(r.s)
  {
    match Get(s, dev, blkno)
    case Fault => Fault
    case Buffer(t, b) =>
      if !Node(b) then Fault
      else if t.flags[b] == B_VALID then Buffer(t, b)
      else Buffer(t.(data := t.data[b := Sector(disk, dev, blkno)], flags := t.flags[b := B_VALID]), b)
  }

  // After blockCacheInit.
  ghost predicate Initial(s: Buffers) {
    && SizesOk(s) && Ring(s.next, s.prev, LRU_HEAD, Countdown(BCACHE_SIZE))
    && (forall b :: 0 <= b < BCACHE_SIZE ==> s.flags[b] == B_UNUSED)
    && (forall k :: 0 <= k < BLK_HASH_SIZE ==> s.hashNext[Bucket(k)] == NULL)
  }
}
