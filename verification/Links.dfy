// Value-level facts about the intrusive lists of fs.c.  The nodes of a list live in
// a static array, so a pointer is an index into it and NULL is -1.
module Links {
  const NULL: int := -1

  ghost predicate Distinct(s: seq<int>) {
    forall i, j :: 0 <= i < j < |s| ==> s[i] != s[j]
  }

  ghost predicate Within(c: seq<int>, n: int) {
    forall i :: 0 <= i < |c| ==> 0 <= c[i] < n
  }

  // Following `next` from each node of c leads to the following node of c.
  ghost predicate Forward(next: seq<int>, c: seq<int>) {
    && Within(c, |next|)
    && (forall i, j :: 0 <= i < |c| && 0 <= j < |c| && j == i + 1 ==> next[c[i]] == c[j])
  }

  // Following `prev` from each node of c leads to the preceding node of c.
  ghost predicate Backward(prev: seq<int>, c: seq<int>) {
    && Within(c, |prev|)
    && (forall i, j :: 0 <= i < |c| && 0 <= j < |c| && j == i + 1 ==> prev[c[j]] == c[i])
  }

  // From the sentinel `s` through the nodes of `ring` back to `s`.
  function Cycle(s: int, ring: seq<int>): seq<int> {
    [s] + ring + [s]
  }

  // The LRU ring: next and prev are mutual inverses through the sentinel.
  ghost predicate Ring(next: seq<int>, prev: seq<int>, s: int, ring: seq<int>) {
    && Forward(next, Cycle(s, ring)) && Backward(prev, Cycle(s, ring))
    && Distinct(ring) && s !in ring && |next| == |prev|
  }

  function Countdown(n: nat): (c: seq<int>)
    ensures |c| == n && forall i :: 0 <= i < n ==> c[i] == n - 1 - i
    ensures forall i :: i in c <==> 0 <= i < n
  {
    if n == 0 then [] else [n - 1] + Countdown(n - 1)
  }

  // After pushing nodes 0..n-1 at the sentinel: a stack, NULL-terminated at node 0.
  ghost predicate Pushed(next: seq<int>, prev: seq<int>, s: int, n: nat) {
    && n <= s < |next| == |prev|
    && next[s] == n - 1
    && (forall i :: 0 <= i < n ==> next[i] == i - 1)
    && (forall i :: 0 <= i < n ==> prev[i] == if i == n - 1 then s else i + 1)
  }

  lemma PushedNone(next: seq<int>, prev: seq<int>, s: int)
    requires 0 <= s < |next| == |prev|
    ensures Pushed(next[s := NULL], prev[s := NULL], s, 0)
  {
  }

  // One push (fs.c:20-26).
  lemma PushedStep(next: seq<int>, prev: seq<int>, s: int, i: nat)
    requires Pushed(next, prev, s, i) && i < s
    ensures 0 <= s < |next| == |prev| && -1 <= next[s] < |next|
    ensures
      var prev' := if next[s] != NULL then prev[next[s] := i] else prev;
      Pushed(next[i := next[s]][s := i], prev'[i := s], s, i + 1)
  {
  }

  // Closing the stack into a circle (fs.c:30-31).
  lemma RingClose(next: seq<int>, prev: seq<int>, s: int, n: nat)
    requires Pushed(next, prev, s, n) && n > 0
    ensures Ring(next[0 := s], prev[s := 0], s, Countdown(n))
  {
    var c := Cycle(s, Countdown(n));
    assert forall i :: 1 <= i <= n ==> c[i] == n - i;
    assert c[0] == s && c[n + 1] == s;
  }

  // A hash chain: singly linked from the bucket node `h` through the nodes of `c` to NULL.
  ghost predicate Chain(next: seq<int>, h: int, c: seq<int>) {
    && Distinct([h] + c) && Forward(next, [h] + c)
    && next[([h] + c)[|c|]] == NULL
  }

  lemma ChainDistinct(next: seq<int>, h: int, c: seq<int>)
    requires Chain(next, h, c)
    ensures Distinct(c)
  {
    assert forall i :: 0 <= i < |c| ==> c[i] == ([h] + c)[i + 1];
  }

  lemma RingEnds(next: seq<int>, prev: seq<int>, s: int, ring: seq<int>)
    requires Ring(next, prev, s, ring)
    ensures 0 <= s < |next| && Within(ring, |next|)
    ensures next[s] == (if ring == [] then s else ring[0])
    ensures prev[s] == (if ring == [] then s else ring[|ring| - 1])
    ensures ring != [] ==> next[ring[0]] == (if |ring| == 1 then s else ring[1])
  {
    var c := Cycle(s, ring);
    assert c[0] == s && c[1] == (if ring == [] then s else ring[0]);
    assert c[|ring|] == (if ring == [] then s else ring[|ring| - 1]) && c[|ring| + 1] == s;
    forall i | 0 <= i < |ring| ensures 0 <= ring[i] < |next| { assert c[i + 1] == ring[i]; }
    if ring != [] { assert c[2] == if |ring| == 1 then s else ring[1]; }
  }

  lemma ForwardTakeFirst(next: seq<int>, s: int, ring: seq<int>)
    requires Forward(next, Cycle(s, ring)) && s !in ring && ring != []
    requires 0 <= s < |next| && 0 <= ring[0] < |next|
    ensures Forward(next[s := next[ring[0]]], Cycle(s, ring[1..]))
  {
    var c, d := Cycle(s, ring), Cycle(s, ring[1..]);
    assert c[1] == ring[0] && c[2] == d[1];
    assert forall i :: 1 <= i < |d| ==> d[i] == c[i + 1];
    assert forall i :: 1 <= i < |d| - 1 ==> d[i] == ring[i];
  }

  lemma BackwardTakeFirst(prev: seq<int>, s: int, ring: seq<int>)
    requires Backward(prev, Cycle(s, ring)) && Distinct(ring) && s !in ring && ring != []
    requires 0 <= s < |prev| && Within(ring, |prev|)
    ensures Backward(prev[(if |ring| == 1 then s else ring[1]) := s], Cycle(s, ring[1..]))
  {
    var c, d := Cycle(s, ring), Cycle(s, ring[1..]);
    var b := if |ring| == 1 then s else ring[1];
    assert d[1] == b;
    assert forall i :: 1 <= i < |d| ==> d[i] == c[i + 1];
    assert forall i :: 1 < i < |d| ==> d[i] == (if i == |d| - 1 then s else ring[i]) && d[i] != b;
  }

  // Unlinking the first node (fs.c:76-78).
  lemma RingTakeFirst(next: seq<int>, prev: seq<int>, s: int, ring: seq<int>)
    requires Ring(next, prev, s, ring) && ring != []
    ensures 0 <= s < |next| && next[s] == ring[0] && 0 <= ring[0] < |next| && 0 <= next[ring[0]] < |prev|
    ensures Ring(next[s := next[ring[0]]], prev[next[ring[0]] := s], s, ring[1..])
  {
    RingEnds(next, prev, s, ring);
    ForwardTakeFirst(next, s, ring);
    BackwardTakeFirst(prev, s, ring);
  }

  lemma ForwardAppend(next: seq<int>, s: int, ring: seq<int>, b: int, last: int)
    requires Forward(next, Cycle(s, ring)) && Distinct(ring) && s !in ring
    requires 0 <= s < |next| && 0 <= b < |next| && b != s && b !in ring
    requires last == (if ring == [] then s else ring[|ring| - 1]) && 0 <= last < |next|
    ensures Forward(next[last := b][b := s], Cycle(s, ring + [b]))
  {
    var c, d, n := Cycle(s, ring), Cycle(s, ring + [b]), |ring|;
    assert d[n] == last && d[n + 1] == b && d[n + 2] == s;
    assert forall i :: 0 <= i <= n ==> d[i] == c[i];
    assert forall i :: 0 <= i < n ==> d[i] == (if i == 0 then s else ring[i - 1]) && d[i] != last && d[i] != b;
  }

  lemma BackwardAppend(prev: seq<int>, s: int, ring: seq<int>, b: int, last: int)
    requires Backward(prev, Cycle(s, ring)) && s !in ring
    requires 0 <= s < |prev| && 0 <= b < |prev| && b != s && b !in ring
    requires last == (if ring == [] then s else ring[|ring| - 1])
    ensures Backward(prev[b := last][s := b], Cycle(s, ring + [b]))
  {
    var c, d, n := Cycle(s, ring), Cycle(s, ring + [b]), |ring|;
    assert d[n] == last && d[n + 1] == b && d[n + 2] == s;
    assert forall i :: 0 <= i <= n ==> d[i] == c[i];
    assert forall i :: 1 <= i <= n ==> d[i] == ring[i - 1] && d[i] != s && d[i] != b;
  }

  // Linking a node in at the tail (fs.c:123-126).
  lemma RingAppend(next: seq<int>, prev: seq<int>, s: int, ring: seq<int>, b: int)
    requires Ring(next, prev, s, ring) && 0 <= b < |next| && b != s && b !in ring
    ensures 0 <= s < |prev| && 0 <= prev[s] < |next|
    ensures Ring(next[prev[s] := b][b := s], prev[b := prev[s]][s := b], s, ring + [b])
  {
    RingEnds(next, prev, s, ring);
    ForwardAppend(next, s, ring, b, prev[s]);
    BackwardAppend(prev, s, ring, b, prev[s]);
  }

  // Following `next` from the i-th node of a chain, the bucket being node 0.
  lemma ChainStep(next: seq<int>, h: int, c: seq<int>, i: nat)
    requires Chain(next, h, c) && i <= |c|
    ensures 0 <= h < |next| && Within(c, |next|)
    ensures next[([h] + c)[i]] == if i < |c| then c[i] else NULL
  {
    var p := [h] + c;
    assert p[0] == h;
    assert forall k :: 0 <= k < |c| ==> c[k] == p[k + 1];
    if i < |c| { assert next[p[i]] == p[i + 1]; }
  }

  // Linking a node in at the front of a chain (fs.c:85-87).
  lemma ChainPush(next: seq<int>, h: int, c: seq<int>, b: int)
    requires Chain(next, h, c) && 0 <= b < |next| && b !in c && b != h
    ensures 0 <= h < |next| && Chain(next[b := next[h]][h := b], h, [b] + c)
  {
    ChainStep(next, h, c, 0);
    var p, q, next' := [h] + c, [h] + ([b] + c), next[b := next[h]][h := b];
    assert forall i :: 2 <= i < |q| ==> q[i] == p[i - 1] && q[i] != b;
    assert p[0] == h && q[0] == h && q[1] == b;
  }

  function Without<T>(c: seq<T>, k: nat): seq<T>
    requires k < |c|
  {
    c[..k] + c[k + 1..]
  }

  lemma WithoutMembers(c: seq<int>, k: nat)
    requires k < |c| && Distinct(c)
    ensures forall i :: i in Without(c, k) <==> i != c[k] && i in c
  {
    var d := Without(c, k);
    forall i | i in c && i != c[k] ensures i in d {
      var m :| 0 <= m < |c| && c[m] == i;
      assert d[if m < k then m else m - 1] == i;
    }
    forall m | 0 <= m < |d| ensures d[m] in c && d[m] != c[k] {
      assert d[m] == c[if m < k then m else m + 1];
    }
  }

  // Unlinking the k-th node: its predecessor, the bucket when k == 0, takes over its
  // successor, and its own link is cleared (fs.c:111-119).
  lemma ChainRemove(next: seq<int>, h: int, c: seq<int>, k: nat)
    requires Chain(next, h, c) && k < |c|
    ensures 0 <= ([h] + c)[k] < |next| && 0 <= c[k] < |next|
    ensures Chain(next[([h] + c)[k] := next[c[k]]][c[k] := NULL], h, Without(c, k))
  {
    var p, q := [h] + c, [h] + Without(c, k);
    assert p[k + 1] == c[k];
    var next' := next[p[k] := next[c[k]]][c[k] := NULL];
    assert forall i :: 0 <= i <= k ==> q[i] == p[i];
    assert forall i :: k < i < |q| ==> q[i] == p[i + 1];
    assert forall i :: 0 <= i < |q| ==> q[i] != c[k];
    forall i, j | 0 <= i < |q| && 0 <= j < |q| && j == i + 1 ensures next'[q[i]] == q[j] {
      if i >= k { assert p[i + 1] == (if i == k then c[k] else q[i]) && p[j + 1] == q[j]; }
    }
  }

  // Changing the links of nodes that are not on the chain leaves it as it is.
  lemma ChainFrame(next: seq<int>, next': seq<int>, h: int, c: seq<int>)
    requires Chain(next, h, c) && |next'| == |next|
    requires forall b :: 0 <= b < |next| && (b == h || b in c) ==> next'[b] == next[b]
    ensures Chain(next', h, c)
  {
    var p := [h] + c;
    assert forall i :: 0 <= i < |p| ==> p[i] == h || p[i] in c;
  }
}
