// Sizes of finite sets of indices.
module Counting {
  function Below(n: nat): (s: set<int>)
    ensures |s| == n && forall i :: i in s <==> 0 <= i < n
  {
    if n == 0 then {} else Below(n - 1) + {n - 1}
  }

  lemma {:induction false} ElementsSize(s: seq<int>)
    requires forall i, j :: 0 <= i < j < |s| ==> s[i] != s[j]
    ensures |set x | x in s| == |s|
  {
    if s != [] {
      var t := s[..|s| - 1];
      ElementsSize(t);
      assert s == t + [s[|s| - 1]];
      assert (set x | x in s) == (set x | x in t) + {s[|s| - 1]};
    } else {
      assert (set x | x in s) == {};
    }
  }

  lemma Complement(held: set<int>, s: seq<int>, n: nat)
    requires forall i, j :: 0 <= i < j < |s| ==> s[i] != s[j]
    requires forall i :: 0 <= i < |s| ==> 0 <= s[i] < n
    requires forall i :: i in held ==> 0 <= i < n
    requires forall i :: 0 <= i < n ==> (i in held <==> i !in s)
    ensures |held| + |s| == n
  {
    var free := set x | x in s;
    ElementsSize(s);
    assert held + free == Below(n) && held !! free;
  }

  function Image<K, L>(tag: K -> L, s: set<K>): set<L> {
    set i | i in s :: tag(i)
  }

  // Distinct tags: as many tags as elements.
  lemma {:induction false} ImageSize<K(!new), L>(tag: K -> L, s: set<K>)
    requires forall i, j :: i in s && j in s && tag(i) == tag(j) ==> i == j
    ensures |Image(tag, s)| == |s|
    decreases |s|
  {
    if s != {} {
      var x :| x in s;
      var t := s - {x};
      ImageSize(tag, t);
      assert Image(tag, s) == Image(tag, t) + {tag(x)};
    }
  }

  lemma {:induction false} SubsetSize<T>(s: set<T>, t: set<T>)
    requires s <= t
    ensures |s| <= |t| && (s != t ==> |s| < |t|)
  {
    assert t == s + (t - s);
    assert s != t ==> t - s != {};
  }
}
