// split of util.c: a string cut into terms at a separator.
module Split {
  const NTERM: nat := 10
  const LTERM: nat := 20

  // The terms ended by a separator, and what follows the last one.
  datatype Parts = Parts(terms: seq<string>, rest: string)

  // One more character.
  function Add(p: Parts, x: char, c: char): Parts {
    if x == c then Parts(p.terms + [p.rest], "") else Parts(p.terms, p.rest + [x])
  }

  function Cut(s: string, c: char): Parts {
    if s == [] then Parts([], "")
    else
      Add(Cut(s[..|s| - 1], c), s[|s| - 1], c)
  }

  // Without the leading separators.
  function Strip(s: string, c: char): string {
    if s != [] && s[0] == c then Strip(s[1..], c) else s
  }

  // Each term followed by the separator.
  function Join(ts: seq<string>, c: char): string {
    if ts == [] then "" else Join(ts[..|ts| - 1], c) + ts[|ts| - 1] + [c]
  }

  predicate Free(ts: seq<string>, c: char) {
    forall k :: 0 <= k < |ts| ==> c !in ts[k]
  }

  lemma CutNext(s: string, x: char, c: char)
    ensures Cut(s + [x], c) == Add(Cut(s, c), x, c)
  {
    assert (s + [x])[..|s|] == s;
  }

  lemma JoinNext(ts: seq<string>, t: string, c: char)
    ensures Join(ts + [t], c) == Join(ts, c) + t + [c]
    ensures Free(ts + [t], c) <==> Free(ts, c) && c !in t
  {
    assert (ts + [t])[..|ts|] == ts;
    assert Free(ts + [t], c) ==> (ts + [t])[|ts|] == t && forall k :: 0 <= k < |ts| ==> (ts + [t])[k] == ts[k];
  }

  lemma Associative(a: string, b: string, d: string)
    ensures a + (b + d) == a + b + d
  {
  }

  ghost predicate Whole(p: Parts, s: string, c: char) {
    Join(p.terms, c) + p.rest == s && Free(p.terms, c) && c !in p.rest
  }

  lemma AddKeepsWhole(p: Parts, s: string, x: char, c: char)
    requires Whole(p, s, c)
    ensures Whole(Add(p, x, c), s + [x], c)
  {
    hide Join, Free;
    if x == c {
      JoinNext(p.terms, p.rest, c);
      assert s + [x] + "" == s + [x];
    } else {
      Associative(Join(p.terms, c), p.rest, [x]);
    }
  }

  lemma NothingCut(c: char)
    ensures Cut("", c) == Parts([], "") && Whole(Parts([], ""), "", c)
  {
  }

  // Nothing is lost: the terms, each with its separator, and the rest make up the string.
  lemma {:induction false} CutLosesNothing(s: string, c: char)
    ensures Whole(Cut(s, c), s, c)
  {
    hide *;
    if s == "" {
      NothingCut(c);
    } else {
      var init, x := s[..|s| - 1], s[|s| - 1];
      CutLosesNothing(init, c);
      CutNext(init, x, c);
      assert s == init + [x];
      AddKeepsWhole(Cut(init, c), init, x, c);
    }
  }

  lemma {:induction false} CutAppend(s: string, t: string, c: char)
    requires c !in t
    ensures Cut(s + t, c) == Parts(Cut(s, c).terms, Cut(s, c).rest + t)
  {
    if t == [] {
      assert s + t == s && Cut(s, c).rest + t == Cut(s, c).rest;
    } else {
      hide Cut;
      var init, x := t[..|t| - 1], t[|t| - 1];
      assert t == init + [x] && x in t;
      CutAppend(s, init, c);
      CutNext(s + init, x, c);
      Associative(s, init, [x]);
      Associative(Cut(s, c).rest, init, [x]);
    }
  }

  // Any separator-free terms and rest are found again: the cut is the only one.
  lemma {:induction false} CutOfJoin(ts: seq<string>, rest: string, c: char)
    requires Free(ts, c) && c !in rest
    ensures Cut(Join(ts, c) + rest, c) == Parts(ts, rest)
  {
    if ts == [] {
      CutAppend("", rest, c);
      assert Join(ts, c) + rest == "" + rest;
    } else {
      var init, last := ts[..|ts| - 1], ts[|ts| - 1];
      CutOfJoin(init, last, c);
      var s := Join(init, c) + last;
      assert (s + [c])[..|s|] == s;
      assert Cut(s + [c], c) == Parts(init + [last], "");
      assert ts == init + [last];
      CutAppend(s + [c], rest, c);
    }
  }

  lemma {:induction false} StripIsSuffix(s: string, c: char)
    ensures Strip(s, c) == [] || Strip(s, c)[0] != c
    ensures |Strip(s, c)| <= |s| && Strip(s, c) == s[|s| - |Strip(s, c)|..]
    ensures forall k :: 0 <= k < |s| - |Strip(s, c)| ==> s[k] == c
  {
    if s != [] && s[0] == c { StripIsSuffix(s[1..], c); }
  }

  // What is printed with trailing separators splits back to itself, exactly when the first term is
  // not empty.
  lemma SplitRoundTrip(ts: seq<string>, c: char)
    requires Free(ts, c) && ts != []
    ensures Cut(Strip(Join(ts, c), c), c) == Parts(ts, "") <==> ts[0] != ""
  {
    hide *;
    var s := Join(ts, c);
    FirstOf(ts, c);
    StripStep(s, c);
    if ts[0] != "" {
      NothingFree(c);
      CutOfJoin(ts, "", c);
      assert s + "" == s;
    } else {
      StripIsSuffix(s, c);
      CutLosesNothing(Strip(s, c), c);
      WholeIsJoin(ts, Strip(s, c), c);
    }
  }

  lemma NothingFree(c: char)
    ensures c !in ""
  {
  }

  lemma WholeIsJoin(ts: seq<string>, s: string, c: char)
    ensures Whole(Parts(ts, ""), s, c) ==> s == Join(ts, c)
  {
    hide Join;
    assert Join(ts, c) + "" == Join(ts, c);
  }

  lemma {:induction false} FirstOf(ts: seq<string>, c: char)
    requires ts != [] && Free(ts, c)
    ensures Join(ts, c) != [] && (Join(ts, c)[0] == c <==> ts[0] == "")
  {
    if |ts| > 1 {
      FirstOf(ts[..|ts| - 1], c);
    } else {
      assert Join(ts[..|ts| - 1], c) == "";
      assert ts[0] != "" ==> ts[0][0] in ts[0];
    }
  }

  // ---- the array of terms

  predicate Fits(p: Parts) {
    && (forall k :: 0 <= k < |p.terms| ==> |p.terms[k]| < LTERM)
    && |p.rest| <= LTERM
    && |p.terms| <= NTERM && (p.rest != "" ==> |p.terms| < NTERM)
  }

  // The cell that each character is written to, or the terminator for it, is in the array.
  predicate InRange(s: string, c: char) {
    s == [] ||
    var p := Cut(s[..|s| - 1], c);
    InRange(s[..|s| - 1], c) && |p.terms| < NTERM && |p.rest| < LTERM
  }

  lemma {:induction false} InRangeExactly(s: string, c: char)
    ensures InRange(s, c) <==> Fits(Cut(s, c))
  {
    if s != [] {
      var p := Cut(s[..|s| - 1], c);
      InRangeExactly(s[..|s| - 1], c);
      if Fits(Cut(s, c)) && s[|s| - 1] == c {
        assert Cut(s, c).terms[|p.terms|] == p.rest;
        assert forall k :: 0 <= k < |p.terms| ==> p.terms[k] == Cut(s, c).terms[k];
      }
    }
  }

  // Row k holds t and its terminator.
  predicate Row(terms: array2<char>, k: nat, t: string)
    requires k < terms.Length0 && |t| < terms.Length1
    reads terms
  {
    (forall j :: 0 <= j < |t| ==> terms[k, j] == t[j]) && terms[k, |t|] == '\0'
  }

  ghost function Cells(terms: array2<char>): seq<seq<char>>
    reads terms
  {
    seq(terms.Length0, k requires 0 <= k < terms.Length0 reads terms =>
      seq(terms.Length1, j requires 0 <= j < terms.Length1 reads terms => terms[k, j]))
  }

  // Whether the first k, j cells in writing order include this one.
  predicate Written(p: Parts, k: nat, j: nat) {
    if k < |p.terms| then j <= |p.terms[k]| else k == |p.terms| && j < |p.rest|
  }

  // What split has put into the array for the characters so far, and that it has left the other
  // cells alone.
  ghost predicate Filled(terms: array2<char>, was: seq<seq<char>>, p: Parts)
    requires terms.Length0 == |was| == NTERM && terms.Length1 == LTERM && Fits(p)
    requires forall k :: 0 <= k < |was| ==> |was[k]| == LTERM
    reads terms
  {
    && (forall k :: 0 <= k < |p.terms| ==> Row(terms, k, p.terms[k]))
    && (forall j :: 0 <= j < |p.rest| ==> terms[|p.terms|, j] == p.rest[j])
    && (forall k, j :: 0 <= k < NTERM && 0 <= j < LTERM && !Written(p, k, j) ==> terms[k, j] == was[k][j])
  }

  lemma NothingFilled(terms: array2<char>)
    requires terms.Length0 == NTERM && terms.Length1 == LTERM
    ensures Filled(terms, Cells(terms), Parts([], ""))
  {
  }

  // One turn of the loop at util.c:90-102.
  method Put(terms: array2<char>, i: nat, j: nat, x: char, c: char, ghost was: seq<seq<char>>, ghost p: Parts)
    returns (i': nat, j': nat)
    requires terms.Length0 == |was| == NTERM && terms.Length1 == LTERM
    requires forall k :: 0 <= k < |was| ==> |was[k]| == LTERM
    requires Fits(p) && Fits(Add(p, x, c)) && Filled(terms, was, p)
    requires i == |p.terms| < NTERM && j == |p.rest| < LTERM
    modifies terms
    ensures Filled(terms, was, Add(p, x, c)) && i' == |Add(p, x, c).terms| && j' == |Add(p, x, c).rest|
  {
    i', j' := i, j;
    if x == c {
      terms[i', j'] := '\0';
      i' := i' + 1;
      j' := 0;
    } else {
      terms[i', j'] := x;
      j' := j' + 1;
    }
  }

  lemma StripStep(s: string, c: char)
    ensures s != [] && s[0] == c ==> Strip(s, c) == Strip(s[1..], c)
    ensures s == [] || s[0] != c ==> Strip(s, c) == s
  {
  }

  // str is the string before its terminator; split puts the ended terms, and then the rest
  // without a terminator, into terms, and returns the number of ended terms.
  method Split(str: string, c: char, terms: array2<char>) returns (i: nat)
    requires '\0' !in str && c != '\0'
    requires terms.Length0 == NTERM && terms.Length1 == LTERM && Fits(Cut(Strip(str, c), c))
    modifies terms
    ensures i == |Cut(Strip(str, c), c).terms|
    ensures Filled(terms, old(Cells(terms)), Cut(Strip(str, c), c))
  {
    hide Filled, Strip;
    ghost var was := Cells(terms);
    NothingFilled(terms);
    var p := 0;
    while p < |str| && str[p] == c
      invariant 0 <= p <= |str| && Strip(str[p..], c) == Strip(str, c) && Filled(terms, was, Parts([], ""))
    {
      StripStep(str[p..], c);
      p := p + 1;
    }
    StripStep(str[p..], c);
    ghost var s, first := str[p..], p;
    InRangeExactly(s, c);
    i := 0;
    var j := 0;
    while p < |str|
      invariant first <= p <= |str|
      invariant var q := Cut(s[..p - first], c);
                i == |q.terms| && j == |q.rest| && Fits(q) && Filled(terms, was, q)
    {
      ghost var n := p - first;
      InRangePrefix(s, c, n + 1);
      assert s[..n + 1][..n] == s[..n] && s[n] == str[p];
      InRangeExactly(s[..n + 1], c);
      i, j := Put(terms, i, j, str[p], c, was, Cut(s[..n], c));
      p := p + 1;
    }
    assert s[..p - first] == s;
  }

  lemma {:induction false} InRangePrefix(s: string, c: char, n: nat)
    requires InRange(s, c) && n <= |s|
    ensures InRange(s[..n], c)
  {
    if n < |s| {
      InRangePrefix(s[..|s| - 1], c, n);
      assert s[..|s| - 1][..n] == s[..n];
    } else {
      assert s[..n] == s;
    }
  }
}
