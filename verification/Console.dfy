// printi of console.c: numbers in any base from 2 to 16.
module Console {
  import opened Arithmetic

  const DIGITS := "0123456789abcdef"
  const INT_MIN: int := -0x8000_0000
  const INT_MAX: int := 0x7fff_ffff

  function DigitChar(d: nat): char
    requires d < 16
  {
    DIGITS[d]
  }

  function Quot(n: nat, base: nat): (q: nat)
    requires 2 <= base <= 16
    ensures n > 0 ==> q < n
  {
    n / base
  }

  function Rem(n: nat, base: nat): (r: nat)
    requires 2 <= base <= 16
    ensures r < base
  {
    n % base
  }

  lemma QuotRem(n: nat, base: nat, q: nat, r: nat)
    requires 2 <= base <= 16 && r < base
    ensures n == q * base + r <==> Quot(n, base) == q && Rem(n, base) == r
  {
    if n == q * base + r {
      ModUnique(n, base, q, r);
    }
  }

  // The digits of n, most significant first; none for 0.
  function Digits(n: nat, base: nat): (s: string)
    requires 2 <= base <= 16
  {
    if n == 0 then [] else Digits(Quot(n, base), base) + [DigitChar(Rem(n, base))]
  }

  function Numeral(num: int, base: nat): string
    requires 2 <= base <= 16
  {
    if num == 0 then "0" else if num < 0 then "-" + Digits(-num, base) else Digits(num, base)
  }

  // ---- reading a numeral back

  function DigitValue(c: char): int {
    if '0' <= c <= '9' then c as int - '0' as int
    else if 'a' <= c <= 'f' then c as int - 'a' as int + 10
    else -1
  }

  predicate IsDigits(s: string, base: nat) {
    forall i :: 0 <= i < |s| ==> 0 <= DigitValue(s[i]) < base
  }

  function Value(s: string, base: nat): int {
    if s == [] then 0 else Value(s[..|s| - 1], base) * base + DigitValue(s[|s| - 1])
  }

  function Parse(s: string, base: nat): int {
    if s != [] && s[0] == '-' then -Value(s[1..], base) else Value(s, base)
  }

  lemma DigitOf(d: nat)
    requires d < 16
    ensures DigitValue(DigitChar(d)) == d && (DigitChar(d) == '0' <==> d == 0) && DigitChar(d) != '-'
    ensures forall c :: DigitValue(c) == d ==> c == DigitChar(d)
  {
  }

  lemma ValueAppend(s: string, c: char, base: nat)
    ensures Value(s + [c], base) == Value(s, base) * base + DigitValue(c)
    ensures IsDigits(s + [c], base) <==> IsDigits(s, base) && 0 <= DigitValue(c) < base
  {
    assert (s + [c])[..|s|] == s;
    assert IsDigits(s + [c], base) ==> (s + [c])[|s|] == c && forall i :: 0 <= i < |s| ==> (s + [c])[i] == s[i];
  }

  lemma DigitsStep(n: nat, base: nat)
    requires 2 <= base <= 16 && n > 0
    ensures Digits(n, base) == Digits(Quot(n, base), base) + [DigitChar(Rem(n, base))]
  {
  }

  lemma NoDigits(n: nat, base: nat)
    requires 2 <= base <= 16
    ensures Digits(n, base) == [] <==> n == 0
    ensures Value([], base) == 0 && IsDigits([], base)
  {
  }

  // The digits of a number read back as it, and have no leading zero.
  lemma {:induction false} DigitsRead(n: nat, base: nat)
    requires 2 <= base <= 16
    ensures Value(Digits(n, base), base) == n && IsDigits(Digits(n, base), base)
    ensures n > 0 ==> Digits(n, base) != [] && Digits(n, base)[0] != '0' && Digits(n, base)[0] != '-'
  {
    hide *;
    if n > 0 {
      var q, d := Quot(n, base), Rem(n, base);
      var rest := Digits(q, base);
      DigitsStep(n, base);
      DigitsRead(q, base);
      DigitOf(d);
      ValueAppend(rest, DigitChar(d), base);
      QuotRem(n, base, q, d);
      NoDigits(q, base);
    } else {
      NoDigits(n, base);
    }
  }

  // They are the only such digits.
  lemma {:induction false} DigitsUnique(s: string, base: nat)
    requires 2 <= base <= 16 && IsDigits(s, base) && (s != [] ==> s[0] != '0')
    ensures Value(s, base) >= 0 && s == Digits(Value(s, base), base)
    decreases |s|
  {
    hide DigitValue, IsDigits, DigitChar;
    if s != [] {
      var rest, d := s[..|s| - 1], DigitValue(s[|s| - 1]);
      assert s == rest + [s[|s| - 1]];
      ValueAppend(rest, s[|s| - 1], base);
      DigitsUnique(rest, base);
      DigitOf(d);
      if |s| == 1 { DigitOf(0); }
      DigitsNext(Value(rest, base), d, base);
    }
  }

  lemma DigitsNext(n: nat, d: nat, base: nat)
    requires 2 <= base <= 16 && d < base && n + d > 0
    ensures n * base + d >= 0 && Digits(n * base + d, base) == Digits(n, base) + [DigitChar(d)]
  {
    hide DigitChar, Quot, Rem;
    assert n * base >= n;
    QuotRem(n * base + d, base, n, d);
  }

  // A numeral without superfluous signs and zeros.
  predicate Canonical(s: string, base: nat) {
    s == "0" ||
    var t := if s != [] && s[0] == '-' then s[1..] else s;
    t != [] && t[0] != '0' && IsDigits(t, base)
  }

  lemma NumeralReads(num: int, base: nat)
    requires 2 <= base <= 16
    ensures Parse(Numeral(num, base), base) == num && Canonical(Numeral(num, base), base)
  {
    hide DigitValue, Value, Digits, DigitChar, IsDigits;
    ZeroValue(base);
    DigitsRead(if num < 0 then -num else num, base);
    assert num < 0 ==> Numeral(num, base)[1..] == Digits(-num, base);
  }

  // What printi emits for a number reads back as it, and nothing else without a leading zero
  // does: the text is the number's only numeral.
  lemma NumeralRoundTrip(num: int, base: nat, s: string)
    requires 2 <= base <= 16
    ensures s == Numeral(num, base) <==> Parse(s, base) == num && Canonical(s, base)
  {
    hide DigitValue, Value, Digits, DigitChar, IsDigits;
    NumeralReads(num, base);
    if Parse(s, base) == num && Canonical(s, base) {
      ZeroValue(base);
      if s != "0" {
        var t := if s[0] == '-' then s[1..] else s;
        DigitsUnique(t, base);
        NoDigits(Value(t, base), base);
        if s[0] == '-' { assert s == "-" + t; }
      }
    }
  }

  lemma ZeroValue(base: nat)
    ensures Value("0", base) == 0
  {
    assert "0"[..0] == "";
  }

  // ---- the buffer

  lemma {:induction false} DigitsBound(n: nat, base: nat, k: nat)
    requires 2 <= base <= 16 && n < Pow2(k)
    ensures |Digits(n, base)| <= k
  {
    if n > 0 {
      QuotHalves(n, base);
      DigitsBound(Quot(n, base), base, k - 1);
    }
  }

  lemma QuotHalves(n: nat, base: nat)
    requires 2 <= base <= 16
    ensures 2 * Quot(n, base) <= n
  {
    QuotRem(n, base, Quot(n, base), Rem(n, base));
    assert Quot(n, base) * base >= Quot(n, base) * 2;
  }

  lemma OneMore(x: nat)
    ensures |Digits(2 * x + 1, 2)| == |Digits(x, 2)| + 1
  {
    QuotRem(2 * x + 1, 2, x, 1);
  }

  lemma {:induction false} AllOnes(k: nat)
    ensures |Digits(Pow2(k) - 1, 2)| == k
  {
    if k > 0 {
      hide Digits;
      AllOnes(k - 1);
      OneMore(Pow2(k - 1) - 1);
      assert Pow2(k) - 1 == 2 * (Pow2(k - 1) - 1) + 1;
    }
  }

  lemma PowersOfTwo()
    ensures Pow2(31) == 0x8000_0000
  {
    assert Pow2(2) == 4;
    Pow2Sum(2, 2);
    Pow2Sum(4, 4);
    Pow2Sum(8, 8);
    Pow2Sum(16, 16);
  }

  // No 32-bit number but INT_MIN needs more than the 32 bytes of the buffer, and one needs all.
  lemma BufferFits(num: int, base: nat)
    requires 2 <= base <= 16 && INT_MIN < num <= INT_MAX
    ensures |Numeral(num, base)| <= 32
    ensures |Numeral(-INT_MAX, 2)| == 32
  {
    hide Pow2, Digits, Quot, Rem;
    PowersOfTwo();
    assert Pow2(31) - 1 == INT_MAX;
    DigitsBound(if num < 0 then -num else num, base, 31);
    AllOnes(31);
  }

  // The characters of buf up to index i, from there down to 0.
  function Backwards(buf: seq<char>): (s: string)
    ensures |s| == |buf|
  {
    if buf == [] then [] else [buf[|buf| - 1]] + Backwards(buf[..|buf| - 1])
  }

  class Screen {
    var text: string

    constructor ()
      ensures text == ""
    {
      text := "";
    }

    method Putc(c: char)
      modifies this
      ensures text == old(text) + [c]
    {
      text := text + [c];
    }

    method PrintI(num: int, base: nat)
      requires 2 <= base <= 16 && INT_MIN < num <= INT_MAX
      modifies this
      ensures text == old(text) + Numeral(num, base)
    {
      hide Digits, Pow2, Quot, Rem;
      if num == 0 {
        Putc('0');
        return;
      }
      var buf := new char[32];
      var n, neg := num, false;
      if n < 0 {
        n := -n;
        neg := true;
      }
      ghost var digits := Digits(n, base);
      BufferFits(num, base);
      var i := Fill(buf, n, base);
      if neg {
        buf[i] := '-';
      } else {
        i := i - 1;
      }
      assert Backwards(buf[..i + 1]) == Numeral(num, base) by {
        if neg { assert buf[..i + 1][..i] == buf[..i]; }
      }
      Emit(buf, i);
    }

    // console.c:134-137
    method Emit(buf: array<char>, last: int)
      requires -1 <= last < buf.Length
      modifies this
      ensures text == old(text) + Backwards(buf[..last + 1])
    {
      var i := last;
      while i >= 0
        invariant -1 <= i <= last
        invariant text + Backwards(buf[..i + 1]) == old(text) + Backwards(buf[..last + 1])
      {
        assert buf[..i + 1][..i] == buf[..i];
        Putc(buf[i]);
        i := i - 1;
      }
    }
  }

  // The digits of num, least significant first.
  method Fill(buf: array<char>, num: nat, base: nat) returns (i: nat)
    requires 2 <= base <= 16 && |Digits(num, base)| <= buf.Length
    modifies buf
    ensures i == |Digits(num, base)| && Backwards(buf[..i]) == Digits(num, base)
  {
    var n := num;
    i := 0;
    while n != 0
      invariant i + |Digits(n, base)| == |Digits(num, base)|
      invariant Digits(n, base) + Backwards(buf[..i]) == Digits(num, base)
      decreases n
    {
      assert Digits(n, base) == Digits(Quot(n, base), base) + [DigitChar(Rem(n, base))];
      buf[i] := DigitChar(Rem(n, base));
      n := Quot(n, base);
      i := i + 1;
      assert buf[..i][..i - 1] == buf[..i - 1];
    }
  }

  // ---- INT_MIN

  // 32-bit negation; C division truncates toward zero.
  function Negate(num: int): int {
    if num == INT_MIN then INT_MIN else -num
  }

  function TruncQuot(n: int, base: nat): int
    requires 2 <= base <= 16
  {
    if n < 0 then 0 - Quot(-n, base) else Quot(n, base)
  }

  function TruncRem(n: int, base: nat): int
    requires 2 <= base <= 16
  {
    if n < 0 then 0 - Rem(-n, base) else Rem(n, base)
  }

  // Whether every index that the loop of printi uses into its table of digits is one.
  predicate IndexesOk(n: int, base: nat)
    requires 2 <= base <= 16
    decreases if n < 0 then -n else n
  {
    n == 0 || (0 <= TruncRem(n, base) < 16 && IndexesOk(TruncQuot(n, base), base))
  }

  // printi stays inside its table exactly for the numbers other than INT_MIN.
  lemma OnlyIntMinFails(num: int, base: nat)
    requires 2 <= base <= 16 && INT_MIN <= num <= INT_MAX
    ensures IndexesOk(if num < 0 then Negate(num) else num, base) <==> num != INT_MIN
  {
    SignDecides(if num < 0 then Negate(num) else num, base);
  }

  lemma {:induction false} SignDecides(n: int, base: nat)
    requires 2 <= base <= 16
    ensures IndexesOk(n, base) <==> n >= 0
    decreases if n < 0 then -n else n
  {
    hide Quot, Rem;
    if n != 0 {
      SignDecides(TruncQuot(n, base), base);
    }
    if n < 0 {
      QuotRem(-n, base, Quot(-n, base), Rem(-n, base));
    }
  }
}
