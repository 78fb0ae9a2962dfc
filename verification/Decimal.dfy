/** Decimal numbers as text: sdsll2str of sds.c, and the atoi that reads them back. */
module Decimal {
  import opened CStrings

  function Digit(d: nat): (c: cchar)
    requires d < 10
    ensures IsDigit(c)
  {
    ('0' as int + d) as char
  }

  function Digits(n: nat): cstring {
    if n < 10 then [Digit(n)] else Digits(n / 10) + [Digit(n % 10)]
  }

  function Text(v: int): cstring {
    if v < 0 then ['-'] + Digits(-v) else Digits(v)
  }

  // ---------- Reading ----------

  /** atoi from the first digit on. */
  function ReadDigits(s: cstring, acc: nat): nat {
    if s != [] && IsDigit(s[0]) then ReadDigits(s[1..], acc * 10 + (s[0] as int - '0' as int)) else acc
  }

  function Atoi(s: cstring): int
    decreases |s|
  {
    if s == [] then 0
    else if IsSpace(s[0]) then Atoi(s[1..])
    else if s[0] == '-' then -(ReadDigits(s[1..], 0) as int)
    else if s[0] == '+' then ReadDigits(s[1..], 0)
    else ReadDigits(s, 0)
  }

  predicate AllDigits(s: cstring) {
    forall i :: 0 <= i < |s| ==> IsDigit(s[i])
  }

  lemma {:induction false} ReadDigitsSnoc(s: cstring, c: cchar, acc: nat)
    requires AllDigits(s) && IsDigit(c)
    ensures ReadDigits(s + [c], acc) == ReadDigits(s, acc) * 10 + (c as int - '0' as int)
  {
    if s == [] {
      assert s + [c] == [c];
      assert [c][1..] == [];
    } else {
      assert (s + [c])[1..] == s[1..] + [c];
      ReadDigitsSnoc(s[1..], c, acc * 10 + (s[0] as int - '0' as int));
    }
  }

  lemma {:induction false} ReadBack(n: nat)
    ensures AllDigits(Digits(n)) && Digits(n) != [] && ReadDigits(Digits(n), 0) == n
  {
    if n < 10 {
      assert Digits(n)[1..] == [];
    } else {
      ReadBack(n / 10);
      ReadDigitsSnoc(Digits(n / 10), Digit(n % 10), 0);
    }
  }

  /** Every integer is read back as itself. */
  lemma AtoiText(v: int)
    ensures Atoi(Text(v)) == v
  {
    ReadBack(if v < 0 then -v else v);
    if v < 0 {
      assert Text(v)[1..] == Digits(-v);
    } else {
      assert IsDigit(Digits(v)[0]);
    }
  }

  // ---------- What atoi reads ----------

  /** The number that decimal digits stand for. */
  function Number(d: cstring): int {
    if d == [] then 0 else 10 * Number(d[..|d| - 1]) + (d[|d| - 1] as int - 48)
  }

  ghost predicate Numeral(d: cstring) {
    forall i :: 0 <= i < |d| ==> 48 <= d[i] as int <= 57
  }

  /** Digits are read up to the first byte that is none. */
  lemma {:induction false} ReadUpTo(d: cstring, rest: cstring, acc: nat)
    requires AllDigits(d) && (rest == [] || !IsDigit(rest[0]))
    ensures ReadDigits(d + rest, acc) == ReadDigits(d, acc)
  {
    if d == [] {
      assert d + rest == rest;
    } else {
      assert (d + rest)[1..] == d[1..] + rest;
      ReadUpTo(d[1..], rest, acc * 10 + (d[0] as int - '0' as int));
    }
  }

  lemma {:induction false} ReadNumber(d: cstring)
    requires AllDigits(d)
    ensures ReadDigits(d, 0) == Number(d)
  {
    if d != [] {
      var n := |d| - 1;
      assert d == d[..n] + [d[n]];
      ReadDigitsSnoc(d[..n], d[n], 0);
      ReadNumber(d[..n]);
    }
  }

  /** atoi skips white space, takes at most one sign, and reads as many digits as there are; what follows them
      does not matter.  Every string can be cut up in this way. */
  lemma {:induction false} AtoiReads(gap: cstring, sign: cstring, d: cstring, rest: cstring)
    requires forall i :: 0 <= i < |gap| ==> gap[i] as int == 32 || 9 <= gap[i] as int <= 13
    requires (sign == "" || sign == "-" || sign == "+") && Numeral(d)
    requires rest == [] || !(48 <= rest[0] as int <= 57)
    requires sign == "" && d == [] && rest != [] ==> !IsSpace(rest[0]) && rest[0] != '-' && rest[0] != '+'
    ensures Atoi(gap + (sign + (d + rest))) == if sign == "-" then -Number(d) else Number(d)
    decreases |gap|
  {
    var s := gap + (sign + (d + rest));
    if gap != [] {
      assert s[0] == gap[0] && s[1..] == gap[1..] + (sign + (d + rest));
      AtoiReads(gap[1..], sign, d, rest);
    } else {
      assert s == sign + (d + rest);
      ReadUpTo(d, rest, 0);
      ReadNumber(d);
      if sign != "" {
        assert s[0] == sign[0] && s[1..] == d + rest;
      } else {
        assert s == d + rest;
        assert d != [] ==> s[0] == d[0];
      }
    }
  }

  /** A number is printed with its digits, no leading zero, and a minus sign only if it is negative. */
  lemma TextCanonical(v: int) returns (d: cstring)
    ensures Text(v) == (if v < 0 then "-" else "") + d
    ensures Numeral(d) && d != [] && Number(d) == (if v < 0 then -v else v) && (|d| > 1 ==> d[0] != '0')
  {
    var n := if v < 0 then -v else v;
    d := Digits(n);
    ReadBack(n);
    ReadNumber(d);
    NoLeadingZero(n);
    assert "" + d == d;
  }

  lemma {:induction false} NoLeadingZero(n: nat)
    ensures n > 0 ==> Digits(n)[0] != '0'
    ensures n == 0 ==> |Digits(n)| == 1
  {
    if n >= 10 {
      NoLeadingZero(n / 10);
    }
  }

  // ---------- Printing in place ----------

  const LLSTR_SIZE := 21
  const LLONG_LIMIT := 0x8000_0000_0000_0000

  function Power10(k: nat): nat {
    if k == 0 then 1 else 10 * Power10(k - 1)
  }

  lemma {:induction false} DigitsLength(n: nat, k: nat)
    requires k >= 1 && n < Power10(k)
    ensures |Digits(n)| <= k
  {
    if n >= 10 {
      assert k > 1;
      DigitsLength(n / 10, k - 1);
    }
  }

  function Reverse(s: cstring): (r: cstring)
    ensures |r| == |s|
    ensures forall i :: 0 <= i < |s| ==> r[i] == s[|s| - 1 - i]
  {
    if s == [] then [] else Reverse(s[1..]) + [s[0]]
  }

  lemma DigitsUnfold(n: nat)
    ensures Digits(n) == (if n < 10 then [] else Digits(n / 10)) + [Digit(n % 10)]
    ensures Digits(n) != []
  {
  }

  lemma Power19()
    ensures Power10(19) == 10_000_000_000_000_000_000
  {
    assert Power10(3) == 1000;
    assert Power10(6) == 1000 * Power10(3);
    assert Power10(9) == 1000 * Power10(6);
    assert Power10(12) == 1000 * Power10(9);
    assert Power10(15) == 1000 * Power10(12);
    assert Power10(18) == 1000 * Power10(15);
  }

  /** The do-while of sdsll2str: least significant digit first. */
  method StoreDigits(s: array<cchar>, n: nat) returns (p: nat)
    requires |Digits(n)| < s.Length
    modifies s
    ensures p == |Digits(n)| && Reverse(s[..p]) == Digits(n)
  {
    hide Digits, Reverse;
    var v := n;
    p := 0;
    ReverseSnoc([], '0');
    assert s[..0] == [] && Digits(n) + [] == Digits(n);
    while true
      invariant p + |Digits(v)| == |Digits(n)|
      invariant Digits(v) + Reverse(s[..p]) == Digits(n)
      decreases v
    {
      DigitsUnfold(v);
      ghost var done := s[..p];
      s[p] := Digit(v % 10);
      assert s[..p + 1] == done + [Digit(v % 10)];
      ReverseSnoc(done, Digit(v % 10));
      p := p + 1;
      v := v / 10;
      if v == 0 {
        break;
      }
    }
  }

  lemma ReverseSnoc(s: cstring, c: cchar)
    ensures Reverse(s + [c]) == [c] + Reverse(s)
    ensures Reverse([]) == []
  {
  }

  /** sdsll2str: digits are stored backwards, the terminator is put behind them, then the
      text is reversed in place.  Negating the most negative value is not defined in C. */
  method LL2Str(s: array<cchar>, value: int) returns (l: nat)
    requires s.Length >= LLSTR_SIZE && -LLONG_LIMIT < value < LLONG_LIMIT
    modifies s
    ensures l == |Text(value)| < s.Length && s[..l] == Text(value) && s[l] == NUL
  {
    var v: nat := if value < 0 then -value else value;
    Power19();
    DigitsLength(v, 19);
    hide Digits, Reverse;
    var p := StoreDigits(s, v);
    if value < 0 {
      ghost var done := s[..p];
      s[p] := '-';
      assert s[..p + 1] == done + ['-'];
      ReverseSnoc(done, '-');
      p := p + 1;
    }
    l := p;
    s[p] := NUL;
    assert s[..l] == s[..p];
    ReverseInPlace(s, l);
  }

  /** The closing loop of sdsll2str: two pointers swap bytes until they meet. */
  method ReverseInPlace(a: array<cchar>, l: nat)
    requires 1 <= l <= a.Length
    modifies a
    ensures a[..l] == Reverse(old(a[..l]))
    ensures a[l..] == old(a[l..])
  {
    hide Reverse;
    var s, p := 0, l - 1;
    while s < p
      invariant 0 <= s && s + p == l - 1 && s <= p + 1
      invariant forall k :: 0 <= k < a.Length && (s <= k <= p || k >= l) ==> a[k] == old(a[k])
      invariant forall k :: 0 <= k < l && !(s <= k <= p) ==> a[k] == old(a[l - 1 - k])
      decreases p - s
    {
      var aux := a[s];
      a[s] := a[p];
      a[p] := aux;
      s := s + 1;
      p := p - 1;
    }
    ghost var was := old(a[..l]);
    forall k | 0 <= k < l ensures a[k] == Reverse(was)[k] {
      assert was[l - 1 - k] == old(a[l - 1 - k]);
    }
  }
}
