/** Python's decimal text of integers: `str(n)` and `int(s)`, with the
    facts about them that the digit operations rely on. */
module Digits {
  import opened Wrappers

  predicate IsDigit(c: char) {
    '0' <= c <= '9'
  }

  predicate AllDigits(s: string) {
    forall i :: 0 <= i < |s| ==> IsDigit(s[i])
  }

  function DigitOf(c: char): (d: nat)
    requires IsDigit(c)
    ensures d < 10
  {
    (c as int) - ('0' as int)
  }

  function CharOf(d: nat): (c: char)
    requires d < 10
    ensures IsDigit(c) && DigitOf(c) == d
  {
    (d + '0' as int) as char
  }

  function Pow10(k: nat): (p: nat)
    ensures p >= 1
  {
    if k == 0 then 1 else 10 * Pow10(k - 1)
  }

  function Abs(n: int): nat {
    if n < 0 then -n else n
  }

  /** The value of a string of digits, leading zeros allowed ("007" is 7). */
  function DigitVal(s: string): nat
    requires AllDigits(s)
  {
    if s == [] then 0 else DigitVal(s[..|s| - 1]) * 10 + DigitOf(s[|s| - 1])
  }

  /** `str(n)` for a non-negative n: no leading zero, "0" for zero. */
  function NatStr(n: nat): (s: string)
    ensures |s| >= 1 && AllDigits(s)
  {
    if n < 10 then [CharOf(n)] else NatStr(n / 10) + [CharOf(n % 10)]
  }

  /** `str(n)` for any integer n. */
  function Str(n: int): string {
    if n < 0 then "-" + NatStr(-n) else NatStr(n)
  }

  /** Python's `str(x)` of a value that may be `None`. */
  function OptionStr(x: Option<int>): string {
    match x
    case None => "None"
    case Some(v) => Str(v)
  }

  /** `int(s)`: an optional sign followed by at least one digit; leading zeros
      and "-0" are accepted, anything else fails. */
  function Parse(s: string): Option<int> {
    if |s| > 0 && (s[0] == '-' || s[0] == '+') then
      if |s| > 1 && AllDigits(s[1..]) then
        var v: int := DigitVal(s[1..]);
        Some(if s[0] == '-' then -v else v)
      else None
    else if |s| > 0 && AllDigits(s) then Some(DigitVal(s))
    else None
  }

  /** A digit string as `str` prints it: no leading zero unless it is "0". */
  predicate Canonical(s: string) {
    |s| >= 1 && AllDigits(s) && (s[0] != '0' || |s| == 1)
  }

  function Reversed<T>(s: seq<T>): (r: seq<T>)
    ensures |r| == |s|
  {
    if s == [] then [] else Reversed(s[1..]) + [s[0]]
  }

  // ---------------------------------------------------------------------
  // Facts about digit strings

  lemma {:induction false} ReversedAt<T>(s: seq<T>, k: nat)
    requires k < |s|
    ensures Reversed(s)[k] == s[|s| - 1 - k]
  {
    if k < |s| - 1 {
      ReversedAt(s[1..], k);
    }
  }

  lemma ReversedInvolution<T>(s: seq<T>)
    ensures Reversed(Reversed(s)) == s
  {
    forall k | 0 <= k < |s|
      ensures Reversed(Reversed(s))[k] == s[k]
    {
      ReversedAt(Reversed(s), k);
      ReversedAt(s, |s| - 1 - k);
    }
  }

  lemma ReversedSnoc<T>(s: seq<T>, x: T)
    ensures Reversed(s + [x]) == [x] + Reversed(s)
  {
    var r := Reversed(s + [x]);
    forall k | 0 <= k < |s| + 1
      ensures r[k] == ([x] + Reversed(s))[k]
    {
      ReversedAt(s + [x], k);
      if k > 0 {
        ReversedAt(s, k - 1);
      }
    }
  }

  lemma ReversedAllDigits(s: string)
    requires AllDigits(s)
    ensures AllDigits(Reversed(s))
  {
    forall k | 0 <= k < |s|
      ensures IsDigit(Reversed(s)[k])
    {
      ReversedAt(s, k);
    }
  }

  /** Appending digits shifts the value left: the source's concatenations of
      decimal texts all reduce to this. */
  lemma {:induction false} DigitValConcat(a: string, b: string)
    requires AllDigits(a) && AllDigits(b)
    ensures AllDigits(a + b)
    ensures DigitVal(a + b) == DigitVal(a) * Pow10(|b|) + DigitVal(b)
  {
    assert AllDigits(a + b) by {
      forall i | 0 <= i < |a + b| ensures IsDigit((a + b)[i]) {
        if i >= |a| { assert (a + b)[i] == b[i - |a|]; }
      }
    }
    if b == [] {
      assert a + b == a;
    } else {
      var b' := b[..|b| - 1];
      var c := b[|b| - 1];
      assert (a + b)[..|a + b| - 1] == a + b';
      assert (a + b)[|a + b| - 1] == c;
      DigitValConcat(a, b');
      ShiftStep(DigitVal(a), Pow10(|b'|), DigitVal(b'), DigitOf(c));
    }
  }

  lemma ShiftStep(x: nat, p: nat, y: nat, d: nat)
    ensures (x * p + y) * 10 + d == x * (p * 10) + (y * 10 + d)
  {
  }

  lemma {:induction false} DigitValBound(s: string)
    requires AllDigits(s)
    ensures DigitVal(s) < Pow10(|s|)
  {
    if s != [] {
      DigitValBound(s[..|s| - 1]);
    }
  }

  /** A digit string with a non-zero first digit is at least 10^(length-1). */
  lemma {:induction false} DigitValLeading(s: string)
    requires AllDigits(s) && |s| >= 1 && s[0] != '0'
    ensures DigitVal(s) >= Pow10(|s| - 1)
  {
    if |s| > 1 {
      var p := s[..|s| - 1];
      assert p[0] == s[0];
      DigitValLeading(p);
    }
  }

  lemma {:induction false} NatStrValue(n: nat)
    ensures DigitVal(NatStr(n)) == n
  {
    if n >= 10 {
      var s := NatStr(n);
      assert s[..|s| - 1] == NatStr(n / 10);
      NatStrValue(n / 10);
    }
  }

  lemma {:induction false} NatStrCanonical(n: nat)
    ensures Canonical(NatStr(n))
    ensures n >= 1 ==> NatStr(n)[0] != '0'
  {
    if n >= 10 {
      NatStrCanonical(n / 10);
    }
  }

  /** Round trip in the other direction: a canonical digit string is what
      `str` prints for its value. */
  lemma {:induction false} CanonicalRoundTrip(s: string)
    requires Canonical(s)
    ensures NatStr(DigitVal(s)) == s
  {
    if |s| > 1 {
      var p := s[..|s| - 1];
      assert p[0] == s[0];
      DigitValLeading(p);
      CanonicalRoundTrip(p);
      assert s == p + [s[|s| - 1]];
    }
  }

  lemma NatStrLength(n: nat)
    ensures n < Pow10(|NatStr(n)|)
    ensures n >= 1 ==> Pow10(|NatStr(n)| - 1) <= n
  {
    NatStrValue(n);
    DigitValBound(NatStr(n));
    NatStrCanonical(n);
    if n >= 1 {
      DigitValLeading(NatStr(n));
    }
  }

  lemma {:induction false} Pow10Monotone(i: nat, j: nat)
    requires i <= j
    ensures Pow10(i) <= Pow10(j)
  {
    if i < j {
      Pow10Monotone(i, j - 1);
    }
  }

  /** A number has at most k digits exactly when it is below 10^k. */
  lemma NatStrShort(n: nat, k: nat)
    requires k >= 1
    ensures |NatStr(n)| <= k <==> n < Pow10(k)
  {
    NatStrLength(n);
    if |NatStr(n)| <= k {
      Pow10Monotone(|NatStr(n)|, k);
    } else if n >= 1 {
      Pow10Monotone(k, |NatStr(n)| - 1);
    }
  }

  /** `int(str(n)) == n` for every integer. */
  lemma ParseStr(n: int)
    ensures Parse(Str(n)) == Some(n)
  {
    if n < 0 {
      ParseNegative(-n);
    } else {
      ParseNatStr(n);
    }
  }

  lemma ParseNatStr(m: nat)
    ensures Parse(NatStr(m)) == Some(m)
  {
    NatStrValue(m);
  }

  lemma ParseNegative(m: nat)
    requires m > 0
    ensures Parse("-" + NatStr(m)) == Some(-(m as int))
  {
    var s := "-" + NatStr(m);
    assert s[0] == '-' && s[1..] == NatStr(m);
    NatStrValue(m);
  }

  /** `str` is injective, so an operation's name determines its parameter. */
  lemma StrInjective(a: int, b: int)
    requires Str(a) == Str(b)
    ensures a == b
  {
    ParseStr(a);
    ParseStr(b);
  }

  lemma StrShape(n: int)
    ensures n >= 0 ==> Str(n) == NatStr(n)
    ensures n < 0 ==> Str(n)[0] == '-' && Str(n)[1..] == NatStr(-n)
    ensures |Str(n)| >= 1
  {
  }
}
