/** The integer-to-integer helpers of the operation catalogue, each defined on
    the decimal text of its argument exactly as `operations.py` computes it,
    with the error conditions the source raises as `Err` values. */
module DigitOps {
  import opened Wrappers
  import opened Digits
  import opened Errors

  /** `int(s)` of a non-empty string of digits, which always succeeds. */
  function ParseDigits(s: string): nat
    requires AllDigits(s) && |s| >= 1
  {
    DigitVal(s)
  }

  lemma ParseDigitsIsInt(s: string)
    requires AllDigits(s) && |s| >= 1
    ensures Parse(s) == Some(ParseDigits(s) as int)
  {
  }

  function Join(a: string, b: string): (s: string)
    requires AllDigits(a) && AllDigits(b)
    ensures AllDigits(s) && |s| == |a| + |b|
    ensures DigitVal(s) == DigitVal(a) * Pow10(|b|) + DigitVal(b)
  {
    DigitValConcat(a, b);
    a + b
  }

  // ---------------------------------------------------------------------
  // negative_decorator

  function SignPrefix(n: int): string {
    if n < 0 then "-" else ""
  }

  /** `int(sign + str(r))`: the decorator puts the sign of `n` back on the
      non-negative result `r` computed from `abs(n)`. */
  function WithSign(n: int, r: nat): (v: int)
    ensures Abs(v) == r
    ensures n < 0 ==> v <= 0
    ensures n >= 0 ==> v >= 0
  {
    if n < 0 then -(r as int) else r
  }

  /** The value is what `int` reads from the sign of `n` put before `str(r)`. */
  lemma WithSignIsInt(n: int, r: nat)
    ensures Parse(SignPrefix(n) + Str(r)) == Some(WithSign(n, r))
  {
    ParseStr(r);
    if n < 0 {
      assert (SignPrefix(n) + Str(r))[1..] == NatStr(r);
      NatStrValue(r);
    } else {
      assert SignPrefix(n) + Str(r) == Str(r);
    }
  }

  /** The decorator around a helper that may raise: the error passes through. */
  function Signed(n: int, inner: Result<nat, Error>): Result<int, Error> {
    match inner
    case Err(e) => Err(e)
    case Ok(m) => Ok(WithSign(n, m))
  }

  // ---------------------------------------------------------------------
  // reverse and mirror

  function ReverseAsStr(m: nat): (s: string)
    ensures AllDigits(s) && |s| == |NatStr(m)|
  {
    ReversedAllDigits(NatStr(m));
    Reversed(NatStr(m))
  }

  function ReverseAbs(m: nat): nat {
    ParseDigits(ReverseAsStr(m))
  }

  function Reverse(n: int): int {
    WithSign(n, ReverseAbs(Abs(n)))
  }

  function MirrorAbs(m: nat): Result<nat, Error> {
    if m > 999 then Err(TooLarge) else Ok(ParseDigits(Join(NatStr(m), ReverseAsStr(m))))
  }

  function Mirror(n: int): Result<int, Error> {
    Signed(n, MirrorAbs(Abs(n)))
  }

  // ---------------------------------------------------------------------
  // replace

  /** Python's `s.replace(pattern, replacement)`: every non-overlapping
      occurrence of `pattern`, scanning from the left; an empty pattern puts the
      replacement between all characters and at both ends. */
  function ReplaceAll(s: string, pattern: string, replacement: string): string
    decreases |s|
  {
    if pattern == [] then replacement + Interleave(s, replacement)
    else if |s| < |pattern| then s
    else if s[..|pattern|] == pattern then replacement + ReplaceAll(s[|pattern|..], pattern, replacement)
    else [s[0]] + ReplaceAll(s[1..], pattern, replacement)
  }

  function Interleave(s: string, sep: string): string {
    if s == [] then [] else [s[0]] + sep + Interleave(s[1..], sep)
  }

  /** `replace(value, old, new)`: `oldText` and `newText` are the texts
      `str(old)` and `str(new)`. */
  function Replace(value: int, oldText: string, newText: string): Result<int, Error> {
    match Parse(ReplaceAll(Str(value), oldText, newText))
    case None => Err(ParseFailure)
    case Some(v) => Ok(v)
  }

  predicate OccursAt(pattern: string, s: string, i: nat) {
    i + |pattern| <= |s| && s[i..i + |pattern|] == pattern
  }

  // ---------------------------------------------------------------------
  // divideby: Python's floor division and modulo

  function FloorDiv(a: int, b: int): int
    requires b != 0
  {
    if b > 0 then a / b else (-a) / (-b)
  }

  function FloorMod(a: int, b: int): int
    requires b != 0
  {
    a - b * FloorDiv(a, b)
  }

  function DivideBy(numerator: int, denominator: int): Result<int, Error> {
    if denominator == 0 then Err(ZeroDivision)
    else if FloorMod(numerator, denominator) != 0 then Err(InvalidDivision)
    else Ok(FloorDiv(numerator, denominator))
  }

  // ---------------------------------------------------------------------
  // shifts

  function ShiftLeftAbs(m: nat): Result<nat, Error> {
    var s := NatStr(m);
    if |s| == 1 then Err(IllegalShift) else Ok(ParseDigits(s[..|s| - 1]))
  }

  function ShiftLeft(n: int): Result<int, Error> {
    Signed(n, ShiftLeftAbs(Abs(n)))
  }

  function CircularShiftRightAbs(m: nat): nat {
    var s := NatStr(m);
    ParseDigits(Join([s[|s| - 1]], s[..|s| - 1]))
  }

  function CircularShiftRight(n: int): int {
    WithSign(n, CircularShiftRightAbs(Abs(n)))
  }

  function CircularShiftLeftAbs(m: nat): nat {
    var s := NatStr(m);
    ParseDigits(Join(s[1..], [s[0]]))
  }

  function CircularShiftLeft(n: int): int {
    WithSign(n, CircularShiftLeftAbs(Abs(n)))
  }

  // ---------------------------------------------------------------------
  // sum_digits and add_digits

  function SumOfDigits(s: string): nat
    requires AllDigits(s)
  {
    if s == [] then 0 else SumOfDigits(s[..|s| - 1]) + DigitOf(s[|s| - 1])
  }

  function SumDigits(n: int): int {
    WithSign(n, SumOfDigits(NatStr(Abs(n))))
  }

  /** `add_digits(number, digits)`: the decimal texts side by side, parsed;
      `digits` is `None` when an empty memory register is retrieved. */
  function AddDigits(number: int, digits: Option<int>): Result<int, Error> {
    match Parse(Str(number) + OptionStr(digits))
    case None => Err(ParseFailure)
    case Some(v) => Ok(v)
  }

  // ---------------------------------------------------------------------
  // inv10_each_digit

  /** The helper on `abs(n)`. For a number of several digits it joins the
      texts of the recursive results on each digit; the sign decorator around
      those recursive calls is the identity, since a digit is not negative. */
  function Inv10Abs(m: nat): nat
    decreases m, 0
  {
    if m == 0 then 0
    else if m < 10 then 10 - m
    else ParseDigits(Inv10Join(NatStr(m)))
  }

  function Inv10Join(s: string): (t: string)
    requires AllDigits(s)
    ensures AllDigits(t) && |t| == |s|
    decreases 9, |s|
  {
    if s == [] then [] else Join(NatStr(Inv10Abs(DigitOf(s[0]))), Inv10Join(s[1..]))
  }

  function Inv10EachDigit(n: int): int {
    WithSign(n, Inv10Abs(Abs(n)))
  }

  // ---------------------------------------------------------------------
  // warp

  /** Where `digits[:-enter]` ends; Python's `-0` slices make an entry index
      of 0 warp nothing. */
  function WarpSplit(digits: string, enter: nat): (k: nat)
    ensures k <= |digits|
  {
    if enter == 0 || enter >= |digits| then 0 else |digits| - enter
  }

  /** One pass of `warp`: the digits left of the entry index are each added,
      times 10^exit, onto the number the remaining digits form. */
  function WarpPass(number: int, enter: nat, exit: nat): Result<int, Error> {
    var digits := Str(number);
    var k := WarpSplit(digits, enter);
    AddWarped(Parse(digits[k..]), digits[..k], Pow10(exit))
  }

  /** `out = int(non_warped_digits)`, then `out + factor * int(d)` for each
      warped character `d`; either `int` may fail. */
  function AddWarped(low: Option<int>, warped: string, factor: nat): Result<int, Error> {
    match low
    case None => Err(ParseFailure)
    case Some(out) => if AllDigits(warped) then Ok(out + factor * SumOfDigits(warped)) else Err(ParseFailure)
  }

  /** `warp`: passes are repeated until one leaves the value unchanged. */
  function Warp(number: int, enter: nat, exit: nat): Result<int, Error>
    requires exit <= enter
    decreases Abs(number)
  {
    match WarpPass(number, enter, exit)
    case Err(e) => Err(e)
    case Ok(out) =>
      if out == number then Ok(out)
      else
        WarpPassDecreases(number, enter, exit);
        Warp(out, enter, exit)
  }

  /** The source's warp itself: one pass, then the recursive call while the
      value still changes. */
  method ComputeWarp(number: int, enterIdx: nat, exitIdx: nat) returns (r: Result<int, Error>)
    requires exitIdx <= enterIdx
    ensures r == Warp(number, enterIdx, exitIdx)
    decreases Abs(number)
  {
    var digits := Str(number);
    var k := WarpSplit(digits, enterIdx);
    var pass := AddWarpedDigits(Parse(digits[k..]), digits[..k], Pow10(exitIdx));
    assert pass == WarpPass(number, enterIdx, exitIdx);
    if pass.Err? {
      return Err(pass.error);
    }
    var out := pass.value;
    if out != number {
      WarpPassDecreases(number, enterIdx, exitIdx);
      r := ComputeWarp(out, enterIdx, exitIdx);
    } else {
      r := Ok(out);
    }
  }

  /** The loop of one pass: `int(non_warped_digits)`, then each warped digit
      in turn, times the factor, added on. */
  method AddWarpedDigits(low: Option<int>, warpedDigits: string, factor: nat) returns (r: Result<int, Error>)
    ensures r == AddWarped(low, warpedDigits, factor)
  {
    if low.None? {
      return Err(ParseFailure);
    }
    var out := low.value;
    var i := 0;
    while i < |warpedDigits|
      invariant 0 <= i <= |warpedDigits|
      invariant AllDigits(warpedDigits[..i])
      invariant out == low.value + factor * SumOfDigits(warpedDigits[..i])
    {
      if !IsDigit(warpedDigits[i]) {
        return Err(ParseFailure);
      }
      assert warpedDigits[..i + 1][..i] == warpedDigits[..i];
      out := out + factor * DigitOf(warpedDigits[i]);
      i := i + 1;
    }
    assert warpedDigits[..i] == warpedDigits;
    r := Ok(out);
  }

  // ---------------------------------------------------------------------
  // Warp: termination and fixed point

  lemma {:induction false} SumOfDigitsBound(s: string)
    requires AllDigits(s)
    ensures SumOfDigits(s) <= DigitVal(s)
    ensures |s| >= 2 && s[0] != '0' ==> SumOfDigits(s) < DigitVal(s)
  {
    if s != [] {
      var p := s[..|s| - 1];
      SumOfDigitsBound(p);
      if |s| >= 2 && s[0] != '0' {
        assert p[0] == s[0];
        DigitValLeading(p);
      }
    }
  }

  lemma MulMonotone(a: nat, b: nat, c: nat, d: nat)
    requires a <= b && c <= d
    ensures a * c <= b * d
  {
    assert a * c <= b * c;
    assert b * c <= b * d;
  }

  /** A negative number is either left unchanged by a pass (it is no longer
      than the entry index) or makes the pass fail on its '-'. */
  lemma WarpPassNegative(number: int, enter: nat, exit: nat)
    requires number < 0
    ensures WarpSplit(Str(number), enter) == 0 ==> WarpPass(number, enter, exit) == Ok(number)
    ensures WarpSplit(Str(number), enter) > 0 ==> WarpPass(number, enter, exit) == Err(ParseFailure)
  {
    var digits := Str(number);
    var k := WarpSplit(digits, enter);
    ParseStr(number);
    if k == 0 {
      assert digits[k..] == digits;
      assert digits[..k] == [];
    } else {
      assert digits[..k][0] == '-';
      NatStrValue(-number);
      assert digits[k..] == NatStr(-number)[k - 1..];
    }
  }

  /** The arithmetic of one pass over a non-negative number that is longer
      than the entry index: `high` digits, warped, and `low` digits, kept. */
  lemma WarpPassSplit(number: nat, enter: nat, exit: nat, high: string, low: string)
    requires WarpSplit(NatStr(number), enter) > 0
    requires high == NatStr(number)[..WarpSplit(NatStr(number), enter)]
    requires low == NatStr(number)[WarpSplit(NatStr(number), enter)..]
    ensures |low| == enter && AllDigits(high) && AllDigits(low)
    ensures DigitVal(high) >= 1
    ensures number == DigitVal(high) * Pow10(enter) + DigitVal(low)
    ensures WarpPass(number, enter, exit) == Ok(DigitVal(low) + Pow10(exit) * SumOfDigits(high))
  {
    WarpPassOfSplit(number, enter, exit, high, low);
    SplitValue(number, WarpSplit(NatStr(number), enter), high, low);
  }

  /** One pass over the split text, before any arithmetic. */
  lemma WarpPassOfSplit(number: nat, enter: nat, exit: nat, high: string, low: string)
    requires WarpSplit(NatStr(number), enter) > 0
    requires high == NatStr(number)[..WarpSplit(NatStr(number), enter)]
    requires low == NatStr(number)[WarpSplit(NatStr(number), enter)..]
    ensures AllDigits(high) && AllDigits(low) && |low| == enter
    ensures WarpPass(number, enter, exit) == Ok(DigitVal(low) + Pow10(exit) * SumOfDigits(high))
  {
    var digits := NatStr(number);
    var k := WarpSplit(digits, enter);
    assert Str(number) == digits;
    DigitSlices(digits, k);
    assert |low| == enter;
    ParseDigitsIsInt(low);
    assert Parse(low) == Some(DigitVal(low));
    AddWarpedOk(DigitVal(low), high, Pow10(exit));
    assert WarpPass(number, enter, exit) == AddWarped(Parse(low), high, Pow10(exit));
  }

  lemma AddWarpedOk(out: int, warped: string, factor: nat)
    requires AllDigits(warped)
    ensures AddWarped(Some(out), warped, factor) == Ok(out + factor * SumOfDigits(warped))
  {
  }

  lemma DigitSlices(s: string, k: nat)
    requires AllDigits(s) && k <= |s|
    ensures AllDigits(s[..k]) && AllDigits(s[k..])
  {
    assert forall i :: 0 <= i < |s| - k ==> s[k..][i] == s[k + i];
  }

  /** `str(n)` cut in two: the value is the high part shifted past the low
      part, and the high part, which holds the leading digit, is not zero. */
  lemma SplitValue(number: nat, k: nat, high: string, low: string)
    requires 0 < k < |NatStr(number)|
    requires high == NatStr(number)[..k] && low == NatStr(number)[k..]
    ensures AllDigits(high) && AllDigits(low)
    ensures DigitVal(high) >= 1
    ensures number == DigitVal(high) * Pow10(|low|) + DigitVal(low)
  {
    var digits := NatStr(number);
    assert digits == high + low;
    NatStrValue(number);
    DigitValConcat(high, low);
    NatStrCanonical(number);
    assert high[0] == digits[0];
    DigitValLeading(high);
  }

  lemma WarpPassUnchanged(number: nat, enter: nat, exit: nat)
    requires WarpSplit(NatStr(number), enter) == 0
    ensures WarpPass(number, enter, exit) == Ok(number)
  {
    var digits := NatStr(number);
    assert digits[0..] == digits;
    assert digits[..0] == [];
    ParseStr(number);
  }

  /** A pass never increases the value when exit <= enter, which is what makes
      the recursion of warp terminate. */
  lemma WarpPassDecreases(number: int, enter: nat, exit: nat)
    requires exit <= enter
    requires WarpPass(number, enter, exit).Ok?
    requires WarpPass(number, enter, exit).value != number
    ensures number >= 0
    ensures 0 <= WarpPass(number, enter, exit).value < number
  {
    if number < 0 {
      WarpPassNegative(number, enter, exit);
    } else if WarpSplit(NatStr(number), enter) == 0 {
      WarpPassUnchanged(number, enter, exit);
    } else {
      WarpPassLong(number, enter, exit);
    }
  }

  /** A pass over a number longer than the entry index yields a smaller or
      equal non-negative value, and a strictly smaller one when exit < enter. */
  lemma WarpPassLong(number: nat, enter: nat, exit: nat)
    requires exit <= enter
    requires WarpSplit(NatStr(number), enter) > 0
    ensures WarpPass(number, enter, exit).Ok?
    ensures 0 <= WarpPass(number, enter, exit).value <= number
    ensures exit < enter ==> WarpPass(number, enter, exit).value < number
  {
    var digits := NatStr(number);
    var k := WarpSplit(digits, enter);
    var high, low := digits[..k], digits[k..];
    WarpPassSplit(number, enter, exit, high, low);
    SumOfDigitsBound(high);
    Pow10Monotone(exit, enter);
    if exit < enter {
      Pow10Monotone(exit + 1, enter);
    }
    PassArith(DigitVal(high), SumOfDigits(high), Pow10(enter), Pow10(exit), DigitVal(low), number);
  }

  /** The arithmetic of a pass: `n` is `h` shifted by `p` plus `l`, and the
      pass adds the digit sum `s <= h` shifted by `q <= p` instead. */
  lemma PassArith(h: nat, s: nat, p: nat, q: nat, l: nat, n: nat)
    requires n == h * p + l && 1 <= h && s <= h && q <= p
    ensures 0 <= l + q * s <= n
    ensures q < p ==> l + q * s < n
  {
    PassBound(h, s, p, q, l);
    if q < p {
      PassStrict(h, s, p, q, l);
    }
  }

  /** The arithmetic behind a pass that does not grow the value. */
  lemma PassBound(h: nat, s: nat, p: nat, q: nat, l: nat)
    requires s <= h && q <= p
    ensures l + q * s <= h * p + l
  {
    MulMonotone(q, p, s, h);
  }

  /** The result of warp is a fixed point of one pass. */
  lemma {:induction false} WarpFixedPoint(number: int, enter: nat, exit: nat)
    requires exit <= enter
    requires Warp(number, enter, exit).Ok?
    ensures WarpPass(Warp(number, enter, exit).value, enter, exit) == Ok(Warp(number, enter, exit).value)
    decreases Abs(number)
  {
    var out := WarpPass(number, enter, exit).value;
    if out != number {
      WarpPassDecreases(number, enter, exit);
      WarpFixedPoint(out, enter, exit);
    }
  }

  /** Warp can only fail by a parse of a '-' among the warped digits. */
  lemma {:induction false} WarpError(number: int, enter: nat, exit: nat)
    requires exit <= enter
    requires Warp(number, enter, exit).Err?
    ensures Warp(number, enter, exit).error == ParseFailure
    decreases Abs(number)
  {
    var pass := WarpPass(number, enter, exit);
    if pass.Ok? && pass.value != number {
      WarpPassDecreases(number, enter, exit);
      WarpError(pass.value, enter, exit);
    }
  }

  /** Warp is idempotent. */
  lemma WarpIdempotent(number: int, enter: nat, exit: nat)
    requires exit <= enter
    requires Warp(number, enter, exit).Ok?
    ensures Warp(Warp(number, enter, exit).value, enter, exit) == Warp(number, enter, exit)
  {
    WarpFixedPoint(number, enter, exit);
  }

  /** When the exit portal lies right of the entry portal, warp brings every
      number down to at most `enter` characters. */
  lemma WarpBelowPortal(number: int, enter: nat, exit: nat)
    requires exit < enter
    requires Warp(number, enter, exit).Ok?
    ensures |Str(Warp(number, enter, exit).value)| <= enter
  {
    var r := Warp(number, enter, exit).value;
    WarpFixedPoint(number, enter, exit);
    if WarpSplit(Str(r), enter) > 0 {
      if r < 0 {
        WarpPassNegative(r, enter, exit);
      } else {
        assert Str(r) == NatStr(r);
        WarpPassLong(r, enter, exit);
      }
    }
  }

  /** The arithmetic behind a pass that strictly shrinks the value. */
  lemma PassStrict(h: nat, s: nat, p: nat, q: nat, l: nat)
    requires 1 <= h && s <= h && q < p
    ensures l + q * s < h * p + l
  {
    MulMonotone(q, q, s, h);
    StrictScale(q, p, h);
  }

  lemma StrictScale(a: nat, b: nat, c: nat)
    requires a < b && c >= 1
    ensures a * c < b * c
  {
  }

  // ---------------------------------------------------------------------
  // The sign decorator

  /** Every decorated helper is odd: it only sees `abs(n)` and puts the sign
      back, so negating the input negates the result. */
  lemma SignSymmetry(n: int)
    requires n > 0
    ensures Reverse(-n) == -Reverse(n)
    ensures Mirror(-n).Ok? == Mirror(n).Ok?
    ensures Mirror(n).Ok? ==> Mirror(-n).value == -Mirror(n).value
    ensures ShiftLeft(-n).Ok? == ShiftLeft(n).Ok?
    ensures ShiftLeft(n).Ok? ==> ShiftLeft(-n).value == -ShiftLeft(n).value
    ensures CircularShiftRight(-n) == -CircularShiftRight(n)
    ensures CircularShiftLeft(-n) == -CircularShiftLeft(n)
    ensures SumDigits(-n) == -SumDigits(n)
    ensures Inv10EachDigit(-n) == -Inv10EachDigit(n)
  {
    forall r: nat ensures WithSign(-n, r) == -WithSign(n, r) {
    }
  }

  // ---------------------------------------------------------------------
  // Facts about reverse and mirror

  lemma NatStrLast(m: nat)
    ensures NatStr(m)[|NatStr(m)| - 1] == CharOf(m % 10)
  {
  }

  lemma CharOfDigit(c: char)
    requires IsDigit(c)
    ensures CharOf(DigitOf(c)) == c
  {
  }

  /** A non-zero value has a non-zero leading digit. */
  lemma LeadingNonZero(s: string)
    requires AllDigits(s) && |s| >= 1 && s[0] != '0'
    ensures DigitVal(s) >= 1
  {
    DigitValLeading(s);
  }

  /** Without a trailing zero, the reversed text is what `str` prints for the
      reversed number. */
  lemma ReverseAbsText(m: nat)
    requires m % 10 != 0
    ensures NatStr(ReverseAbs(m)) == Reversed(NatStr(m))
    ensures ReverseAbs(m) >= 1
  {
    var s := NatStr(m);
    NatStrLast(m);
    ReversedAt(s, 0);
    ReversedAllDigits(s);
    CanonicalRoundTrip(Reversed(s));
    LeadingNonZero(Reversed(s));
  }

  /** Reversing twice gives the number back exactly when its last digit is
      not 0, or it is 0 itself: a trailing 0 becomes a leading zero that the
      first reversal drops. */
  lemma ReverseInvolution(n: int)
    ensures Reverse(Reverse(n)) == n <==> n == 0 || Abs(n) % 10 != 0
  {
    var m := Abs(n);
    var r := ReverseAbs(m);
    if m == 0 {
      assert NatStr(0) == ['0'];
      assert Reversed(NatStr(0)) == ['0'];
    } else if m % 10 != 0 {
      ReverseAbsText(m);
      ReversedInvolution(NatStr(m));
      NatStrValue(m);
      assert ReverseAbs(r) == m;
    } else {
      assert Abs(Reverse(Reverse(n))) == ReverseAbs(r);
      if r == 0 {
        assert NatStr(0) == ['0'];
        assert Reversed(NatStr(0)) == ['0'];
      } else {
        ReverseLastDigit(r);
      }
    }
  }

  /** The reversal of a positive number never ends in 0: its last digit is
      the number's leading digit. */
  lemma ReverseLastDigit(r: nat)
    requires r >= 1
    ensures ReverseAbs(r) % 10 != 0
  {
    var s := NatStr(r);
    NatStrCanonical(r);
    ReversedAt(s, |s| - 1);
    var t := ReverseAsStr(r);
    assert DigitVal(t) % 10 == DigitOf(t[|t| - 1]);
  }

  lemma ReversedConcat<T>(a: seq<T>, b: seq<T>)
    ensures Reversed(a + b) == Reversed(b) + Reversed(a)
  {
    var r := Reversed(a + b);
    forall k | 0 <= k < |a| + |b|
      ensures r[k] == (Reversed(b) + Reversed(a))[k]
    {
      ReversedAt(a + b, k);
      if k < |b| {
        ReversedAt(b, k);
      } else {
        ReversedAt(a, k - |b|);
      }
    }
  }

  /** mirror leaves only 0 unchanged. */
  lemma MirrorChanges(n: int)
    requires Mirror(n).Ok?
    ensures Mirror(n).value == n <==> n == 0
  {
    if n == 0 {
      assert NatStr(0) == "0";
      assert Join(NatStr(0), ReverseAsStr(0)) == "00";
    } else {
      MirrorText(Abs(n));
    }
  }

  /** mirror fails exactly above 999. */
  lemma MirrorFails(n: int)
    ensures Mirror(n).Err? <==> Abs(n) > 999
    ensures Mirror(n).Err? ==> Mirror(n).error == TooLarge
  {
  }

  /** Otherwise `str(mirror(n))` is the digits of |n| followed by their
      reversal, so it reads the same backwards, and it is longer than |n|. */
  lemma MirrorText(m: nat)
    requires 1 <= m <= 999
    ensures MirrorAbs(m).Ok?
    ensures NatStr(MirrorAbs(m).value) == NatStr(m) + Reversed(NatStr(m))
    ensures Reversed(NatStr(MirrorAbs(m).value)) == NatStr(MirrorAbs(m).value)
    ensures MirrorAbs(m).value > m
  {
    var s := NatStr(m);
    var t := Join(s, ReverseAsStr(m));
    NatStrCanonical(m);
    assert t[0] == s[0];
    CanonicalRoundTrip(t);
    ReversedConcat(s, Reversed(s));
    ReversedInvolution(s);
    NatStrLength(m);
    NatStrLength(DigitVal(t));
    Pow10Monotone(|s|, 2 * |s| - 1);
  }

  // ---------------------------------------------------------------------
  // Facts about divideby

  /** `//` and `%` are Python's: the quotient is rounded down, so the
      remainder takes the sign of the denominator. */
  lemma FloorDivRounding(a: int, b: int)
    requires b != 0
    ensures FloorDiv(a, b) * b + FloorMod(a, b) == a
    ensures b > 0 ==> 0 <= FloorMod(a, b) < b
    ensures b < 0 ==> b < FloorMod(a, b) <= 0
  {
  }

  lemma ExactQuotient(a: int, b: int, q: int)
    requires b != 0 && q * b == a
    ensures FloorDiv(a, b) == q
  {
    FloorDivRounding(a, b);
    var d := FloorDiv(a, b);
    var r := FloorMod(a, b);
    assert (q - d) * b == r;
    if q - d >= 1 {
      if b > 0 { MulMonotone(1, q - d, b, b); } else { MulMonotone(1, q - d, -b, -b); }
    }
  }

  /** divideby succeeds exactly on an exact division, with the exact
      quotient; a zero denominator is not a `ValueError`. */
  lemma DivideByExact(a: int, b: int, q: int)
    ensures DivideBy(a, b) == Ok(q) <==> b != 0 && q * b == a
    ensures DivideBy(a, b) == Err(ZeroDivision) <==> b == 0
  {
    if b != 0 {
      FloorDivRounding(a, b);
      if q * b == a {
        ExactQuotient(a, b, q);
      }
    }
  }

  // ---------------------------------------------------------------------
  // Facts about the shifts

  /** shift_left drops the last digit, which is integer division by ten, and
      refuses a single digit. */
  lemma ShiftLeftAbsValue(m: nat)
    ensures m < 10 ==> ShiftLeftAbs(m) == Err(IllegalShift)
    ensures m >= 10 ==> ShiftLeftAbs(m) == Ok(m / 10)
  {
    if m >= 10 {
      var s := NatStr(m);
      assert s[..|s| - 1] == NatStr(m / 10);
      NatStrValue(m / 10);
    }
  }

  /** A circular shift to the right, undone by one to the left. */
  lemma CircularShiftInverse(m: nat)
    requires m % 10 != 0
    ensures CircularShiftLeftAbs(CircularShiftRightAbs(m)) == m
    ensures CircularShiftRightAbs(m) >= 1
  {
    var s := NatStr(m);
    var t := Join([s[|s| - 1]], s[..|s| - 1]);
    NatStrLast(m);
    assert t[0] == s[|s| - 1];
    CanonicalRoundTrip(t);
    assert t[1..] + [t[0]] == s;
    NatStrValue(m);
    LeadingNonZero(t);
  }

  /** The same on signed numbers: the sign decorator puts back the sign. */
  lemma CircularShiftsCancel(n: int)
    requires Abs(n) % 10 != 0
    ensures CircularShiftLeft(CircularShiftRight(n)) == n
  {
    CircularShiftInverse(Abs(n));
  }

  /** A circular shift to the left, undone by one to the right. */
  lemma CircularShiftInverseLeft(m: nat)
    requires |NatStr(m)| >= 2 ==> NatStr(m)[1] != '0'
    ensures CircularShiftRightAbs(CircularShiftLeftAbs(m)) == m
  {
    var s := NatStr(m);
    var t := s[1..] + [s[0]];
    NatStrCanonical(m);
    RotateLeftText(s);
    assert Join(s[1..], [s[0]]) == t;
    CanonicalRoundTrip(t);
    assert NatStr(CircularShiftLeftAbs(m)) == t;
    assert Join([t[|t| - 1]], t[..|t| - 1]) == s;
    NatStrValue(m);
  }

  /** Moving the first digit to the end keeps the text canonical when the
      second digit is not 0, and moving it back restores the text. */
  lemma RotateLeftText(s: string)
    requires Canonical(s) && (|s| >= 2 ==> s[1] != '0')
    ensures Canonical(s[1..] + [s[0]])
    ensures [s[0]] + s[1..] == s
  {
    var t := s[1..] + [s[0]];
    if |s| >= 2 {
      assert t[0] == s[1];
    }
  }

  // ---------------------------------------------------------------------
  // Facts about sum_digits

  /** Casting out nines: the digit sum keeps the remainder modulo 9. */
  lemma {:induction false} SumOfDigitsMod9(s: string)
    requires AllDigits(s)
    ensures SumOfDigits(s) % 9 == DigitVal(s) % 9
  {
    if s != [] {
      var p := s[..|s| - 1];
      SumOfDigitsMod9(p);
      CastOutStep(SumOfDigits(p), DigitVal(p), DigitOf(s[|s| - 1]));
    }
  }

  lemma CastOutStep(a: nat, b: nat, d: nat)
    requires a % 9 == b % 9
    ensures (a + d) % 9 == (b * 10 + d) % 9
  {
    var r := b % 9;
    var qa := a / 9;
    var qb := b / 9;
    assert a == 9 * qa + r;
    assert b * 10 + d == 9 * (10 * qb + r) + (r + d);
    assert a + d == 9 * qa + (r + d);
  }

  /** sum_digits leaves a number unchanged exactly when it has one digit. */
  lemma SumDigitsFixed(n: int)
    ensures SumDigits(n) == n <==> Abs(n) < 10
    ensures SumDigits(n) % 9 == n % 9
  {
    SumOfDigitsAbs(Abs(n));
    SignedMod9(n, SumOfDigits(NatStr(Abs(n))));
  }

  lemma SumOfDigitsAbs(m: nat)
    ensures SumOfDigits(NatStr(m)) == m <==> m < 10
    ensures SumOfDigits(NatStr(m)) % 9 == m % 9
  {
    var s := NatStr(m);
    NatStrValue(m);
    SumOfDigitsMod9(s);
    if m < 10 {
      assert s[..0] == [];
    } else {
      NatStrCanonical(m);
      SumOfDigitsBound(s);
    }
  }

  /** Putting the sign of `n` back on a value congruent to |n| modulo 9 gives a
      value congruent to `n`. */
  lemma SignedMod9(n: int, r: nat)
    requires r % 9 == Abs(n) % 9
    ensures WithSign(n, r) % 9 == n % 9
    ensures WithSign(n, r) == n <==> r == Abs(n)
  {
    if n < 0 {
      var m := Abs(n);
      var k := r % 9;
      assert WithSign(n, r) == -(r as int) && n == -(m as int);
      NegatedMod9(r, m, k);
    }
  }

  /** Two naturals with the same remainder keep it equal once negated. */
  lemma NegatedMod9(r: nat, m: nat, k: nat)
    requires k == r % 9 && k == m % 9
    ensures (-(r as int)) % 9 == (-(m as int)) % 9
  {
    var qr, qm := r / 9, m / 9;
    assert r == 9 * qr + k && m == 9 * qm + k;
    var x, y := -(r as int), -(m as int);
    assert x == 9 * (qm - qr) + y;
    ModShift9(y, qm - qr);
  }

  lemma ModShift9(y: int, q: int)
    ensures (9 * q + y) % 9 == y % 9
  {
    var t := y % 9;
    assert y == 9 * (y / 9) + t;
    assert 9 * q + y == 9 * (q + y / 9) + t;
  }

  // ---------------------------------------------------------------------
  // Facts about inv10_each_digit

  /** The digit-wise reference: 0 stays 0, any other digit d becomes 10 - d. */
  function InvChar(c: char): (r: char)
    requires IsDigit(c)
    ensures IsDigit(r) && (r == '0' <==> c == '0')
  {
    if c == '0' then '0' else CharOf(10 - DigitOf(c))
  }

  function InvText(s: string): (t: string)
    requires AllDigits(s)
    ensures AllDigits(t) && |t| == |s|
  {
    if s == [] then [] else [InvChar(s[0])] + InvText(s[1..])
  }

  lemma {:induction false} InvTextAt(s: string, i: nat)
    requires AllDigits(s) && i < |s|
    ensures InvText(s)[i] == InvChar(s[i])
  {
    if i > 0 {
      InvTextAt(s[1..], i - 1);
    }
  }

  lemma InvTextInvolution(s: string)
    requires AllDigits(s)
    ensures InvText(InvText(s)) == s
  {
    forall i | 0 <= i < |s| ensures InvText(InvText(s))[i] == s[i] {
      InvTextAt(s, i);
      InvTextAt(InvText(s), i);
      CharOfDigit(s[i]);
    }
  }

  lemma {:induction false} Inv10JoinText(s: string)
    requires AllDigits(s)
    ensures Inv10Join(s) == InvText(s)
  {
    if s != [] {
      Inv10JoinText(s[1..]);
    }
  }

  /** `str(inv10_each_digit(m))` is the digit-wise image of `str(m)`. */
  lemma Inv10Text(m: nat)
    ensures NatStr(Inv10Abs(m)) == InvText(NatStr(m))
  {
    var s := NatStr(m);
    if m >= 10 {
      Inv10JoinText(s);
      NatStrCanonical(m);
      CanonicalRoundTrip(InvText(s));
    }
  }

  /** Inverting every digit twice gives the number back. */
  lemma Inv10Involution(n: int)
    ensures Inv10EachDigit(Inv10EachDigit(n)) == n
  {
    var m := Abs(n);
    var a := Inv10Abs(m);
    Inv10Text(m);
    Inv10Text(a);
    InvTextInvolution(NatStr(m));
    NatStrValue(m);
    NatStrValue(Inv10Abs(a));
    if a == 0 {
      assert NatStr(m) == InvText(InvText(NatStr(m))) == InvText(NatStr(0)) == "0";
      NatStrValue(0);
    }
  }

  // ---------------------------------------------------------------------
  // Facts about add_digits

  /** Appending the digits of `d` shifts the number left by their count; a
      negative `d` puts a '-' inside the text and the parse fails. */
  lemma AddDigitsValue(n: int, d: int)
    ensures d < 0 ==> AddDigits(n, Some(d)) == Err(ParseFailure)
    ensures d >= 0 && n >= 0 ==> AddDigits(n, Some(d)) == Ok(n * Pow10(|Str(d)|) + d)
    ensures d >= 0 && n < 0 ==> AddDigits(n, Some(d)) == Ok(n * Pow10(|Str(d)|) - d)
  {
    if d < 0 {
      AddDigitsSigned(n, d);
    } else if n >= 0 {
      AddDigitsNat(n, d);
    } else {
      AddDigitsNegative(n, d);
    }
  }

  lemma AddDigitsSigned(n: int, d: int)
    requires d < 0
    ensures AddDigits(n, Some(d)) == Err(ParseFailure)
  {
    var t := Str(n) + Str(d);
    assert t[|Str(n)|] == '-';
    if t[0] == '-' {
      assert t[1..][|Str(n)| - 1] == '-';
    }
  }

  lemma AddDigitsNat(n: nat, d: nat)
    ensures AddDigits(n, Some(d)) == Ok(n * Pow10(|Str(d)|) + d)
  {
    var t := NatStr(n) + NatStr(d);
    DigitValConcat(NatStr(n), NatStr(d));
    NatStrValue(n);
    NatStrValue(d);
    assert Parse(t) == Some(DigitVal(t));
  }

  lemma AddDigitsNegative(n: int, d: nat)
    requires n < 0
    ensures AddDigits(n, Some(d)) == Ok(n * Pow10(|Str(d)|) - d)
  {
    var a: nat := -n;
    var p := Pow10(|NatStr(d)|);
    var v := -(a * p + d);
    NegativeJoinParse(a, d);
    NegativeJoinText(n, a, d);
    AddDigitsOfText(n, d, v);
    NegatedShift(n, a, p, d);
    assert Pow10(|Str(d)|) == p;
  }

  lemma NegativeJoinParse(a: nat, d: nat)
    ensures Parse("-" + (NatStr(a) + NatStr(d))) == Some(-(a * Pow10(|NatStr(d)|) + d))
  {
    JoinedValue(a, d);
    NegatedText(a, NatStr(a) + NatStr(d));
  }

  lemma NegativeJoinText(n: int, a: nat, d: nat)
    requires n < 0 && a == -n
    ensures Str(n) + Str(d) == "-" + (NatStr(a) + NatStr(d))
  {
  }

  lemma AddDigitsOfText(n: int, d: int, v: int)
    requires Parse(Str(n) + Str(d)) == Some(v)
    ensures AddDigits(n, Some(d)) == Ok(v)
  {
  }

  /** The value of two decimal texts side by side. */
  lemma JoinedValue(a: nat, d: nat)
    ensures AllDigits(NatStr(a) + NatStr(d))
    ensures DigitVal(NatStr(a) + NatStr(d)) == a * Pow10(|NatStr(d)|) + d
  {
    DigitValConcat(NatStr(a), NatStr(d));
    NatStrValue(a);
    NatStrValue(d);
  }

  /** `int` of a minus sign before a non-empty digit string. */
  lemma NegatedText(a: nat, u: string)
    requires AllDigits(u) && |u| >= 1
    ensures Parse("-" + u) == Some(-(DigitVal(u) as int))
  {
    assert ("-" + u)[1..] == u;
  }

  lemma NegatedShift(n: int, a: int, p: int, d: int)
    requires n == -a
    ensures -(a * p + d) == n * p - d
  {
  }

  /** Retrieving an empty memory appends the text "None": the parse fails. */
  lemma AddDigitsNone(n: int)
    ensures AddDigits(n, None) == Err(ParseFailure)
  {
    var t := Str(n) + "None";
    assert t[|Str(n)|] == 'N';
    if t[0] == '-' {
      assert t[1..][|Str(n)| - 1] == 'N';
    }
  }

  // ---------------------------------------------------------------------
  // Facts about replace

  /** A pattern that does not occur leaves the text as it is. */
  lemma {:induction false} ReplaceAbsent(s: string, pattern: string, replacement: string)
    requires pattern != []
    requires forall i: nat :: !OccursAt(pattern, s, i)
    ensures ReplaceAll(s, pattern, replacement) == s
    decreases |s|
  {
    if |s| >= |pattern| {
      assert !OccursAt(pattern, s, 0);
      assert s[0..|pattern|] == s[..|pattern|];
      forall i: nat ensures !OccursAt(pattern, s[1..], i) {
        assert !OccursAt(pattern, s, i + 1);
        if i + |pattern| <= |s[1..]| {
          assert s[1..][i..i + |pattern|] == s[i + 1..i + 1 + |pattern|];
        }
      }
      ReplaceAbsent(s[1..], pattern, replacement);
      assert [s[0]] + s[1..] == s;
    }
  }

  lemma {:induction false} InterleaveEmpty(s: string)
    ensures Interleave(s, []) == s
  {
    if s != [] {
      InterleaveEmpty(s[1..]);
      assert [s[0]] + s[1..] == s;
    }
  }

  /** Replacing a pattern by itself leaves the text as it is. */
  lemma {:induction false} ReplaceSame(s: string, pattern: string)
    ensures ReplaceAll(s, pattern, pattern) == s
    decreases |s|
  {
    if pattern == [] {
      InterleaveEmpty(s);
    } else if |s| >= |pattern| {
      if s[..|pattern|] == pattern {
        ReplaceSame(s[|pattern|..], pattern);
        assert s[..|pattern|] + s[|pattern|..] == s;
      } else {
        ReplaceSame(s[1..], pattern);
        assert [s[0]] + s[1..] == s;
      }
    }
  }

  /** In both cases `replace` gives back its input, which the operation then
      rejects as useless. */
  lemma ReplaceUnchanged(value: int, oldText: string, newText: string)
    requires oldText == newText || (oldText != [] && forall i: nat :: !OccursAt(oldText, Str(value), i))
    ensures Replace(value, oldText, newText) == Ok(value)
  {
    if oldText == newText {
      ReplaceSame(Str(value), oldText);
    } else {
      ReplaceAbsent(Str(value), oldText, newText);
    }
    ParseStr(value);
  }
}
