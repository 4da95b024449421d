/** The buttons of the calculator game: one constructor per `Operation`
    subclass of `operations.py`, their names, `apply` with its rejection of a
    result equal to the input, and the meta-button that raises the parameter
    of the other buttons. */
module Operations {
  import opened Wrappers
  import opened Digits
  import opened Errors
  import DigitOps

  /** The pair of portals of a level: digits left of `enterIdx` are carried to
      `exitIdx`. Only portals with `exitIdx <= enterIdx` are modelled, which is
      what makes the repeated passes of warp terminate. */
  datatype WarpAction = WarpAction(enterIdx: nat, exitIdx: nat)

  type ValidWarp = w: WarpAction | w.exitIdx <= w.enterIdx witness WarpAction(0, 0)

  /** `WarpAction.apply`: warp, without the useless-operation check. */
  function ApplyWarp(w: ValidWarp, number: int): Result<int, Error> {
    DigitOps.Warp(number, w.enterIdx, w.exitIdx)
  }

  /** One button. The four kinds with an integer parameter are the classes
      given `increment_value_by`; `Replace` keeps the texts `str(old)` and
      `str(new)`. */
  datatype Op =
    | MultiplyX(value: int)
    | DivideX(value: int)
    | SumX(value: int)
    | Reverse
    | Mirror
    | Replace(oldText: string, newText: string)
    | CircularShiftRight
    | CircularShiftLeft
    | ShiftLeft
    | SumDigits
    | InvertSign
    | ModifyButtonsAddValue(delta: int)
    | StorageAction
    | RetrieveAction
    | AddDigits(value: int)
    | Inv10EachDigit
    | WarpButton(portals: ValidWarp)

  /** The classes decorated with `class_with_value_decorator`. */
  predicate HasIncrement(op: Op) {
    op.MultiplyX? || op.DivideX? || op.SumX? || op.AddDigits?
  }

  // ---------------------------------------------------------------------
  // Names

  /** The name template of a parameterised button, up to its `{}`. */
  function Template(op: Op): string
    requires HasIncrement(op)
  {
    match op
    case MultiplyX(_) => "multiply by "
    case DivideX(_) => "divide by "
    case SumX(_) => "sum with "
    case AddDigits(_) => "Add digit "
  }

  /** The `name` property, computed from the current parameter where there
      is one. */
  function Name(op: Op): string {
    match op
    case MultiplyX(v) => Template(op) + Str(v)
    case DivideX(v) => Template(op) + Str(v)
    case SumX(v) => Template(op) + Str(v)
    case Reverse => "reverse"
    case Mirror => "mirror"
    case Replace(o, n) => "Replace " + o + " with " + n
    case CircularShiftRight => "shift right"
    case CircularShiftLeft => "shift left"
    case ShiftLeft => "<<"
    case SumDigits => "Sum"
    case InvertSign => "+-"
    case ModifyButtonsAddValue(d) => "[+]" + Str(d)
    case StorageAction => "Store"
    case RetrieveAction => "Retrieve"
    case AddDigits(v) => Template(op) + Str(v)
    case Inv10EachDigit => "Inv10"
    case WarpButton(_) => "Warp"
  }

  /** Two parameterised buttons with the same name are the same button: the
      templates start with different letters and `str` is injective. */
  lemma NameInjective(a: Op, b: Op)
    requires HasIncrement(a) && HasIncrement(b)
    requires Name(a) == Name(b)
    ensures a == b
  {
    var ta, tb := Template(a), Template(b);
    assert Name(a) == ta + Str(a.value) && Name(b) == tb + Str(b.value);
    assert ta[0] == Name(a)[0] && tb[0] == Name(b)[0];
    assert ta == tb;
    assert Str(a.value) == Name(a)[|ta|..];
    assert Str(b.value) == Name(b)[|tb|..];
    StrInjective(a.value, b.value);
  }

  // ---------------------------------------------------------------------
  // apply

  /** `_apply_imp` of the buttons that go through `Operation.apply`. Store and
      Retrieve do not define it: it raises `NotImplementedError`. */
  function ApplyImp(op: Op, number: int): Result<int, Error>
    requires !op.ModifyButtonsAddValue? && !op.WarpButton?
  {
    match op
    case MultiplyX(v) => Ok(v * number)
    case DivideX(v) => DigitOps.DivideBy(number, v)
    case SumX(v) => Ok(v + number)
    case Reverse => Ok(DigitOps.Reverse(number))
    case Mirror => DigitOps.Mirror(number)
    case Replace(o, n) => DigitOps.Replace(number, o, n)
    case CircularShiftRight => Ok(DigitOps.CircularShiftRight(number))
    case CircularShiftLeft => Ok(DigitOps.CircularShiftLeft(number))
    case ShiftLeft => DigitOps.ShiftLeft(number)
    case SumDigits => Ok(DigitOps.SumDigits(number))
    case InvertSign => Ok(-number)
    case StorageAction => Err(NotImplemented)
    case RetrieveAction => Err(NotImplemented)
    case AddDigits(v) => DigitOps.AddDigits(number, Some(v))
    case Inv10EachDigit => Ok(DigitOps.Inv10EachDigit(number))
  }

  /** `op.apply(number)`. The meta-button's own `apply` returns its input (its
      effect on the other buttons is `ApplyModifyButtons`); the warp button's
      returns the warped value. Every other button fails on a result equal to
      its input. */
  function Apply(op: Op, number: int): (r: Result<int, Error>)
    ensures op.ModifyButtonsAddValue? ==> r == Ok(number)
    ensures !op.ModifyButtonsAddValue? && !op.WarpButton? && r.Ok? ==> r.value != number
    ensures op.StorageAction? || op.RetrieveAction? ==> r == Err(NotImplemented)
    ensures !op.ModifyButtonsAddValue? && !op.WarpButton? && ApplyImp(op, number) == Ok(number) ==>
      r == Err(UselessOperation)
    ensures !op.ModifyButtonsAddValue? && !op.WarpButton? && ApplyImp(op, number) != Ok(number) ==>
      r == ApplyImp(op, number)
  {
    if op.ModifyButtonsAddValue? then Ok(number)
    else if op.WarpButton? then ApplyWarp(op.portals, number)
    else Checked(ApplyImp(op, number), number)
  }

  /** The check of `Operation.apply` on the result of `_apply_imp`. */
  function Checked(result: Result<int, Error>, number: int): (r: Result<int, Error>)
    ensures result.Err? ==> r == result
    ensures result.Ok? && result.value == number ==> r == Err(UselessOperation)
    ensures result.Ok? && result.value != number ==> r == result
  {
    match result
    case Err(e) => Err(e)
    case Ok(v) => if v == number then Err(UselessOperation) else Ok(v)
  }

  lemma ApplySumX(v: int, n: int)
    ensures Apply(SumX(v), n).Ok? <==> v != 0
    ensures Apply(SumX(v), n).Ok? ==> Apply(SumX(v), n).value == n + v
    ensures v == 0 ==> Apply(SumX(v), n) == Err(UselessOperation)
  {
  }

  lemma ApplyMultiplyX(v: int, n: int)
    ensures Apply(MultiplyX(v), n).Ok? <==> n != 0 && v != 1
    ensures Apply(MultiplyX(v), n).Ok? ==> Apply(MultiplyX(v), n).value == v * n
  {
    if n != 0 && v * n == n {
      assert (v - 1) * n == 0;
    }
  }

  /** The divide button succeeds exactly on an exact division that changes
      the value; a zero divisor is fatal rather than a `ValueError`. */
  lemma ApplyDivideX(v: int, n: int, q: int)
    ensures Apply(DivideX(v), n) == Ok(q) <==> v != 0 && q * v == n && q != n
    ensures Apply(DivideX(v), n) == Err(ZeroDivision) <==> v == 0
  {
    DigitOps.DivideByExact(n, v, q);
  }

  lemma ApplyInvertSign(n: int)
    ensures Apply(InvertSign, n).Ok? <==> n != 0
    ensures Apply(InvertSign, n).Ok? ==> Apply(InvertSign, n).value == -n
  {
  }

  /** The mirror button fails above 999 and, as useless, on 0. */
  lemma ApplyMirror(n: int)
    ensures Apply(Mirror, n) == Err(TooLarge) <==> Abs(n) > 999
    ensures Apply(Mirror, n) == Err(UselessOperation) <==> n == 0
  {
    ApplyIsChecked(Mirror, n);
    MirrorChecked(n, DigitOps.Mirror(n));
  }

  /** Every button but the meta-button and warp goes through the check. */
  lemma ApplyIsChecked(op: Op, n: int)
    requires !op.ModifyButtonsAddValue? && !op.WarpButton?
    ensures Apply(op, n) == Checked(ApplyImp(op, n), n)
  {
  }

  /** A press that the second button computes back to its input is accepted
      by both buttons. */
  lemma ApplyRoundTrip(f: Op, g: Op, n: int, x: int)
    requires !f.ModifyButtonsAddValue? && !f.WarpButton?
    requires !g.ModifyButtonsAddValue? && !g.WarpButton?
    requires ApplyImp(f, n) == Ok(x) && ApplyImp(g, x) == Ok(n) && x != n
    ensures Apply(f, n) == Ok(x) && Apply(g, x) == Ok(n)
  {
    ApplyIsChecked(f, n);
    ApplyIsChecked(g, x);
  }

  lemma MirrorChecked(n: int, r: Result<int, Error>)
    requires r == DigitOps.Mirror(n)
    ensures Checked(r, n) == Err(TooLarge) <==> Abs(n) > 999
    ensures Checked(r, n) == Err(UselessOperation) <==> n == 0
  {
    DigitOps.MirrorFails(n);
    if r.Ok? {
      DigitOps.MirrorChanges(n);
    }
  }

  /** The `<<` button drops the last digit, keeping the sign, and fails only
      on a single digit: dropping a digit always changes the value. */
  lemma ApplyShiftLeft(n: int)
    ensures Apply(ShiftLeft, n) == Err(IllegalShift) <==> Abs(n) < 10
    ensures Abs(n) >= 10 ==> Apply(ShiftLeft, n) == Ok(DigitOps.WithSign(n, Abs(n) / 10))
  {
    DigitOps.ShiftLeftAbsValue(Abs(n));
  }

  /** The digit-sum button is useless exactly on a single digit. */
  lemma ApplySumDigits(n: int)
    ensures Apply(SumDigits, n) == Err(UselessOperation) <==> Abs(n) < 10
    ensures Apply(SumDigits, n).Ok? ==> Apply(SumDigits, n).value % 9 == n % 9
  {
    DigitOps.SumDigitsFixed(n);
  }

  /** The add-digit button appends the decimal digits of its parameter; a
      negative parameter makes the text unparsable. */
  lemma ApplyAddDigits(d: int, n: int)
    ensures d < 0 ==> Apply(AddDigits(d), n) == Err(ParseFailure)
    ensures d >= 0 && n >= 0 && n * Pow10(|Str(d)|) + d != n ==>
      Apply(AddDigits(d), n) == Ok(n * Pow10(|Str(d)|) + d)
    ensures d >= 0 && n < 0 ==> Apply(AddDigits(d), n) == Ok(n * Pow10(|Str(d)|) - d)
  {
    DigitOps.AddDigitsValue(n, d);
    if d >= 0 && n < 0 {
      assert |Str(d)| >= 1;
      assert Pow10(|Str(d)|) >= 10;
      AppendedDigitsMove(n, Pow10(|Str(d)|), d);
    }
  }

  lemma AppendedDigitsMove(n: int, p: nat, d: nat)
    requires n < 0 && p >= 10
    ensures n * p - d != n
  {
    assert n * p <= n * 10;
  }

  /** Reverse undoes itself on a number without a trailing zero. */
  lemma ApplyReverseTwice(n: int)
    requires Abs(n) % 10 != 0 && Apply(Reverse, n).Ok?
    ensures Apply(Reverse, Apply(Reverse, n).value) == Ok(n)
  {
    var x := DigitOps.Reverse(n);
    assert x != n by {
      ApplyIsChecked(Reverse, n);
    }
    DigitOps.ReverseInvolution(n);
    ApplyRoundTrip(Reverse, Reverse, n, x);
  }

  /** Two presses of the Inv10 button cancel out. */
  lemma ApplyInv10Twice(n: int)
    requires Apply(Inv10EachDigit, n).Ok?
    ensures Apply(Inv10EachDigit, Apply(Inv10EachDigit, n).value) == Ok(n)
  {
    var x := DigitOps.Inv10EachDigit(n);
    assert x != n by {
      ApplyIsChecked(Inv10EachDigit, n);
    }
    DigitOps.Inv10Involution(n);
    ApplyRoundTrip(Inv10EachDigit, Inv10EachDigit, n, x);
  }

  /** A rotation right is undone by a rotation left when the last digit is not
      0 (a leading 0 would be lost). */
  lemma ApplyCircularShiftsCancel(n: int)
    requires Abs(n) % 10 != 0 && Apply(CircularShiftRight, n).Ok?
    ensures Apply(CircularShiftLeft, Apply(CircularShiftRight, n).value) == Ok(n)
  {
    var x := DigitOps.CircularShiftRight(n);
    assert x != n by {
      ApplyIsChecked(CircularShiftRight, n);
    }
    DigitOps.CircularShiftsCancel(n);
    ApplyRoundTrip(CircularShiftRight, CircularShiftLeft, n, x);
  }

  /** A replacement whose pattern does not occur in the text, or that puts
      the pattern back, is rejected as useless. */
  lemma ApplyReplaceUseless(n: int, oldText: string, newText: string)
    requires oldText == newText || (oldText != [] && forall i: nat :: !DigitOps.OccursAt(oldText, Str(n), i))
    ensures Apply(Replace(oldText, newText), n) == Err(UselessOperation)
  {
    DigitOps.ReplaceUnchanged(n, oldText, newText);
  }

  // ---------------------------------------------------------------------
  // The meta-button

  /** `increment_value_by`: the parameter grows by `extra`, nothing else
      changes. */
  function IncrementValueBy(op: Op, extra: int): (r: Op)
    requires HasIncrement(op)
    ensures HasIncrement(r) && r.value == op.value + extra
    ensures r.(value := op.value) == op
  {
    op.(value := op.value + extra)
  }

  /** What holding a button in the meta-button does to it: it is incremented
      when it has `increment_value_by`, and is left alone otherwise. */
  function IncrementIfHeld(op: Op, delta: int): Op {
    if HasIncrement(op) then IncrementValueBy(op, delta) else op
  }

  /** The list after every held button has been incremented by `delta`. */
  function IncrementAll(ops: seq<Op>, delta: int): (r: seq<Op>)
    ensures |r| == |ops|
    ensures forall i :: 0 <= i < |ops| ==> r[i] == IncrementIfHeld(ops[i], delta)
  {
    if ops == [] then [] else [IncrementIfHeld(ops[0], delta)] + IncrementAll(ops[1..], delta)
  }

  /** The button objects after a meta-button holding the objects at the
      positions `held` of `objs` has raised each of them by `delta`, once per
      time it is held. */
  function IncrementHeld(objs: seq<Op>, held: seq<nat>, delta: int): (r: seq<Op>)
    ensures |r| == |objs|
    ensures forall x :: 0 <= x < |objs| ==> r[x] == IncrementIfHeld(objs[x], delta * multiset(held)[x])
  {
    seq(|objs|, x requires 0 <= x < |objs| => IncrementIfHeld(objs[x], delta * multiset(held)[x]))
  }

  /** `ModifyButtons_AddValue.apply`: the loop over the held buttons, each
      object incremented where it stands in `objs`, and the input returned
      unchanged. The buttons without `increment_value_by`, which the
      constructor filters out, are stepped over here. */
  method ApplyModifyButtons(delta: int, objs: seq<Op>, held: seq<nat>, number: int) returns (result: int, updated: seq<Op>)
    requires forall k :: 0 <= k < |held| ==> held[k] < |objs|
    ensures result == number
    ensures updated == IncrementHeld(objs, held, delta)
  {
    updated := objs;
    var k := 0;
    while k < |held|
      invariant 0 <= k <= |held| && |updated| == |objs|
      invariant forall x :: 0 <= x < |objs| ==> updated[x] == IncrementIfHeld(objs[x], delta * multiset(held[..k])[x])
    {
      var h := held[k];
      HeldStep(objs, held, k, delta);
      if HasIncrement(updated[h]) {
        updated := updated[h := IncrementValueBy(updated[h], delta)];
      }
      k := k + 1;
    }
    assert held[..k] == held;
    result := number;
  }

  /** One more held object, as the loop takes it: the object at `held[k]` is
      raised once more, and no other object changes. */
  lemma HeldStep(objs: seq<Op>, held: seq<nat>, k: nat, delta: int)
    requires k < |held| && held[k] < |objs|
    ensures forall x :: 0 <= x < |objs| && x != held[k] ==>
      multiset(held[..k + 1])[x] == multiset(held[..k])[x]
    ensures IncrementIfHeld(objs[held[k]], delta * multiset(held[..k + 1])[held[k]]) ==
      IncrementIfHeld(IncrementIfHeld(objs[held[k]], delta * multiset(held[..k])[held[k]]), delta)
  {
    var h := held[k];
    assert held[..k + 1] == held[..k] + [h];
    var c := multiset(held[..k])[h];
    assert multiset(held[..k + 1])[h] == c + 1;
    IncrementIfHeldCompose(objs[h], delta * c, delta);
    assert delta * c + delta == delta * (c + 1);
  }

  /** The positions 0 to n - 1, each once. */
  function Positions(n: nat): (r: seq<nat>)
    ensures |r| == n && forall k :: 0 <= k < n ==> r[k] == k
  {
    seq(n, k requires 0 <= k < n => k)
  }

  /** A meta-button built over a whole list, as the solver builds one, raises
      every button of the list once: pressing it gives `IncrementAll`. */
  lemma IncrementAllHeld(ops: seq<Op>, delta: int)
    ensures IncrementHeld(ops, Positions(|ops|), delta) == IncrementAll(ops, delta)
  {
    forall x: nat | x < |ops| ensures IncrementHeld(ops, Positions(|ops|), delta)[x] == IncrementAll(ops, delta)[x] {
      PositionsOnce(|ops|, x);
      OnceTimes(delta, multiset(Positions(|ops|))[x]);
    }
  }

  lemma OnceTimes(delta: int, c: nat)
    requires c == 1
    ensures delta * c == delta
  {
  }

  lemma {:induction false} PositionsOnce(n: nat, x: nat)
    requires x < n
    ensures multiset(Positions(n))[x] == 1
  {
    if n == x + 1 {
      assert Positions(n) == Positions(x) + [x];
      assert x !in Positions(x);
    } else {
      assert Positions(n) == Positions(n - 1) + [n - 1];
      PositionsOnce(n - 1, x);
    }
  }

  /** Two presses of meta-buttons add up. */
  lemma IncrementAllCompose(ops: seq<Op>, a: int, b: int)
    ensures IncrementAll(IncrementAll(ops, a), b) == IncrementAll(ops, a + b)
  {
    var twice, once := IncrementAll(IncrementAll(ops, a), b), IncrementAll(ops, a + b);
    forall i | 0 <= i < |ops| ensures twice[i] == once[i] {
      IncrementIfHeldCompose(ops[i], a, b);
    }
  }

  lemma IncrementIfHeldCompose(op: Op, a: int, b: int)
    ensures IncrementIfHeld(IncrementIfHeld(op, a), b) == IncrementIfHeld(op, a + b)
  {
  }

  /** After the meta-button, a parameterised button is named after its new
      parameter, and every other button keeps its name. */
  lemma IncrementAllNames(ops: seq<Op>, delta: int, i: nat)
    requires i < |ops|
    ensures HasIncrement(ops[i]) ==>
      Name(IncrementAll(ops, delta)[i]) == Template(ops[i]) + Str(ops[i].value + delta)
    ensures !HasIncrement(ops[i]) ==> Name(IncrementAll(ops, delta)[i]) == Name(ops[i])
  {
  }
}
