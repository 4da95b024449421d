# Calculator game solver, modelled in Dafny

The repository solves levels of a "Calculator" puzzle game. A level gives:

- a start value and a target value;
- a number of moves;
- a list of buttons, each an integer transform;
- optionally a pair of "portals", called warp.

The solver builds the whole tree of button presses, finds the first node in pre-order that reaches the target with no move left, and names the buttons on the path to it.

The model has two layers, following the two core files.

- **The button catalogue** (`operations.py`).
  - Python's `str` and `int` on integers, in the modules `Digits` and `DigitOps`:
    - `int` is a partial parse that returns `None` on failure.
    - `int` accepts a sign and leading zeros.
  - The text-level helpers, in `DigitOps`:
    - reverse, mirror, replace, divideby;
    - the shifts, sum_digits, add_digits and inv10_each_digit;
    - the repeated warp fold;
    - the sign decorator that applies a helper to `abs(n)` and puts the sign back.
  - The buttons as one datatype `Op`, in `Operations`, with their names and `apply`:
    - `apply` rejects a result equal to its input;
    - the meta-button `[+]d` adds `d` to the parameter of the other buttons.
- **The search engine** (`solver.py`), in `Solver`:
  - nodes, with memory inheritance;
  - the per-kind child rules: store, retrieve, the meta-button, and warp after every press;
  - the exhaustive expansion, which skips any press that raises a `ValueError`;
  - the pre-order search;
  - the walk up the parent links that names the path;
  - `apply_operations`, over a table of button objects kept by identity, so that a meta-button in the list raises the later buttons it holds.

The expected values of the repository's unit tests are stated as lemmas about the model, in `KnownValues` (operations) and `Levels` (whole levels).

Exceptions become `Result` values over the `Errors.Error` datatype.

- Every `ValueError` kind is one constructor. These are what the expansion skips.
- `ZeroDivision` and `NotImplemented` are not `ValueError`s. They end the expansion, as in the source.

Behaviour of the source worth noting:

- **Division.** `divideby` uses Python's floor `//` and `%`. Only exact divisions succeed, so floor and truncating division give the same results here.
- **Parameterised buttons.** Four button kinds carry a parameter that the meta-button raises: multiply, divide, sum and add-digit.
- **Retrieve.** Retrieving an empty memory has no error of its own. It is the `ValueError` of parsing `str(value) + "None"`.
- **Errors that escape.** Not every failure during the expansion is skipped. A divide-by-zero button, or an `apply` on a Store or Retrieve button outside the solver, raises an error that is not a `ValueError`, and that error escapes.
- **Buttons that keep the value.** Not every child differs from its parent. The meta-button always keeps the value. A store keeps it before warp. Retrieve bypasses the useless-operation check.
- **Shared button objects.** A meta-button raises, in place, the parameters of the very objects it was built over. In `apply_operations` those objects can also be later entries of the list being walked, so a meta-button early in the list changes what the later entries compute.

## Model

| member | source | states |
|---|---|---|
| Digits.ParseStr | operations.py:13 | `int(str(n)) == n` for every integer n |
| Digits.StrInjective | operations.py:21-22 | two integers with the same decimal text are equal, so a name determines its parameter |
| Digits.CanonicalRoundTrip | operations.py:56 | a digit string without a leading zero is `str` of its value |
| Digits.NatStrShort | operations.py:61 | a number has at most k digits exactly when it is below 10^k |
| DigitOps.WithSign | operations.py:7-14 | the decorated result has absolute value r and the sign of n (0 for r = 0) |
| DigitOps.WithSignIsInt | operations.py:13 | `int(sign + str(r))` is exactly that signed value |
| DigitOps.SignSymmetry | operations.py:7-14 | every decorated helper is odd: negating the input negates the result, and failure does not depend on the sign |
| DigitOps.ReverseAsStr | operations.py:29-30 | the reversed text is all digits, as long as `str(m)` |
| DigitOps.ReverseAbsText | operations.py:54-56 | without a trailing zero, `str(reverse(m))` is the reversed text of `str(m)` and reverse(m) ≥ 1 |
| DigitOps.ReverseInvolution | operations.py:54-56 | reverse undoes itself exactly when no trailing zero is dropped: on 0 and on every number whose last digit is not 0, and on no other |
| DigitOps.MirrorFails | operations.py:59-63 | mirror fails exactly when the absolute value exceeds 999, with the "Too large" error |
| DigitOps.MirrorText | operations.py:59-63 | otherwise `str(mirror(m))` is the digits of m followed by their reversal, a palindrome, and larger than m |
| DigitOps.MirrorChanges | operations.py:59-63 | mirror leaves the value unchanged only at 0 |
| DigitOps.ReplaceAbsent | operations.py:66-67 | `str.replace` with a pattern that never occurs gives the text back |
| DigitOps.ReplaceSame | operations.py:66-67 | replacing a pattern by itself gives the text back, the empty pattern included |
| DigitOps.ReplaceUnchanged | operations.py:66-67 | in both cases replace returns its input value |
| DigitOps.FloorDivRounding | operations.py:70-73 | `//` and `%` are Python's: the quotient times the divisor plus the remainder is the dividend, and the remainder has the divisor's sign |
| DigitOps.DivideByExact | operations.py:70-73 | divideby gives q exactly when q times the denominator is the numerator; it raises ZeroDivision exactly on a zero denominator |
| DigitOps.ShiftLeftAbsValue | operations.py:76-81 | shift_left fails on a single digit and otherwise is integer division by 10 |
| DigitOps.CircularShiftInverse | operations.py:84-93 | on a number without a trailing zero, a right rotation is undone by a left one, and the result is non-zero |
| DigitOps.CircularShiftsCancel | operations.py:84-93 | the same for signed numbers |
| DigitOps.CircularShiftInverseLeft | operations.py:84-93 | a left rotation is undone by a right one, unless the second digit is 0 |
| DigitOps.SumOfDigitsMod9 | operations.py:96-98 | a digit sum keeps the value modulo 9 |
| DigitOps.SumDigitsFixed | operations.py:96-98 | sum_digits changes exactly the numbers of two or more digits, and keeps the signed value modulo 9 |
| DigitOps.AddDigitsValue | operations.py:33-34 | add_digits shifts the number left by the digit count of d and adds d; for a negative number it subtracts d; a negative d makes the parse fail |
| DigitOps.AddDigitsNone | operations.py:33-34 | appending the text of an empty memory (`None`) always fails to parse |
| DigitOps.Inv10JoinText | operations.py:110-111 | joining the recursive results on each digit is the digit-wise map 0→0, d→10−d |
| DigitOps.Inv10Text | operations.py:101-111 | `str(inv10_each_digit(m))` is that digit-wise image of `str(m)` |
| DigitOps.Inv10Involution | operations.py:101-111 | inverting every digit twice gives every integer back |
| DigitOps.WarpSplit | operations.py:41-42 | the slice point of `digits[:-enter]` lies within the text, 0 when enter is 0 or not below the length |
| DigitOps.AddWarpedDigits | operations.py:43-45 | the loop of one pass computes `int(low)` plus the factor times the digit sum of the warped part, failing on a non-digit |
| DigitOps.ComputeWarp | operations.py:38-51 | the warp procedure, pass after pass while the value changes, computes `Warp` |
| DigitOps.WarpPassNegative | operations.py:40-45 | a negative number is left unchanged when short enough, and otherwise fails on its '-' |
| DigitOps.WarpPassUnchanged | operations.py:41-43 | a number no longer than the entry index is left unchanged by a pass |
| DigitOps.WarpPassSplit | operations.py:39-45 | a longer number is its warped high part shifted by 10^enter plus its low part, and the pass gives low plus 10^exit times the digit sum of high |
| DigitOps.WarpPassLong | operations.py:39-45 | with exit ≤ enter such a pass succeeds and never increases the value, and strictly decreases it when exit < enter |
| DigitOps.WarpPassDecreases | operations.py:47-49 | a pass that changes the value takes a non-negative value to a smaller non-negative one, so the recursion terminates |
| DigitOps.WarpFixedPoint | operations.py:47-51 | the result of warp is a fixed point of one pass |
| DigitOps.WarpIdempotent | operations.py:47-51 | warping a warped value changes nothing |
| DigitOps.WarpError | operations.py:43-45 | warp can only fail by the `int` of a warped '-' |
| DigitOps.WarpBelowPortal | operations.py:38-51 | when exit < enter, the result has at most `enter` characters |
| Operations.NameInjective | operations.py:21-22 | two parameterised buttons with the same name are the same button |
| Operations.Apply | operations.py:129-133 | meta-button: the input comes back. Store and Retrieve: NotImplemented. Every other non-warp button never returns its input: a raw result equal to the input becomes the UselessOperation error, and any other raw result, an error included, is returned as it is |
| Operations.ApplyRoundTrip | operations.py:130-134 | two presses that compute back to the start are both accepted |
| Operations.ApplySumX | operations.py:166-173 | "sum with v" succeeds exactly when v ≠ 0, with n + v |
| Operations.ApplyMultiplyX | operations.py:146-153 | "multiply by v" succeeds exactly when n ≠ 0 and v ≠ 1, with v·n |
| Operations.ApplyDivideX | operations.py:156-163 | "divide by v" gives q exactly on an exact division that changes the value, and fatally fails on v = 0 |
| Operations.ApplyInvertSign | operations.py:234-239 | "+-" succeeds exactly on non-zero values, with −n |
| Operations.ApplyMirror | operations.py:184-189 | "mirror" fails as too large exactly above 999 and as useless exactly on 0 |
| Operations.ApplyShiftLeft | operations.py:218-223 | "<<" fails exactly on one digit and otherwise drops the last digit, keeping the sign |
| Operations.ApplySumDigits | operations.py:226-231 | "Sum" is useless exactly on one digit, and its result is congruent to its input modulo 9 |
| Operations.ApplyAddDigits | operations.py:271-278 | "Add digit d" appends the digits of d (or fails for a negative d) |
| Operations.ApplyReverseTwice | operations.py:176-181 | two presses of "reverse" give back a number without a trailing zero |
| Operations.ApplyInv10Twice | operations.py:281-286 | two presses of "Inv10" cancel out |
| Operations.ApplyCircularShiftsCancel | operations.py:202-215 | "shift right" then "shift left" gives back a number without a trailing zero |
| Operations.ApplyReplaceUseless | operations.py:192-199 | a replacement that finds nothing, or puts the pattern back, is rejected as useless |
| Operations.IncrementValueBy | operations.py:18-19 | only the parameter grows, by exactly `extra`; the kind is unchanged |
| Operations.IncrementAll | operations.py:244-245 | every held button is incremented in place, every other button is kept, and the length is unchanged |
| Operations.ApplyModifyButtons | operations.py:249-258 | the loop of the meta-button over the objects it holds (positions in a list of objects) returns its input, and raises each object once per time it is held, by the button's delta; no other object changes |
| Operations.IncrementAllHeld | solver.py:100-104 | a meta-button built over a whole list, as the solver builds one, raises every button of that list once: the same as `IncrementAll` |
| Operations.IncrementAllCompose | operations.py:250-251 | two meta-presses add up |
| Operations.IncrementAllNames | operations.py:21-22 | after a meta-press a parameterised button is named after its new parameter, and the other buttons keep their names |
| Solver.NewNode | solver.py:35-50 | the node holds what it is given; with no memory of its own it takes its parent's |
| Solver.RemoveAt | solver.py:100-101 | the list without the pressed button, the others in order |
| Solver.MakeChild | solver.py:117-121 | the child exists exactly when warp succeeds. It holds the warped value, the button, the list, the moves and the parent. It holds the memory given, or else the parent's |
| Solver.CreateChild | solver.py:76-121 | a child links to its parent and button and keeps the warp. A store spends no move and records the parent's value, which must differ from the memory. Any other button spends one move and inherits the memory |
| Solver.CreateChildRules | solver.py:93-121 | the rule of each button kind: meta-button (list cloned, incremented, own button appended), store, retrieve through add_digits, and `apply` for the rest |
| Solver.ChildMeasure | solver.py:105-118 | every child is smaller in a measure of moves and store rank, so a store chain is at most two links long |
| Solver.WarpedFixed | solver.py:117-118 | a warped value is a fixed point of the same warp |
| Solver.Gather | solver.py:125-131 | the `try/except ValueError` loop: the successes in order; an error exactly when some attempt raised a non-`ValueError` |
| Solver.GatherFatalPrefix | solver.py:125-131 | after a fatal attempt the later ones do not matter |
| Solver.CreateChildren | solver.py:123-131 | the loop over the buttons computes `Children` |
| Solver.ChildrenDecrease | solver.py:123-134 | every child of the expansion is smaller in the measure |
| Solver.ChildrenLinks | solver.py:93-121 | each child's parent is the node, its button is one of the node's, and it spends 0 moves (store) or 1 |
| Solver.BuildTree | solver.py:123-134 | `create_children` with its recursion computes `Expand` |
| Solver.ExpandFails | solver.py:122-134 | the expansion fails exactly when the children loop raises or the expansion of one of the children fails |
| Solver.ExpandWellFormed | solver.py:124 | in the tree built, a node with no move left has no children |
| Solver.FirstSolution | solver.py:137-147 | reference search: the first node of a list with no move left and the target value, or none |
| Solver.Find | solver.py:137-147 | a node found has no move left and the target value |
| Solver.FindIsFirst | solver.py:137-147 | on built trees the search returns the first solution in pre-order, children in creation order |
| Solver.FindInPreOrder | solver.py:137-147 | a node found is a node of the tree |
| Solver.FindInSkips | solver.py:143-147 | subtrees that hold no solution are passed over: searching a list of subtrees after k such ones is searching from the k-th on |
| Solver.SubtreeAt | solver.py:123-134 | a built tree has one subtree per button that succeeds, and the k-th is the expansion of the child the k-th successful button gives |
| Solver.FindAtButton | solver.py:137-147 | the search tries a node's buttons in list order: past the buttons that fail or whose subtree holds no solution, the first button whose subtree holds one gives the answer |
| Solver.FindNoneAtNode | solver.py:137-147 | a node none of whose buttons leads to a subtree holding a solution yields no solution |
| Solver.ParseOperationsUntilNode | solver.py:150-157 | the loop up the parent links, reversed, gives the names from the root down (`PathOf`) |
| Solver.PathOfStep | solver.py:153-155 | one step up moves the last name of the path onto the collected names |
| Solver.ChildPath | solver.py:120-121 | a child's path is its parent's path and the name of the button pressed |
| Solver.RootPath | solver.py:150-157 | the root and `None` both give the empty path |
| Solver.DescendsMoves | solver.py:95 | down a path of parent links the moves fall by one per button and none per store, and the path's names are those of its buttons |
| Solver.ExpandDescends | solver.py:123-134 | every node of the built tree hangs below the root by such links |
| Solver.CreateChildFatal | solver.py:126-131 | the only non-`ValueError` of one press is the zero division of "divide by 0" |
| Solver.MakeChildFatal | solver.py:117-118 | warp after a press can only fail with a `ValueError` |
| Solver.ChildNoDivision | solver.py:99-104 | the meta-button changes parameters, never kinds, so a list without divide buttons stays so |
| Solver.ChildNoZeroDivision | solver.py:96-104 | a list that cannot divide by zero (no divide button, or no zero divisor and no meta-button) stays so in every child |
| Solver.ChildrenNoZeroDivision | solver.py:123-131 | when no button can divide by zero, the children loop never raises |
| Solver.ExpandNoZeroDivision | solver.py:123-134 | when no button can divide by zero, the expansion of a level never raises |
| Solver.ExpandAllAt | solver.py:133-134 | each child's subtree is the child's own expansion |
| Solver.ChildInTree | solver.py:123-134 | a press that succeeds gives a child of the built tree |
| Solver.WalkInTree | solver.py:123-134 | every node a sequence of successful presses reaches is in the built tree |
| Solver.ReachableIsFound | solver.py:180-188 | on a level where no button can divide by zero, if some path reaches the target with no move left, the search finds a node |
| Solver.Solve | solver.py:180-188 | building, searching and naming computes `Solution` |
| Solver.SolutionSpendsAllMoves | solver.py:137-157 | a node found has the target value and no move left. Its path spends exactly the level's moves. The answer is the names of its buttons |
| Solver.ApplyOperations | solver.py:160-172 | the loop over button objects computes the gathered attempts, each on the object as the meta-buttons before it left it, and ends with every object raised by the meta-buttons pressed; when an error escapes, the objects stay as the presses up to and including the failing one left them, so earlier in-place increments remain |
| Solver.ApplyObject | operations.py:256-258 | `operation.apply(value)` on one object of the table: a meta-button raises the objects it holds and returns the value, any other button computes `apply` and changes no object; the objects after are those after one more press |
| Solver.StateStep | solver.py:167-169 | one press: a meta-button raises the objects it holds; any other button changes no object |
| Solver.ApplyOperationsPairs | solver.py:160-172 | one pair per succeeding operation, in input order. Each pair's list is the input list plus exactly that operation. Its value is that operation's result on the object as the earlier presses left it, which differs from the input except for the meta-button and warp |
| Solver.ApplyOperationsWithoutMeta | solver.py:166-171 | without a meta-button among the operations no object changes, so every attempt applies the object as given |
| Solver.NotRaised | operations.py:249-251 | an object that no pressed meta-button holds is not raised |
| Solver.GatherAllOk | solver.py:166-171 | when every attempt succeeds, all of them are gathered, in order |
| KnownValues.ReverseValues | operations.py:304-306 | reverse(123) = 321, reverse(−123) = −321 |
| KnownValues.MirrorValues | operations.py:308-311 | mirror(123) = 123321, mirror(−123) = −123321, mirror(20) = 2002 |
| KnownValues.ReplaceInside | operations.py:314 | replace(−12345, 34, 99) = −12995 |
| KnownValues.ReplaceLeadingZero | operations.py:315 | replace(12345, 12, 00) = 345 |
| KnownValues.ReplaceAtEnd | operations.py:316 | replace(2331, 31, "00") = 2300 |
| KnownValues.DivideValues | operations.py:318-324 | the four signed quotients of 15 by 3, and the failure of 10 by 3 |
| KnownValues.CircularShiftRightValues | operations.py:326-329 | 351→135, −351→−135, 135→513 |
| KnownValues.CircularShiftRightZero | operations.py:330 | 500→50 |
| KnownValues.CircularShiftLeftValues | operations.py:332-335 | 351→513, −351→−513, 513→135 |
| KnownValues.CircularShiftLeftZeros | operations.py:336 | 500→5 |
| KnownValues.ShiftLeftValues | operations.py:338-341 | 351→35, 135→13, −351→−35 |
| KnownValues.SumDigitsValue | operations.py:344 | sum_digits(12345) = 15 |
| KnownValues.SumDigitsRepeated | operations.py:345 | sum_digits(6677) = 26 |
| KnownValues.AddDigitsValues | operations.py:347-350 | add_digits(123, 25) = 12325, (0, 5) = 5, (5, 0) = 50 |
| KnownValues.Inv10Digits | operations.py:353-355 | 0→0, 1→9, 6→4 |
| KnownValues.Inv10Number | operations.py:356-357 | 13→97, −13→−97 |
| KnownValues.Inv10Zero | operations.py:358 | 30→70 |
| KnownValues.WarpOnePass | operations.py:363 | warp(1234, 3, 0) = 235 |
| KnownValues.WarpLeadingDigit | operations.py:364 | warp(6123, 3, 0) = 129 |
| KnownValues.WarpTwoPasses | operations.py:365 | warp(991, 2, 0) = 1, after two passes |
| KnownValues.WarpShiftedExit | operations.py:366 | warp(255255, 3, 1) = 375 |
| KnownValues.MetaButtonValues | operations.py:368-376 | "sum with 4" adds 4; [+]9 built over it keeps 99999 and makes it "sum with 13", which takes 20 to 33 |
| Levels.Root142Children | solver.py:225-228 | at the root of level 142, retrieving the empty memory is skipped and the store is the only child |
| Levels.Expand142 | solver.py:220-230 | the whole tree of level 142 |
| Levels.Find142 | solver.py:220-230 | its search finds the node reached by store, retrieve, store, retrieve |
| Levels.Level142 | solver.py:220-230 | level 142 is solved by ['Store', 'Retrieve', 'Store', 'Retrieve'] |
| Levels.Press | solver.py:114-121 | a press through `apply`, then warp |
| Levels.PressStore | solver.py:105-110 | a store keeps the moves and value and sets the memory |
| Levels.PressRetrieve | solver.py:112-113 | a retrieve appends the memory's digits |
| Levels.PressMeta | solver.py:99-104 | the meta-button keeps the value, increments the other buttons and appends itself |
| Levels.Solved | solver.py:180-188 | a path to the target on a level where no button can divide by zero gives a solution that spends every move |
| Levels.Path127 | solver.py:190-203 | the expected eight presses of level 127 lead from −1 to 2020 with no move left, with the expected names |
| Levels.Level127 | solver.py:190-203 | the search of level 127 finds a node with value 2020 whose path spends all 8 moves, and the expansion raises no fatal error |
| Levels.Increment139 | solver.py:99-104 | [+]2 on level 139 gives "multiply by 5", "sum with 6", "sum with 10", [+]2 |
| Levels.Path139 | solver.py:205-218 | the expected presses of level 139 lead from 5 to 41 with the expected names |
| Levels.Level139 | solver.py:205-218 | the search of level 139 finds a node with value 41 whose path spends all 4 moves, and the expansion raises no fatal error |
| Levels.Path149 | solver.py:232-250 | the expected presses of level 149 lead from 15 to 16 with the expected names |
| Levels.Level149 | solver.py:232-250 | the search of level 149 finds a node with value 16 whose path spends all 4 moves, and the expansion raises no fatal error |
| Levels.Path159 | solver.py:252-263 | the expected presses of level 159 lead from 21 to 12 with the expected names |
| Levels.Inv10Hits12 | operations.py:101-111 | inverting the digits gives 12 only from 98 |
| Levels.LastMoveMisses159 | solver.py:137-147 | on level 159, a node with one move left whose value is neither 19 nor 98 yields no solution |
| Levels.Find159From14 | solver.py:252-263 | nothing under 14 (the first button from 21) reaches 12: its children 7, 70 and 96 all miss |
| Levels.Find159 | solver.py:252-263 | the search of level 159 passes over the subtree of 14 and finds the node reached by multiply by 5, sum with -7 and Inv10 |
| Levels.Level159 | solver.py:252-263 | level 159 is solved by exactly ['multiply by 5', 'sum with -7', 'Inv10'] |
| Levels.Warped991 | solver.py:276 | with portals (2, 0), 991 warps to 1 |
| Levels.Path180 | solver.py:265-280 | the expected presses of level 180 lead, through the warp, from 99 to 10 with the expected names |
| Levels.Warped111 | solver.py:276 | with portals (2, 0), 111 warps to 12 |
| Levels.Find180 | solver.py:265-280 | the search of level 180 passes over the leaf 12 and finds the node reached by add digit 1, add digit 1, sum with -1 |
| Levels.Level180 | solver.py:265-280 | level 180 is solved by exactly ['Add digit 1', 'Add digit 1', 'sum with -1'] |
| Levels.ApplyOperationsShared | solver.py:160-172 | a [+]9 built over "sum with 4", listed before it: from 20 the pairs are (20, [+]9) and (33, the sum button), which is left at "sum with 13" |
| Levels.ApplyOperations139 | solver.py:210-214 | over the buttons of level 139 from 5 the pairs hold 15, 9, 13 and 5, and afterwards the objects read "multiply by 5", "sum with 6", "sum with 10" |

## Left out

- The unit-test harness, the `__main__` script that prints a solution, and `__repr__`. These are I/O and display. The tests' expected values are lemmas instead.
- The `Node._children` field, which `create_children` appends to in place. It is modelled as a `Tree` value that the expansion returns. Nodes hold their parent by value. The model therefore does not capture node identity, or the sharing of one node object between the tree and the path walk.
- `copy.copy` and the shared operation objects of `apply_operation_and_create_child`. In the tree, buttons are values in a per-node list, and the meta-button's in-place increments are a new list. Within the tree no object is raised after it is shared, so this loses nothing there: each child's list is incremented and no other list changes. In `apply_operations`, where sharing matters, objects are kept by identity: a position in a `Buttons` table, a sequence that the loop reassigns as the meta-buttons raise its entries.
- The `hasattr` test of the meta-button's constructor. It is the predicate `HasIncrement`, over the four decorated kinds.
- A button's identity (`i is not operation`). It is its index in the list. Two equal buttons in one list are therefore told apart by position, as the source tells apart two distinct objects. One case differs: when the same meta-button object sits twice in a node's list, the source's filter drops both entries on a press, while `Solver.RemoveAt` drops only the pressed position, so the child's list keeps one extra meta-button. The levels modelled here build no such list.
- DigitOps.Warp: only portals with the exit index not above the entry index are modelled; the `ValidWarp` type requires it. This is a modelling choice: for those portals a pass never increases the value, which is the termination measure used. Portals with the exit above the entry also terminate in the source, because every later pass only replaces the carried digit sum by its own digit sum, but they need a different measure and are not modelled. Negative indices are not modelled.
- Digits.Parse: Python's `int` also accepts surrounding whitespace, underscores between digits and non-ASCII digits; the model's parse fails on them. The texts `str` builds never contain them, but a Replace button's replacement text is arbitrary: `replace(131, 3, "_")` is `int("1_1")`, that is 11, in Python, and a ParseFailure in the model.
- A divide button with divisor 0. Its `ZeroDivisionError` is a fatal error that ends the whole expansion, as in the source; it is not a precondition. The lemmas about complete searches assume a level where no button can divide by zero: no divide button, or no divisor 0 and no meta-button. A level with both a divide button and a meta-button is not covered by them, because a meta-button can raise a divisor to 0.
- Levels.Level127: states that the search finds a node with the target value whose path spends all eight moves, not that its names are exactly the list the test expects. The path the test expects is proved separately, with its names, in Levels.Path127.
- Levels.Level139: states that the search finds a node with the target value whose path spends all four moves, not that it is the expected list; the expected path is in Levels.Path139.
- Levels.Level149: states that the search finds a node with the target value whose path spends all four moves, not that it is the expected list; the expected path is in Levels.Path149.
- Exactness of levels 127, 139 and 149: proving that the test's path is the first solution in pre-order needs every node that pre-order visits before it, and for these levels that is hundreds of nodes or more: their expected paths begin with the third or fourth button, so the search first exhausts the subtrees of the buttons before it. Level 142 is exact through its whole tree; levels 159 and 180 are exact through the nodes the search visits before the solution, with Solver.FindAtButton and Solver.FindNoneAtNode.
- Python's arbitrary-precision integers need no wrap-around: Dafny's `int` is unbounded as well.
