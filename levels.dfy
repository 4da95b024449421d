/** Levels of the game from the solver's tests. Level 142 is solved in full:
    the whole tree is built and searched. Levels 159 and 180 are solved
    exactly too, through the nodes the search visits before the solution.
    For the other levels the model follows the path the tests expect,
    button by button, to a node that reaches the target with no move left. */
module Levels {
  import opened Wrappers
  import opened Digits
  import opened Errors
  import DigitOps
  import opened Operations
  import opened Solver
  import KnownValues

  // ---------------------------------------------------------------------
  // Level 142: from 1 to 1111 in two moves with Store and Retrieve

  const MemoryOps: seq<Op> := [StorageAction, RetrieveAction]

  function Root142(): Node {
    Root(1, MemoryOps, 2, None)
  }

  /** Store 1: no move is spent. */
  function StoredOne(): Node {
    Node(1, Some(StorageAction), MemoryOps, 2, Some(Root142()), Some(1), None)
  }

  function Retrieved11(): Node {
    Node(11, Some(RetrieveAction), MemoryOps, 1, Some(StoredOne()), Some(1), None)
  }

  function Stored11(): Node {
    Node(11, Some(StorageAction), MemoryOps, 1, Some(Retrieved11()), Some(11), None)
  }

  function Retrieved111(): Node {
    Node(111, Some(RetrieveAction), MemoryOps, 0, Some(Retrieved11()), Some(1), None)
  }

  function Retrieved1111(): Node {
    Node(1111, Some(RetrieveAction), MemoryOps, 0, Some(Stored11()), Some(11), None)
  }

  lemma AppendedDigits()
    ensures DigitOps.AddDigits(1, Some(1)) == Ok(11)
    ensures DigitOps.AddDigits(11, Some(1)) == Ok(111)
    ensures DigitOps.AddDigits(11, Some(11)) == Ok(1111)
  {
    DigitOps.AddDigitsValue(1, 1);
    DigitOps.AddDigitsValue(11, 1);
    DigitOps.AddDigitsValue(11, 11);
    assert Str(11) == "11";
  }

  /** The children of a node with the two memory buttons. */
  lemma TwoButtons(n: Node, first: Result<Node, Error>, second: Result<Node, Error>)
    requires n.availableOps == MemoryOps && n.remainingMoves > 0
    requires CreateChild(n, 0) == first && CreateChild(n, 1) == second
    ensures Children(n) == Gather([first, second])
  {
    assert Attempts(n) == [first, second];
  }

  /** One more attempt after the ones gathered so far. */
  lemma GatherOk(rs: seq<Result<Node, Error>>, earlier: seq<Node>, c: Node)
    requires Gather(rs) == Ok(earlier)
    ensures Gather(rs + [Ok(c)]) == Ok(earlier + [c])
  {
    assert (rs + [Ok(c)])[..|rs|] == rs;
  }

  lemma GatherSkip(rs: seq<Result<Node, Error>>, earlier: seq<Node>, e: Error)
    requires Gather(rs) == Ok(earlier) && IsValueError(e)
    ensures Gather(rs + [Err(e)]) == Ok(earlier)
  {
    assert (rs + [Err(e)])[..|rs|] == rs;
  }

  lemma GatherBoth(a: Node, b: Node)
    ensures Gather([Ok(a), Ok(b)]) == Ok([a, b])
  {
    var none: seq<Result<Node, Error>>, nothing: seq<Node> := [], [];
    var ra: Result<Node, Error>, rb: Result<Node, Error> := Ok(a), Ok(b);
    assert none + [ra] == [ra] && nothing + [a] == [a];
    assert [ra] + [rb] == [ra, rb] && [a] + [b] == [a, b];
    GatherOk(none, nothing, a);
    GatherOk([ra], [a], b);
  }

  lemma GatherSecond(e: Error, b: Node)
    requires IsValueError(e)
    ensures Gather([Err(e), Ok(b)]) == Ok([b])
  {
    var none: seq<Result<Node, Error>>, nothing: seq<Node> := [], [];
    var re: Result<Node, Error>, rb: Result<Node, Error> := Err(e), Ok(b);
    assert none + [re] == [re];
    assert [re] + [rb] == [re, rb] && nothing + [b] == [b];
    GatherSkip(none, nothing, e);
    GatherOk([re], nothing, b);
  }

  lemma GatherFirst(a: Node, e: Error)
    requires IsValueError(e)
    ensures Gather([Ok(a), Err(e)]) == Ok([a])
  {
    var none: seq<Result<Node, Error>>, nothing: seq<Node> := [], [];
    var ra: Result<Node, Error>, re: Result<Node, Error> := Ok(a), Err(e);
    assert none + [ra] == [ra] && nothing + [a] == [a];
    assert [ra] + [re] == [ra, re];
    GatherOk(none, nothing, a);
    GatherSkip([ra], [a], e);
  }

  lemma Leaf(n: Node)
    requires n.remainingMoves == 0
    ensures Expand(n) == Ok(Tree(n, []))
  {
  }

  /** An expansion whose children are all leaves or already expanded. */
  lemma ExpandOne(n: Node, kid: Node, sub: Tree)
    requires Children(n) == Ok([kid]) && Expand(kid) == Ok(sub)
    ensures Expand(n) == Ok(Tree(n, [sub]))
  {
    assert [kid][..0] == [] && [] + [sub] == [sub];
    ChildrenDecrease(n);
    assert ExpandAll(n, []) == Ok([]);
    assert ExpandAll(n, [kid]) == Ok([] + [sub]);
    ExpandOfChildren(n, Ok([sub]));
  }

  lemma ExpandTwo(n: Node, kid1: Node, sub1: Tree, kid2: Node, sub2: Tree)
    requires Children(n) == Ok([kid1, kid2]) && Expand(kid1) == Ok(sub1) && Expand(kid2) == Ok(sub2)
    ensures Expand(n) == Ok(Tree(n, [sub1, sub2]))
  {
    assert [kid1, kid2][..1] == [kid1] && [kid1][..0] == [];
    assert [] + [sub1] == [sub1] && [sub1] + [sub2] == [sub1, sub2];
    ChildrenDecrease(n);
    assert ExpandAll(n, []) == Ok([]);
    assert ExpandAll(n, [kid1]) == Ok([] + [sub1]);
    assert ExpandAll(n, [kid1, kid2]) == Ok([sub1] + [sub2]);
    ExpandOfChildren(n, Ok([sub1, sub2]));
  }

  lemma Stored11Children()
    ensures Children(Stored11()) == Ok([Retrieved1111()])
  {
    var n := Stored11();
    AppendedDigits();
    assert CreateChild(n, 0) == Err(SameValueStore);
    assert CreateChild(n, 1) == Ok(Retrieved1111());
    TwoButtons(n, Err(SameValueStore), Ok(Retrieved1111()));
    GatherSecond(SameValueStore, Retrieved1111());
  }

  lemma Retrieved11Children()
    ensures Children(Retrieved11()) == Ok([Stored11(), Retrieved111()])
  {
    var n := Retrieved11();
    AppendedDigits();
    assert CreateChild(n, 0) == Ok(Stored11());
    assert CreateChild(n, 1) == Ok(Retrieved111());
    TwoButtons(n, Ok(Stored11()), Ok(Retrieved111()));
    GatherBoth(Stored11(), Retrieved111());
  }

  lemma StoredOneChildren()
    ensures Children(StoredOne()) == Ok([Retrieved11()])
  {
    var n := StoredOne();
    AppendedDigits();
    assert CreateChild(n, 0) == Err(SameValueStore);
    assert CreateChild(n, 1) == Ok(Retrieved11());
    TwoButtons(n, Err(SameValueStore), Ok(Retrieved11()));
    GatherSecond(SameValueStore, Retrieved11());
  }

  /** Retrieving the empty memory of the root appends "None": skipped. */
  lemma Root142Children()
    ensures Children(Root142()) == Ok([StoredOne()])
  {
    var n := Root142();
    assert CreateChild(n, 0) == Ok(StoredOne());
    CreateChildRules(n, 1);
    TwoButtons(n, Ok(StoredOne()), Err(ParseFailure));
    GatherFirst(StoredOne(), ParseFailure);
  }

  function Tree142(): Tree {
    var e := Tree(Retrieved1111(), []);
    var c := Tree(Stored11(), [e]);
    var b := Tree(Retrieved11(), [c, Tree(Retrieved111(), [])]);
    Tree(Root142(), [Tree(StoredOne(), [b])])
  }

  /** The whole tree of level 142. */
  lemma Expand142()
    ensures Expand(Root142()) == Ok(Tree142())
  {
    Leaf(Retrieved1111());
    Leaf(Retrieved111());
    Stored11Children();
    ExpandOne(Stored11(), Retrieved1111(), Tree(Retrieved1111(), []));
    Retrieved11Children();
    ExpandTwo(Retrieved11(), Stored11(), Tree142().children[0].children[0].children[0],
              Retrieved111(), Tree(Retrieved111(), []));
    StoredOneChildren();
    ExpandOne(StoredOne(), Retrieved11(), Tree142().children[0].children[0]);
    Root142Children();
    ExpandOne(Root142(), StoredOne(), Tree142().children[0]);
  }

  lemma Path142()
    ensures PathNames(Retrieved1111()) == ["Store", "Retrieve", "Store", "Retrieve"]
  {
    assert PathNames(Root142()) == [];
    assert PathNames(StoredOne()) == ["Store"];
    assert PathNames(Retrieved11()) == ["Store", "Retrieve"];
    assert PathNames(Stored11()) == ["Store", "Retrieve", "Store"];
  }

  /** The search goes down the first child until it meets the solution. */
  lemma Find142()
    ensures Find(Tree142(), 1111) == Some(Retrieved1111())
  {
    var t := Tree142();
    var b := t.children[0].children[0];
    var c := b.children[0];
    assert Find(c.children[0], 1111) == Some(Retrieved1111());
    assert FindIn(c.children, 1111) == Some(Retrieved1111());
    assert Find(c, 1111) == Some(Retrieved1111());
    assert FindIn(b.children, 1111) == Some(Retrieved1111());
    assert Find(b, 1111) == Some(Retrieved1111());
    assert Find(t.children[0], 1111) == Some(Retrieved1111());
  }

  /** The test of level 142: store, retrieve, store, retrieve. */
  lemma Level142()
    ensures Solution(1, 1111, 2, MemoryOps, None) == Ok(["Store", "Retrieve", "Store", "Retrieve"])
  {
    Expand142();
    Find142();
    Path142();
  }

  // ---------------------------------------------------------------------
  // Pressing one button along a path

  /** A button that goes through `apply`, then the level's warp. */
  lemma Press(n: Node, i: nat, v: int, w: int)
    requires i < |n.availableOps|
    requires var op := n.availableOps[i];
      !op.ModifyButtonsAddValue? && !op.StorageAction? && !op.RetrieveAction?
    requires Apply(n.availableOps[i], n.value) == Ok(v) && Warped(n, v) == Ok(w)
    ensures CreateChild(n, i) ==
      Ok(Node(w, Some(n.availableOps[i]), n.availableOps, n.remainingMoves - 1, Some(n), n.memory, n.warp))
  {
    CreateChildRules(n, i);
  }

  lemma PressStore(n: Node, i: nat)
    requires i < |n.availableOps| && n.availableOps[i].StorageAction?
    requires n.memory != Some(n.value) && n.warp.None?
    ensures CreateChild(n, i) ==
      Ok(Node(n.value, Some(StorageAction), n.availableOps, n.remainingMoves, Some(n), Some(n.value), None))
  {
    CreateChildRules(n, i);
  }

  lemma PressRetrieve(n: Node, i: nat, v: int)
    requires i < |n.availableOps| && n.availableOps[i].RetrieveAction?
    requires DigitOps.AddDigits(n.value, n.memory) == Ok(v) && n.warp.None?
    ensures CreateChild(n, i) ==
      Ok(Node(v, Some(RetrieveAction), n.availableOps, n.remainingMoves - 1, Some(n), n.memory, None))
  {
    CreateChildRules(n, i);
  }

  /** The meta-button: no value change, its list incremented and itself
      moved to the end. */
  lemma PressMeta(n: Node, i: nat)
    requires i < |n.availableOps| && n.availableOps[i].ModifyButtonsAddValue? && n.warp.None?
    ensures var op := n.availableOps[i];
      CreateChild(n, i) ==
      Ok(Node(n.value, Some(op), IncrementAll(RemoveAt(n.availableOps, i), op.delta) + [op],
              n.remainingMoves - 1, Some(n), n.memory, None))
  {
    CreateChildRules(n, i);
  }

  lemma WalkCons(n: Node, i: nat, rest: seq<nat>, c: Node)
    requires n.remainingMoves > 0 && i < |n.availableOps| && CreateChild(n, i) == Ok(c)
    ensures Walk(n, [i] + rest) == Walk(c, rest)
  {
    assert ([i] + rest)[1..] == rest;
  }

  /** One more name on the path: the button of the last edge. */
  lemma NameStep(n: Node)
    requires n.currentOp.Some? && n.parent.Some?
    ensures PathNames(n) == PathNames(n.parent.value) + [Name(n.currentOp.value)]
  {
  }

  /** What a path to a solution gives on a level whose buttons cannot divide
      by zero: the search finds a node, which spends every move of the level. */
  lemma Solved(start: int, target: int, moves: int, ops: seq<Op>, warp: Option<ValidWarp>, path: seq<nat>)
    requires NoZeroDivision(ops)
    requires Walk(Root(start, ops, moves, warp), path).Some?
    requires IsSolution(Walk(Root(start, ops, moves, warp), path).value, target)
    ensures Solution(start, target, moves, ops, warp).Ok?
    ensures var s := Find(Expand(Root(start, ops, moves, warp)).value, target);
      s.Some? && MovesSpent(PathOps(s.value)) == moves
  {
    ReachableIsFound(start, target, moves, ops, warp, path);
    SolutionSpendsAllMoves(start, target, moves, ops, warp);
  }

  // ---------------------------------------------------------------------
  // Level 159: from 21 to 12 in three moves

  const Ops159: seq<Op> := [SumX(-7), MultiplyX(5), Inv10EachDigit]

  lemma Inv10Of98()
    ensures DigitOps.Inv10EachDigit(98) == 12
  {
    assert NatStr(98) == "98" && NatStr(12) == "12";
    assert DigitOps.InvText("98") == "12";
    KnownValues.Inv10Of(98, "12", 12);
  }

  function Root159(): Node {
    Root(21, Ops159, 3, None)
  }

  function Multiplied105(): Node {
    Node(105, Some(MultiplyX(5)), Ops159, 2, Some(Root159()), None, None)
  }

  function Summed98(): Node {
    Node(98, Some(SumX(-7)), Ops159, 1, Some(Multiplied105()), None, None)
  }

  function Inverted12(): Node {
    Node(12, Some(Inv10EachDigit), Ops159, 0, Some(Summed98()), None, None)
  }

  lemma Walk159Inv10()
    ensures Walk(Summed98(), [2]) == Some(Inverted12())
  {
    assert [2] + [] == [2];
    PressInv10(Summed98());
    WalkCons(Summed98(), 2, [], Inverted12());
  }

  lemma PressInv10(n: Node)
    requires n.value == 98 && n.availableOps == Ops159 && n.warp.None?
    ensures CreateChild(n, 2) == Ok(Node(12, Some(Inv10EachDigit), Ops159, n.remainingMoves - 1, Some(n), n.memory, None))
  {
    Inv10Of98();
    ApplyIsChecked(Inv10EachDigit, 98);
    Press(n, 2, 12, 12);
  }

  lemma Walk159Sum()
    ensures Walk(Multiplied105(), [0, 2]) == Some(Inverted12())
  {
    assert [0] + [2] == [0, 2];
    Press(Multiplied105(), 0, 98, 98);
    Walk159Inv10();
    WalkCons(Multiplied105(), 0, [2], Summed98());
  }

  /** The path of the test: multiply by 5, sum with -7, Inv10. */
  lemma Path159()
    ensures Walk(Root(21, Ops159, 3, None), [1, 0, 2]) == Some(Inverted12())
    ensures IsSolution(Inverted12(), 12)
    ensures PathNames(Inverted12()) == ["multiply by 5", "sum with -7", "Inv10"]
  {
    assert [1] + [0, 2] == [1, 0, 2];
    Press(Root159(), 1, 105, 105);
    Walk159Sum();
    WalkCons(Root159(), 1, [0, 2], Multiplied105());
    Names159(Root159(), Multiplied105(), Summed98(), Inverted12());
  }

  lemma Names159(n0: Node, n1: Node, n2: Node, n3: Node)
    requires n0.currentOp.None?
    requires n1.currentOp == Some(MultiplyX(5)) && n1.parent == Some(n0)
    requires n2.currentOp == Some(SumX(-7)) && n2.parent == Some(n1)
    requires n3.currentOp == Some(Inv10EachDigit) && n3.parent == Some(n2)
    ensures PathNames(n3) == ["multiply by 5", "sum with -7", "Inv10"]
  {
    assert Name(MultiplyX(5)) == "multiply by 5" by { assert Str(5) == "5"; }
    assert Name(SumX(-7)) == "sum with -7" by { assert Str(-7) == "-7"; }
    NameStep(n1);
    NameStep(n2);
    NameStep(n3);
  }

  /** Inverting the digits gives 12 only from 98, since it is an involution. */
  lemma Inv10Hits12(v: int)
    ensures DigitOps.Inv10EachDigit(v) == 12 ==> v == 98
  {
    Inv10Of98();
    DigitOps.Inv10Involution(98);
    DigitOps.Inv10Involution(v);
  }

  lemma Inv10Of14()
    ensures DigitOps.Inv10EachDigit(14) == 96
  {
    assert NatStr(14) == "14" && NatStr(96) == "96";
    assert DigitOps.InvText("14") == "96";
    KnownValues.Inv10Of(14, "96", 96);
  }

  /** A press on the last move that does not reach the target: its child,
      if it has one, is a leaf that the search passes over. */
  lemma LastPressMisses(n: Node, i: nat, target: int)
    requires i < |n.availableOps| && n.remainingMoves == 1 && n.warp.None?
    requires var op := n.availableOps[i];
      !op.ModifyButtonsAddValue? && !op.StorageAction? && !op.RetrieveAction?
    requires Apply(n.availableOps[i], n.value).Ok? ==> Apply(n.availableOps[i], n.value).value != target
    ensures CreateChild(n, i).Ok? ==>
      Expand(CreateChild(n, i).value).Ok? && Find(Expand(CreateChild(n, i).value).value, target).None?
  {
    CreateChildRules(n, i);
    if CreateChild(n, i).Ok? {
      Leaf(CreateChild(n, i).value);
    }
  }

  /** A node of level 159 with one move left from which no press reaches
      12: neither 19 (sum with -7) nor 98 (Inv10). */
  lemma LastMoveMisses159(n: Node)
    requires n.availableOps == Ops159 && n.remainingMoves == 1 && n.warp.None?
    requires n.value != 19 && n.value != 98
    ensures Expand(n).Ok? && Find(Expand(n).value, 12).None?
  {
    NoDivision159();
    ExpandNoZeroDivision(n);
    LastPresses159(n);
    FindNoneAtNode(n, 12);
  }

  lemma LastPresses159(n: Node)
    requires n.availableOps == Ops159 && n.remainingMoves == 1 && n.warp.None?
    requires n.value != 19 && n.value != 98
    ensures forall j :: 0 <= j < |n.availableOps| && CreateChild(n, j).Ok? ==>
      Expand(CreateChild(n, j).value).Ok? && Find(Expand(CreateChild(n, j).value).value, 12).None?
  {
    forall j | 0 <= j < |n.availableOps| && CreateChild(n, j).Ok?
      ensures Expand(CreateChild(n, j).value).Ok? && Find(Expand(CreateChild(n, j).value).value, 12).None?
    {
      if j == 0 {
        ApplySumX(-7, n.value);
        LastPressMisses(n, 0, 12);
      } else if j == 1 {
        ApplyMultiplyX(5, n.value);
        LastPressMisses(n, 1, 12);
      } else {
        ApplyIsChecked(Inv10EachDigit, n.value);
        Inv10Hits12(n.value);
        LastPressMisses(n, 2, 12);
      }
    }
  }

  /** A press from a node of level 159 with two moves left to a value from
      which the last move cannot reach 12. */
  lemma MissesBelow159(n: Node, i: nat, v: int)
    requires n.availableOps == Ops159 && n.remainingMoves == 2 && n.warp.None? && i < 3
    requires Apply(Ops159[i], n.value) == Ok(v) && v != 19 && v != 98
    ensures CreateChild(n, i).Ok?
    ensures Expand(CreateChild(n, i).value).Ok? && Find(Expand(CreateChild(n, i).value).value, 12).None?
  {
    Press(n, i, v, v);
    LastMoveMisses159(CreateChild(n, i).value);
  }

  /** Nothing under 14 with two moves left reaches 12: its children 7, 70
      and 96 all miss. */
  lemma Find159From14(n: Node)
    requires n.value == 14 && n.availableOps == Ops159 && n.remainingMoves == 2 && n.warp.None?
    ensures Expand(n).Ok? && Find(Expand(n).value, 12).None?
  {
    NoDivision159();
    ExpandNoZeroDivision(n);
    Children159From14(n);
    FindNoneAtNode(n, 12);
  }

  /** The children of 14: 7, 70 and 96, none of which leads to 12. */
  lemma Children159From14(n: Node)
    requires n.value == 14 && n.availableOps == Ops159 && n.remainingMoves == 2 && n.warp.None?
    ensures forall j :: 0 <= j < |n.availableOps| && CreateChild(n, j).Ok? ==>
      Expand(CreateChild(n, j).value).Ok? && Find(Expand(CreateChild(n, j).value).value, 12).None?
  {
    forall j | 0 <= j < |n.availableOps| && CreateChild(n, j).Ok?
      ensures Expand(CreateChild(n, j).value).Ok? && Find(Expand(CreateChild(n, j).value).value, 12).None?
    {
      if j == 0 {
        MissesBelow159(n, 0, 7);
      } else if j == 1 {
        ApplyMultiplyX(5, 14);
        MissesBelow159(n, 1, 70);
      } else {
        Inv10Of14();
        ApplyIsChecked(Inv10EachDigit, 14);
        MissesBelow159(n, 2, 96);
      }
    }
  }

  /** From 98 with one move left: 91 and 490 miss, then Inv10 reaches 12. */
  lemma Find159From98(n: Node)
    requires n.value == 98 && n.availableOps == Ops159 && n.remainingMoves == 1 && n.warp.None?
    ensures Expand(n).Ok?
    ensures Find(Expand(n).value, 12) == Some(Node(12, Some(Inv10EachDigit), Ops159, 0, Some(n), n.memory, None))
  {
    NoDivision159();
    ExpandNoZeroDivision(n);
    forall j | 0 <= j < 2 && CreateChild(n, j).Ok?
      ensures Expand(CreateChild(n, j).value).Ok? && Find(Expand(CreateChild(n, j).value).value, 12).None?
    {
      if j == 0 {
        ApplySumX(-7, 98);
        LastPressMisses(n, 0, 12);
      } else {
        ApplyMultiplyX(5, 98);
        LastPressMisses(n, 1, 12);
      }
    }
    PressInv10(n);
    Leaf(CreateChild(n, 2).value);
    FindAtButton(n, 12, 2);
  }

  lemma Find159From105(n: Node)
    requires n.value == 105 && n.availableOps == Ops159 && n.remainingMoves == 2 && n.warp.None?
    ensures Expand(n).Ok?
    ensures var c := Node(98, Some(SumX(-7)), Ops159, 1, Some(n), n.memory, None);
      Find(Expand(n).value, 12) == Some(Node(12, Some(Inv10EachDigit), Ops159, 0, Some(c), n.memory, None))
  {
    NoDivision159();
    ExpandNoZeroDivision(n);
    ApplySumX(-7, 105);
    Press(n, 0, 98, 98);
    Find159From98(CreateChild(n, 0).value);
    FindAtButton(n, 12, 0);
  }

  /** The search of level 159 passes over everything under 14, then goes
      down multiply by 5, sum with -7 and Inv10. */
  lemma Find159From21(n: Node)
    requires n.value == 21 && n.availableOps == Ops159 && n.remainingMoves == 3 && n.warp.None?
    ensures Expand(n).Ok?
    ensures var c := Node(105, Some(MultiplyX(5)), Ops159, 2, Some(n), n.memory, None);
      var d := Node(98, Some(SumX(-7)), Ops159, 1, Some(c), n.memory, None);
      Find(Expand(n).value, 12) == Some(Node(12, Some(Inv10EachDigit), Ops159, 0, Some(d), n.memory, None))
  {
    NoDivision159();
    ExpandNoZeroDivision(n);
    First159From21(n);
    ApplyMultiplyX(5, 21);
    Press(n, 1, 105, 105);
    Find159From105(CreateChild(n, 1).value);
    FindAtButton(n, 12, 1);
  }

  /** The first button from 21 gives 14, under which nothing reaches 12. */
  lemma First159From21(n: Node)
    requires n.value == 21 && n.availableOps == Ops159 && n.remainingMoves == 3 && n.warp.None?
    ensures forall j :: 0 <= j < 1 && CreateChild(n, j).Ok? ==>
      Expand(CreateChild(n, j).value).Ok? && Find(Expand(CreateChild(n, j).value).value, 12).None?
  {
    ApplySumX(-7, 21);
    Press(n, 0, 14, 14);
    Find159From14(CreateChild(n, 0).value);
  }

  lemma Find159()
    ensures Expand(Root159()).Ok? && Find(Expand(Root159()).value, 12) == Some(Inverted12())
  {
    Find159From21(Root159());
  }

  /** The test of level 159: multiply by 5, sum with -7, Inv10. */
  lemma Level159()
    ensures Solution(21, 12, 3, Ops159, None) == Ok(["multiply by 5", "sum with -7", "Inv10"])
  {
    Find159();
    Path159();
  }

  lemma NoDivision159()
    ensures NoDivision(Ops159)
  {
  }

  // ---------------------------------------------------------------------
  // Level 139: from 5 to 41 in four moves, with a meta-button

  const Ops139: seq<Op> := [MultiplyX(3), SumX(4), SumX(8), ModifyButtonsAddValue(2)]

  /** The buttons after pressing [+]2. */
  const Ops139Incremented: seq<Op> := [MultiplyX(5), SumX(6), SumX(10), ModifyButtonsAddValue(2)]

  lemma Increment139()
    ensures IncrementAll(RemoveAt(Ops139, 3), 2) + [ModifyButtonsAddValue(2)] == Ops139Incremented
  {
    assert RemoveAt(Ops139, 3) == [MultiplyX(3), SumX(4), SumX(8)];
  }

  function Root139(): Node {
    Root(5, Ops139, 4, None)
  }

  function Incremented5(): Node {
    Node(5, Some(ModifyButtonsAddValue(2)), Ops139Incremented, 3, Some(Root139()), None, None)
  }

  function Multiplied25(): Node {
    Node(25, Some(MultiplyX(5)), Ops139Incremented, 2, Some(Incremented5()), None, None)
  }

  function Summed31(): Node {
    Node(31, Some(SumX(6)), Ops139Incremented, 1, Some(Multiplied25()), None, None)
  }

  function Summed41(): Node {
    Node(41, Some(SumX(10)), Ops139Incremented, 0, Some(Summed31()), None, None)
  }

  lemma Walk139Ten()
    ensures Walk(Summed31(), [2]) == Some(Summed41())
  {
    assert [2] + [] == [2];
    Press(Summed31(), 2, 41, 41);
    WalkCons(Summed31(), 2, [], Summed41());
  }

  lemma Walk139Six()
    ensures Walk(Multiplied25(), [1, 2]) == Some(Summed41())
  {
    assert [1] + [2] == [1, 2];
    Press(Multiplied25(), 1, 31, 31);
    Walk139Ten();
    WalkCons(Multiplied25(), 1, [2], Summed31());
  }

  lemma Walk139Multiply()
    ensures Walk(Incremented5(), [0, 1, 2]) == Some(Summed41())
  {
    assert [0] + [1, 2] == [0, 1, 2];
    Press(Incremented5(), 0, 25, 25);
    Walk139Six();
    WalkCons(Incremented5(), 0, [1, 2], Multiplied25());
  }

  /** The path of the test: [+]2, then multiply by 5, sum with 6, sum with 10. */
  lemma Path139()
    ensures Walk(Root(5, Ops139, 4, None), [3, 0, 1, 2]) == Some(Summed41())
    ensures IsSolution(Summed41(), 41)
    ensures PathNames(Summed41()) == ["[+]2", "multiply by 5", "sum with 6", "sum with 10"]
  {
    assert [3] + [0, 1, 2] == [3, 0, 1, 2];
    PressMeta(Root139(), 3);
    Increment139();
    Walk139Multiply();
    WalkCons(Root139(), 3, [0, 1, 2], Incremented5());
    Names139(Root139(), Incremented5(), Multiplied25(), Summed31(), Summed41());
  }

  lemma Names139(n0: Node, n1: Node, n2: Node, n3: Node, n4: Node)
    requires n0.currentOp.None?
    requires n1.currentOp == Some(ModifyButtonsAddValue(2)) && n1.parent == Some(n0)
    requires n2.currentOp == Some(MultiplyX(5)) && n2.parent == Some(n1)
    requires n3.currentOp == Some(SumX(6)) && n3.parent == Some(n2)
    requires n4.currentOp == Some(SumX(10)) && n4.parent == Some(n3)
    ensures PathNames(n4) == ["[+]2", "multiply by 5", "sum with 6", "sum with 10"]
  {
    assert Name(ModifyButtonsAddValue(2)) == "[+]2" by { assert Str(2) == "2"; }
    assert Name(MultiplyX(5)) == "multiply by 5" by { assert Str(5) == "5"; }
    assert Name(SumX(6)) == "sum with 6" by { assert Str(6) == "6"; }
    assert Name(SumX(10)) == "sum with 10" by { assert Str(10) == "10"; }
    NameStep(n1);
    NameStep(n2);
    NameStep(n3);
    NameStep(n4);
  }

  lemma Level139()
    ensures Solution(5, 41, 4, Ops139, None).Ok?
    ensures var s := Find(Expand(Root(5, Ops139, 4, None)).value, 41);
      s.Some? && MovesSpent(PathOps(s.value)) == 4
  {
    NoDivision139();
    Path139();
    Solved(5, 41, 4, Ops139, None, [3, 0, 1, 2]);
  }

  lemma NoDivision139()
    ensures NoDivision(Ops139)
  {
  }

  // ---------------------------------------------------------------------
  // Level 180: from 99 to 10 in three moves, with warp from 2 to 0

  const Ops180: seq<Op> := [AddDigits(1), SumX(-1)]

  const Portals180: ValidWarp := WarpAction(2, 0)

  /** Numbers of two digits are left alone by this warp. */
  lemma ShortUnwarped(v: nat)
    requires 10 <= v < 100
    ensures Warped(Root(99, Ops180, 3, Some(Portals180)), v) == Ok(v)
  {
    NatStrShort(v, 2);
    DigitOps.WarpPassUnchanged(v, 2, 0);
    KnownValues.WarpStep(v, 2, 0, v);
  }

  lemma Appended991()
    ensures Apply(AddDigits(1), 99) == Ok(991)
    ensures Apply(AddDigits(1), 1) == Ok(11)
  {
    DigitOps.AddDigitsValue(99, 1);
    DigitOps.AddDigitsValue(1, 1);
  }

  lemma Warped991()
    ensures Warped(Root(99, Ops180, 3, Some(Portals180)), 991) == Ok(1)
  {
    KnownValues.WarpTwoPasses();
  }

  function Root180(): Node {
    Root(99, Ops180, 3, Some(Portals180))
  }

  function Warped1(): Node {
    Node(1, Some(AddDigits(1)), Ops180, 2, Some(Root180()), None, Some(Portals180))
  }

  function Appended11(): Node {
    Node(11, Some(AddDigits(1)), Ops180, 1, Some(Warped1()), None, Some(Portals180))
  }

  function Summed10(): Node {
    Node(10, Some(SumX(-1)), Ops180, 0, Some(Appended11()), None, Some(Portals180))
  }

  lemma Walk180Sum()
    ensures Walk(Appended11(), [1]) == Some(Summed10())
  {
    assert [1] + [] == [1];
    ShortUnwarped(10);
    Press(Appended11(), 1, 10, 10);
    WalkCons(Appended11(), 1, [], Summed10());
  }

  lemma Walk180Append()
    ensures Walk(Warped1(), [0, 1]) == Some(Summed10())
  {
    assert [0] + [1] == [0, 1];
    Appended991();
    ShortUnwarped(11);
    Press(Warped1(), 0, 11, 11);
    Walk180Sum();
    WalkCons(Warped1(), 0, [1], Appended11());
  }

  /** The path of the test: add digit 1 (991 warps to 1), add digit 1, sum with -1. */
  lemma Path180()
    ensures Walk(Root(99, Ops180, 3, Some(Portals180)), [0, 0, 1]) == Some(Summed10())
    ensures IsSolution(Summed10(), 10)
    ensures PathNames(Summed10()) == ["Add digit 1", "Add digit 1", "sum with -1"]
  {
    assert [0] + [0, 1] == [0, 0, 1];
    Appended991();
    Warped991();
    Press(Root180(), 0, 991, 1);
    Walk180Append();
    WalkCons(Root180(), 0, [0, 1], Warped1());
    Names180(Root180(), Warped1(), Appended11(), Summed10());
  }

  lemma Names180(n0: Node, n1: Node, n2: Node, n3: Node)
    requires n0.currentOp.None?
    requires n1.currentOp == Some(AddDigits(1)) && n1.parent == Some(n0)
    requires n2.currentOp == Some(AddDigits(1)) && n2.parent == Some(n1)
    requires n3.currentOp == Some(SumX(-1)) && n3.parent == Some(n2)
    ensures PathNames(n3) == ["Add digit 1", "Add digit 1", "sum with -1"]
  {
    assert Name(AddDigits(1)) == "Add digit 1" by { assert Str(1) == "1"; }
    assert Name(SumX(-1)) == "sum with -1" by { assert Str(-1) == "-1"; }
    NameStep(n1);
    NameStep(n2);
    NameStep(n3);
  }

  /** 111 warps to 12: the high "1" is added onto the low "11". */
  lemma Warped111()
    ensures Warped(Root180(), 111) == Ok(12)
  {
    WarpPass111();
    KnownValues.WarpStep(111, 2, 0, 12);
    ShortUnwarped(12);
  }

  lemma Text111()
    ensures NatStr(111) == "111"
  {
    assert NatStr(1) == "1";
    KnownValues.NatStrSnoc(11, "1", "11");
    KnownValues.NatStrSnoc(111, "11", "111");
  }

  lemma WarpPass111()
    ensures DigitOps.WarpPass(111, 2, 0) == Ok(12)
  {
    Text111();
    DigitOps.WarpPassSplit(111, 2, 0, "1", "11");
    KnownValues.ValueOf(11, "11");
    KnownValues.SumSnoc("", "1", '1');
  }

  lemma Appended111()
    ensures Apply(AddDigits(1), 11) == Ok(111)
  {
    DigitOps.AddDigitsValue(11, 1);
  }

  /** From 11 with one move left: adding a digit gives 111, which warps to
      12 and misses. */
  lemma First180From11(n: Node)
    requires n.value == 11 && n.availableOps == Ops180 && n.remainingMoves == 1 && n.warp == Some(Portals180)
    ensures forall j :: 0 <= j < 1 && CreateChild(n, j).Ok? ==>
      Expand(CreateChild(n, j).value).Ok? && Find(Expand(CreateChild(n, j).value).value, 10).None?
  {
    Appended111();
    Warped111();
    Press(n, 0, 111, 12);
    Leaf(CreateChild(n, 0).value);
  }

  /** From 11, sum with -1 then reaches 10. */
  lemma Find180From11(n: Node)
    requires n.value == 11 && n.availableOps == Ops180 && n.remainingMoves == 1 && n.warp == Some(Portals180)
    ensures Expand(n).Ok?
    ensures Find(Expand(n).value, 10) == Some(Node(10, Some(SumX(-1)), Ops180, 0, Some(n), n.memory, n.warp))
  {
    NoDivision180();
    ExpandNoZeroDivision(n);
    First180From11(n);
    ShortUnwarped(10);
    Press(n, 1, 10, 10);
    Leaf(CreateChild(n, 1).value);
    FindAtButton(n, 10, 1);
  }

  lemma Find180From1(n: Node)
    requires n.value == 1 && n.availableOps == Ops180 && n.remainingMoves == 2 && n.warp == Some(Portals180)
    ensures Expand(n).Ok?
    ensures var c := Node(11, Some(AddDigits(1)), Ops180, 1, Some(n), n.memory, n.warp);
      Find(Expand(n).value, 10) == Some(Node(10, Some(SumX(-1)), Ops180, 0, Some(c), n.memory, n.warp))
  {
    NoDivision180();
    ExpandNoZeroDivision(n);
    Appended991();
    ShortUnwarped(11);
    Press(n, 0, 11, 11);
    Find180From11(CreateChild(n, 0).value);
    FindAtButton(n, 10, 0);
  }

  lemma Find180From99(n: Node)
    requires n.value == 99 && n.availableOps == Ops180 && n.remainingMoves == 3 && n.warp == Some(Portals180)
    ensures Expand(n).Ok?
    ensures var c := Node(1, Some(AddDigits(1)), Ops180, 2, Some(n), n.memory, n.warp);
      var d := Node(11, Some(AddDigits(1)), Ops180, 1, Some(c), n.memory, n.warp);
      Find(Expand(n).value, 10) == Some(Node(10, Some(SumX(-1)), Ops180, 0, Some(d), n.memory, n.warp))
  {
    NoDivision180();
    ExpandNoZeroDivision(n);
    Appended991();
    Warped991();
    Press(n, 0, 991, 1);
    Find180From1(CreateChild(n, 0).value);
    FindAtButton(n, 10, 0);
  }

  /** The search of level 180 goes down the first button twice, then passes
      over the leaf 12 to the leaf 10. */
  lemma Find180()
    ensures Expand(Root180()).Ok?
    ensures Find(Expand(Root180()).value, 10) == Some(Summed10())
  {
    Find180From99(Root180());
  }

  /** The test of level 180: add digit 1, add digit 1, sum with -1. */
  lemma Level180()
    ensures Solution(99, 10, 3, Ops180, Some(Portals180)) == Ok(["Add digit 1", "Add digit 1", "sum with -1"])
  {
    Find180();
    Path180();
  }

  lemma NoDivision180()
    ensures NoDivision(Ops180)
  {
  }

  // ---------------------------------------------------------------------
  // Level 149: from 15 to 16 in four moves, with the memory buttons

  const Ops149: seq<Op> := [SumDigits, Replace("11", "33"), Reverse, StorageAction, RetrieveAction]

  lemma Reverse15()
    ensures Apply(Reverse, 15) == Ok(51)
  {
    assert NatStr(15) == "15" && NatStr(51) == "51";
    KnownValues.ReversedTwo('1', '5');
    KnownValues.ReverseOf(15, "51", 51);
    ApplyReverse(15, 51);
  }

  /** A reversal of a positive number that changes it is accepted. */
  lemma ApplyReverse(m: nat, v: nat)
    requires DigitOps.ReverseAbs(m) == v && v != m
    ensures Apply(Reverse, m) == Ok(v)
  {
    ApplyIsChecked(Reverse, m);
  }

  lemma Retrieve15()
    ensures DigitOps.AddDigits(51, Some(15)) == Ok(5115)
  {
    DigitOps.AddDigitsValue(51, 15);
    assert Str(15) == "15";
  }

  lemma Replace5115()
    ensures Apply(Replace("11", "33"), 5115) == Ok(5335)
  {
    KnownValues.Text5115();
    ReplaceText5115();
    KnownValues.Text5335();
    KnownValues.StrOf(5335, "5335");
    assert DigitOps.Replace(5115, "11", "33") == Ok(5335);
    ApplyIsChecked(Replace("11", "33"), 5115);
  }

  lemma ReplaceText5115()
    ensures DigitOps.ReplaceAll("5115", "11", "33") == "5335"
  {
    assert DigitOps.ReplaceAll("5", "11", "33") == "5";
    assert DigitOps.ReplaceAll("115", "11", "33") == "335";
  }

  lemma Sum5335()
    ensures Apply(SumDigits, 5335) == Ok(16)
  {
    KnownValues.Text5335();
    KnownValues.SumSnoc("", "5", '5');
    KnownValues.SumSnoc("5", "53", '3');
    KnownValues.SumSnoc("53", "533", '3');
    KnownValues.SumSnoc("533", "5335", '5');
    assert DigitOps.SumDigits(5335) == 16;
    ApplyIsChecked(SumDigits, 5335);
  }

  function Root149(): Node {
    Root(15, Ops149, 4, None)
  }

  function Stored15(): Node {
    Node(15, Some(StorageAction), Ops149, 4, Some(Root149()), Some(15), None)
  }

  function Reversed51(): Node {
    Node(51, Some(Reverse), Ops149, 3, Some(Stored15()), Some(15), None)
  }

  function Retrieved5115(): Node {
    Node(5115, Some(RetrieveAction), Ops149, 2, Some(Reversed51()), Some(15), None)
  }

  function Replaced5335(): Node {
    Node(5335, Some(Replace("11", "33")), Ops149, 1, Some(Retrieved5115()), Some(15), None)
  }

  function Summed16(): Node {
    Node(16, Some(SumDigits), Ops149, 0, Some(Replaced5335()), Some(15), None)
  }

  function Buttons149(): seq<nat> {
    [3, 2, 4, 1, 0]
  }

  /** The walk from each node of the path to its end, last press first. */
  lemma Walk149Sum()
    ensures Walk(Replaced5335(), [0]) == Some(Summed16())
  {
    assert [0] + [] == [0];
    Sum5335();
    Press(Replaced5335(), 0, 16, 16);
    WalkCons(Replaced5335(), 0, [], Summed16());
  }

  lemma Walk149Replace()
    ensures Walk(Retrieved5115(), [1, 0]) == Some(Summed16())
  {
    assert [1] + [0] == [1, 0];
    Replace5115();
    Press(Retrieved5115(), 1, 5335, 5335);
    Walk149Sum();
    WalkCons(Retrieved5115(), 1, [0], Replaced5335());
  }

  lemma Walk149Retrieve()
    ensures Walk(Reversed51(), [4, 1, 0]) == Some(Summed16())
  {
    assert [4] + [1, 0] == [4, 1, 0];
    Retrieve15();
    PressRetrieve(Reversed51(), 4, 5115);
    Walk149Replace();
    WalkCons(Reversed51(), 4, [1, 0], Retrieved5115());
  }

  lemma Walk149Reverse()
    ensures Walk(Stored15(), [2, 4, 1, 0]) == Some(Summed16())
  {
    assert [2] + [4, 1, 0] == [2, 4, 1, 0];
    PressReverse149(Stored15());
    Walk149Retrieve();
    WalkCons(Stored15(), 2, [4, 1, 0], Reversed51());
  }

  lemma PressReverse149(n: Node)
    requires n.value == 15 && n.availableOps == Ops149 && n.warp.None?
    ensures CreateChild(n, 2) == Ok(Node(51, Some(Reverse), Ops149, n.remainingMoves - 1, Some(n), n.memory, None))
  {
    Reverse15();
    Press(n, 2, 51, 51);
  }

  lemma Walk149()
    ensures Walk(Root149(), Buttons149()) == Some(Summed16())
  {
    assert [3] + [2, 4, 1, 0] == Buttons149();
    PressStore(Root149(), 3);
    Walk149Reverse();
    WalkCons(Root149(), 3, [2, 4, 1, 0], Stored15());
  }

  /** The path of the test: Store, reverse, Retrieve, Replace 11 with 33, Sum. */
  lemma Path149()
    ensures Walk(Root149(), Buttons149()) == Some(Summed16())
    ensures IsSolution(Summed16(), 16)
    ensures PathNames(Summed16()) == ["Store", "reverse", "Retrieve", "Replace 11 with 33", "Sum"]
  {
    Walk149();
    Names149At5();
  }

  lemma ReplaceName149()
    ensures Name(Replace("11", "33")) == "Replace 11 with 33"
  {
  }

  lemma Names149At1()
    ensures PathNames(Stored15()) == ["Store"]
  {
    assert PathNames(Root149()) == [];
    NameAfter(Stored15(), [], "Store");
  }

  lemma Names149At2()
    ensures PathNames(Reversed51()) == ["Store", "reverse"]
  {
    assert ["Store"] + ["reverse"] == ["Store", "reverse"];
    Names149At1();
    NameAfter(Reversed51(), ["Store"], "reverse");
  }

  lemma Names149At3()
    ensures PathNames(Retrieved5115()) == ["Store", "reverse", "Retrieve"]
  {
    assert ["Store", "reverse"] + ["Retrieve"] == ["Store", "reverse", "Retrieve"];
    Names149At2();
    NameAfter(Retrieved5115(), ["Store", "reverse"], "Retrieve");
  }

  lemma Names149At4()
    ensures PathNames(Replaced5335()) == ["Store", "reverse", "Retrieve", "Replace 11 with 33"]
  {
    assert ["Store", "reverse", "Retrieve"] + ["Replace 11 with 33"] == ["Store", "reverse", "Retrieve", "Replace 11 with 33"];
    Names149At3();
    ReplaceName149();
    NameAfter(Replaced5335(), ["Store", "reverse", "Retrieve"], "Replace 11 with 33");
  }

  lemma Names149At5()
    ensures PathNames(Summed16()) == ["Store", "reverse", "Retrieve", "Replace 11 with 33", "Sum"]
  {
    assert ["Store", "reverse", "Retrieve", "Replace 11 with 33"] + ["Sum"] == ["Store", "reverse", "Retrieve", "Replace 11 with 33", "Sum"];
    Names149At4();
    NameAfter(Summed16(), ["Store", "reverse", "Retrieve", "Replace 11 with 33"], "Sum");
  }

  lemma Level149()
    ensures Solution(15, 16, 4, Ops149, None).Ok?
    ensures var s := Find(Expand(Root(15, Ops149, 4, None)).value, 16);
      s.Some? && MovesSpent(PathOps(s.value)) == 4
  {
    Reached149();
    Solved(15, 16, 4, Ops149, None, Buttons149());
  }

  lemma Reached149()
    ensures NoDivision(Ops149)
    ensures Walk(Root(15, Ops149, 4, None), Buttons149()) == Some(Summed16())
    ensures IsSolution(Summed16(), 16)
  {
    NoDivision149();
    Walk149();
    assert Root(15, Ops149, 4, None) == Root149();
  }

  lemma NoDivision149()
    ensures NoDivision(Ops149)
  {
  }

  // ---------------------------------------------------------------------
  // Level 127: from -1 to 2020 in eight moves

  const Ops127: seq<Op> := [MultiplyX(3), SumX(2), SumX(8), Mirror, Reverse]

  function Root127(): Node {
    Root(-1, Ops127, 8, None)
  }

  function Summed7(): Node {
    Node(7, Some(SumX(8)), Ops127, 7, Some(Root127()), None, None)
  }
  function Multiplied21(): Node {
    Node(21, Some(MultiplyX(3)), Ops127, 6, Some(Summed7()), None, None)
  }
  function Reversed12(): Node {
    Node(12, Some(Reverse), Ops127, 5, Some(Multiplied21()), None, None)
  }
  function Summed20(): Node {
    Node(20, Some(SumX(8)), Ops127, 4, Some(Reversed12()), None, None)
  }
  function Mirrored2002(): Node {
    Node(2002, Some(Mirror), Ops127, 3, Some(Summed20()), None, None)
  }
  function Summed2004(): Node {
    Node(2004, Some(SumX(2)), Ops127, 2, Some(Mirrored2002()), None, None)
  }
  function Summed2012(): Node {
    Node(2012, Some(SumX(8)), Ops127, 1, Some(Summed2004()), None, None)
  }
  function Summed2020(): Node {
    Node(2020, Some(SumX(8)), Ops127, 0, Some(Summed2012()), None, None)
  }
  function Buttons127(): seq<nat> {
    [2, 0, 4, 2, 3, 1, 2, 2]
  }

  lemma Reverse21()
    ensures Apply(Reverse, 21) == Ok(12)
  {
    assert NatStr(21) == "21" && NatStr(12) == "12";
    KnownValues.ReversedTwo('2', '1');
    KnownValues.ReverseOf(21, "12", 12);
    ApplyReverse(21, 12);
  }

  lemma Mirror20()
    ensures Apply(Mirror, 20) == Ok(2002)
  {
    KnownValues.MirrorAbs20();
    MirrorAccepted(20, 2002);
  }

  /** A mirror of a positive number that changes it is accepted. */
  lemma MirrorAccepted(m: nat, v: nat)
    requires DigitOps.MirrorAbs(m) == Ok(v) && v != m
    ensures Apply(Mirror, m) == Ok(v)
  {
    MirrorOfAbs(m, v);
    ApplyIsChecked(Mirror, m);
  }

  /** The sign decorator on a positive number passes the result through. */
  lemma MirrorOfAbs(m: nat, v: nat)
    requires DigitOps.MirrorAbs(m) == Ok(v)
    ensures DigitOps.Mirror(m) == Ok(v)
  {
    assert Abs(m) == m;
  }

  lemma PressReverse(n: Node)
    requires n.value == 21 && n.availableOps == Ops127 && n.warp.None?
    ensures CreateChild(n, 4) == Ok(Node(12, Some(Reverse), Ops127, n.remainingMoves - 1, Some(n), n.memory, None))
  {
    Reverse21();
    Press(n, 4, 12, 12);
  }

  lemma PressMirror(n: Node)
    requires n.value == 20 && n.availableOps == Ops127 && n.warp.None?
    ensures CreateChild(n, 3) == Ok(Node(2002, Some(Mirror), Ops127, n.remainingMoves - 1, Some(n), n.memory, None))
  {
    Mirror20();
    Press(n, 3, 2002, 2002);
  }

  lemma Walk127From7()
    ensures Walk(Summed2012(), [2]) == Some(Summed2020())
  {
    assert [2] + [] == [2];
    Press(Summed2012(), 2, 2020, 2020);
    WalkCons(Summed2012(), 2, [], Summed2020());
  }

  lemma Walk127From6()
    ensures Walk(Summed2004(), [2, 2]) == Some(Summed2020())
  {
    assert [2] + [2] == [2, 2];
    Press(Summed2004(), 2, 2012, 2012);
    Walk127From7();
    WalkCons(Summed2004(), 2, [2], Summed2012());
  }

  lemma Walk127From5()
    ensures Walk(Mirrored2002(), [1, 2, 2]) == Some(Summed2020())
  {
    assert [1] + [2, 2] == [1, 2, 2];
    Press(Mirrored2002(), 1, 2004, 2004);
    Walk127From6();
    WalkCons(Mirrored2002(), 1, [2, 2], Summed2004());
  }

  lemma Walk127From4()
    ensures Walk(Summed20(), [3, 1, 2, 2]) == Some(Summed2020())
  {
    assert [3] + [1, 2, 2] == [3, 1, 2, 2];
    PressMirror(Summed20());
    Walk127From5();
    WalkCons(Summed20(), 3, [1, 2, 2], Mirrored2002());
  }

  lemma Walk127From3()
    ensures Walk(Reversed12(), [2, 3, 1, 2, 2]) == Some(Summed2020())
  {
    assert [2] + [3, 1, 2, 2] == [2, 3, 1, 2, 2];
    Press(Reversed12(), 2, 20, 20);
    Walk127From4();
    WalkCons(Reversed12(), 2, [3, 1, 2, 2], Summed20());
  }

  lemma Walk127From2()
    ensures Walk(Multiplied21(), [4, 2, 3, 1, 2, 2]) == Some(Summed2020())
  {
    assert [4] + [2, 3, 1, 2, 2] == [4, 2, 3, 1, 2, 2];
    PressReverse(Multiplied21());
    Walk127From3();
    WalkCons(Multiplied21(), 4, [2, 3, 1, 2, 2], Reversed12());
  }

  lemma Walk127From1()
    ensures Walk(Summed7(), [0, 4, 2, 3, 1, 2, 2]) == Some(Summed2020())
  {
    assert [0] + [4, 2, 3, 1, 2, 2] == [0, 4, 2, 3, 1, 2, 2];
    Press(Summed7(), 0, 21, 21);
    Walk127From2();
    WalkCons(Summed7(), 0, [4, 2, 3, 1, 2, 2], Multiplied21());
  }

  /** The test's path: the whole walk from -1 to 2020. */
  lemma Walk127()
    ensures Walk(Root127(), Buttons127()) == Some(Summed2020())
  {
    assert [2] + [0, 4, 2, 3, 1, 2, 2] == Buttons127();
    Press(Root127(), 2, 7, 7);
    Walk127From1();
    WalkCons(Root127(), 2, [0, 4, 2, 3, 1, 2, 2], Summed7());
  }

  lemma ButtonNames127()
    ensures Name(SumX(8)) == "sum with 8"
    ensures Name(SumX(2)) == "sum with 2"
    ensures Name(MultiplyX(3)) == "multiply by 3"
    ensures Name(Reverse) == "reverse" && Name(Mirror) == "mirror"
  {
    assert Str(8) == "8" && Str(2) == "2" && Str(3) == "3";
  }

  /** One more name on a path whose earlier names are known. */
  lemma NameAfter(n: Node, names: seq<string>, name: string)
    requires n.currentOp.Some? && n.parent.Some?
    requires PathNames(n.parent.value) == names && Name(n.currentOp.value) == name
    ensures PathNames(n) == names + [name]
  {
    NameStep(n);
  }

  lemma Names127At1()
    ensures PathNames(Summed7()) == ["sum with 8"]
  {
    ButtonNames127();
    NameAfter(Summed7(), [], "sum with 8");
    assert PathNames(Root127()) == [];
  }

  lemma Names127At2()
    ensures PathNames(Multiplied21()) == ["sum with 8", "multiply by 3"]
  {
    assert ["sum with 8"] + ["multiply by 3"] == ["sum with 8", "multiply by 3"];
    ButtonNames127();
    Names127At1();
    NameAfter(Multiplied21(), ["sum with 8"], "multiply by 3");
  }

  lemma Names127At3()
    ensures PathNames(Reversed12()) == ["sum with 8", "multiply by 3", "reverse"]
  {
    assert ["sum with 8", "multiply by 3"] + ["reverse"] == ["sum with 8", "multiply by 3", "reverse"];
    ButtonNames127();
    Names127At2();
    NameAfter(Reversed12(), ["sum with 8", "multiply by 3"], "reverse");
  }

  lemma Names127At4()
    ensures PathNames(Summed20()) == ["sum with 8", "multiply by 3", "reverse", "sum with 8"]
  {
    assert ["sum with 8", "multiply by 3", "reverse"] + ["sum with 8"] == ["sum with 8", "multiply by 3", "reverse", "sum with 8"];
    ButtonNames127();
    Names127At3();
    NameAfter(Summed20(), ["sum with 8", "multiply by 3", "reverse"], "sum with 8");
  }

  lemma Names127At5()
    ensures PathNames(Mirrored2002()) == ["sum with 8", "multiply by 3", "reverse", "sum with 8", "mirror"]
  {
    assert ["sum with 8", "multiply by 3", "reverse", "sum with 8"] + ["mirror"] == ["sum with 8", "multiply by 3", "reverse", "sum with 8", "mirror"];
    ButtonNames127();
    Names127At4();
    NameAfter(Mirrored2002(), ["sum with 8", "multiply by 3", "reverse", "sum with 8"], "mirror");
  }

  lemma Names127At6()
    ensures PathNames(Summed2004()) == ["sum with 8", "multiply by 3", "reverse", "sum with 8", "mirror", "sum with 2"]
  {
    assert ["sum with 8", "multiply by 3", "reverse", "sum with 8", "mirror"] + ["sum with 2"] == ["sum with 8", "multiply by 3", "reverse", "sum with 8", "mirror", "sum with 2"];
    ButtonNames127();
    Names127At5();
    NameAfter(Summed2004(), ["sum with 8", "multiply by 3", "reverse", "sum with 8", "mirror"], "sum with 2");
  }

  lemma Names127At7()
    ensures PathNames(Summed2012()) == ["sum with 8", "multiply by 3", "reverse", "sum with 8", "mirror", "sum with 2", "sum with 8"]
  {
    assert ["sum with 8", "multiply by 3", "reverse", "sum with 8", "mirror", "sum with 2"] + ["sum with 8"] == ["sum with 8", "multiply by 3", "reverse", "sum with 8", "mirror", "sum with 2", "sum with 8"];
    ButtonNames127();
    Names127At6();
    NameAfter(Summed2012(), ["sum with 8", "multiply by 3", "reverse", "sum with 8", "mirror", "sum with 2"], "sum with 8");
  }

  lemma Names127At8()
    ensures PathNames(Summed2020()) == ["sum with 8", "multiply by 3", "reverse", "sum with 8", "mirror", "sum with 2", "sum with 8", "sum with 8"]
  {
    assert ["sum with 8", "multiply by 3", "reverse", "sum with 8", "mirror", "sum with 2", "sum with 8"] + ["sum with 8"] == ["sum with 8", "multiply by 3", "reverse", "sum with 8", "mirror", "sum with 2", "sum with 8", "sum with 8"];
    ButtonNames127();
    Names127At7();
    NameAfter(Summed2020(), ["sum with 8", "multiply by 3", "reverse", "sum with 8", "mirror", "sum with 2", "sum with 8"], "sum with 8");
  }

  lemma Level127()
    ensures Solution(-1, 2020, 8, Ops127, None).Ok?
    ensures var s := Find(Expand(Root(-1, Ops127, 8, None)).value, 2020);
      s.Some? && MovesSpent(PathOps(s.value)) == 8
  {
    Reached127();
    Solved(-1, 2020, 8, Ops127, None, Buttons127());
  }

  lemma NoDivision127()
    ensures NoDivision(Ops127)
  {
  }

  lemma Reached127()
    ensures NoDivision(Ops127)
    ensures Walk(Root(-1, Ops127, 8, None), Buttons127()) == Some(Summed2020())
    ensures IsSolution(Summed2020(), 2020)
  {
    NoDivision127();
    Walk127();
    assert Root(-1, Ops127, 8, None) == Root127();
  }

  /** The path of the test, whose last press reaches 2020, with its names. */
  lemma Path127()
    ensures Walk(Root127(), Buttons127()) == Some(Summed2020())
    ensures IsSolution(Summed2020(), 2020)
    ensures PathNames(Summed2020()) == ["sum with 8", "multiply by 3", "reverse", "sum with 8", "mirror", "sum with 2", "sum with 8", "sum with 8"]
  {
    Walk127();
    Names127At8();
  }

  // ---------------------------------------------------------------------
  // apply_operations with a meta-button among the operations

  /** A "sum with 4" button and a [+]9 meta-button built over it. */
  function SharedObjects(): Buttons {
    Buttons([SumX(4), ModifyButtonsAddValue(9)], [[], [0]])
  }

  /** Pressing the meta-button first raises the sum button before its own
      turn: from 20 the pairs are 20 and then 33, and the sum button is left
      at "sum with 13". */
  lemma ApplyOperationsShared()
    ensures ValidButtons(SharedObjects()) && Within([1, 0], 2)
    ensures Gather(Attempted(SharedObjects(), 20, [], [1, 0])) == Ok([(20, [1]), (33, [0])])
    ensures StateAt(SharedObjects(), [1, 0], 2) == [SumX(13), ModifyButtonsAddValue(9)]
  {
    var b, ops, none: seq<nat> := SharedObjects(), [1, 0], [];
    SharedStates();
    AttemptOk(b, 20, none, ops, 0, ModifyButtonsAddValue(9), 20);
    AttemptOk(b, 20, none, ops, 1, SumX(13), 33);
    assert none + [ops[0]] == [1] && none + [ops[1]] == [0];
    GatherAllOk(Attempted(b, 20, none, ops), [(20, [1]), (33, [0])]);
  }

  lemma SharedStates()
    ensures ValidButtons(SharedObjects()) && Within([1, 0], 2)
    ensures StateAt(SharedObjects(), [1, 0], 0)[1] == ModifyButtonsAddValue(9)
    ensures StateAt(SharedObjects(), [1, 0], 1)[0] == SumX(13)
    ensures StateAt(SharedObjects(), [1, 0], 2) == [SumX(13), ModifyButtonsAddValue(9)]
  {
    var b, ops := SharedObjects(), [1, 0];
    assert multiset([0])[0] == 1 && multiset([0])[1] == 0;
    assert Raised(b, ops, 1, 0) == 9 && Raised(b, ops, 1, 1) == 0;
    assert Raised(b, ops, 2, 0) == 9 && Raised(b, ops, 2, 1) == 0;
  }

  /** The buttons of level 139, the meta-button built over the other three. */
  function Objects139(): Buttons {
    Buttons([MultiplyX(3), SumX(4), SumX(8), ModifyButtonsAddValue(2)], [[], [], [], [0, 1, 2]])
  }

  /** `apply_operations` over the list of level 139, from 5: the meta-button
      comes last, so the pairs hold the values of the original parameters,
      but afterwards the objects of those pairs read "multiply by 5", "sum
      with 6" and "sum with 10". */
  lemma ApplyOperations139()
    ensures ValidButtons(Objects139()) && Within([0, 1, 2, 3], 4)
    ensures Gather(Attempted(Objects139(), 5, [], [0, 1, 2, 3])) ==
      Ok([(15, [0]), (9, [1]), (13, [2]), (5, [3])])
    ensures var s := StateAt(Objects139(), [0, 1, 2, 3], 4);
      |s| == 4 && s[0] == MultiplyX(5) && s[1] == SumX(6) && s[2] == SumX(10) && s[3] == ModifyButtonsAddValue(2)
    ensures Name(StateAt(Objects139(), [0, 1, 2, 3], 4)[0]) == "multiply by 5"
  {
    assert Name(MultiplyX(5)) == "multiply by 5" by { assert Str(5) == "5"; }
    Pairs139();
    After139();
  }

  lemma Pairs139()
    ensures ValidButtons(Objects139()) && Within([0, 1, 2, 3], 4)
    ensures Gather(Attempted(Objects139(), 5, [], [0, 1, 2, 3])) ==
      Ok([(15, [0]), (9, [1]), (13, [2]), (5, [3])])
  {
    FirstAttempts139();
    LastAttempts139();
    GatherAllOk(Attempted(Objects139(), 5, [], [0, 1, 2, 3]), [(15, [0]), (9, [1]), (13, [2]), (5, [3])]);
  }

  /** Until the meta-button, last in the list, is pressed, no object has
      changed. */
  lemma FirstAttempts139()
    ensures ValidButtons(Objects139()) && Within([0, 1, 2, 3], 4)
    ensures var rs := Attempted(Objects139(), 5, [], [0, 1, 2, 3]);
      rs[0] == Ok((15, [0])) && rs[1] == Ok((9, [1]))
  {
    var b, ops, none: seq<nat> := Objects139(), [0, 1, 2, 3], [];
    assert Apply(MultiplyX(3), 5) == Ok(15) && Apply(SumX(4), 5) == Ok(9);
    AttemptAsGiven(b, 5, none, ops, 0, 15);
    AttemptAsGiven(b, 5, none, ops, 1, 9);
    assert none + [0] == [0] && none + [1] == [1];
  }

  lemma LastAttempts139()
    ensures ValidButtons(Objects139()) && Within([0, 1, 2, 3], 4)
    ensures var rs := Attempted(Objects139(), 5, [], [0, 1, 2, 3]);
      rs[2] == Ok((13, [2])) && rs[3] == Ok((5, [3]))
  {
    var b, ops, none: seq<nat> := Objects139(), [0, 1, 2, 3], [];
    assert Apply(SumX(8), 5) == Ok(13);
    AttemptAsGiven(b, 5, none, ops, 2, 13);
    AttemptAsGiven(b, 5, none, ops, 3, 5);
    assert none + [2] == [2] && none + [3] == [3];
  }

  /** Once the meta-button is pressed, the three others are raised by 2. */
  lemma After139()
    ensures ValidButtons(Objects139()) && Within([0, 1, 2, 3], 4)
    ensures var s := StateAt(Objects139(), [0, 1, 2, 3], 4);
      |s| == 4 && s[0] == MultiplyX(5) && s[1] == SumX(6) && s[2] == SumX(10) && s[3] == ModifyButtonsAddValue(2)
  {
    Raised139(0);
    Raised139(1);
    Raised139(2);
    Raised139(3);
  }

  lemma Raised139(x: nat)
    requires x < 4
    ensures ValidButtons(Objects139()) && Within([0, 1, 2, 3], 4)
    ensures Raised(Objects139(), [0, 1, 2, 3], 4, x) == 2 * multiset{0, 1, 2}[x]
  {
    var ops: seq<nat> := [0, 1, 2, 3];
    assert multiset([0, 1, 2]) == multiset{0, 1, 2};
    NotRaised(Objects139(), ops, 3, x);
  }
}
