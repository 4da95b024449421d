/** The search tree of `solver.py`: nodes holding a value, the buttons still
    available and the moves left; the expansion that tries every button in
    turn; the pre-order search for a node that reaches the target with no
    move left; and the walk back to the root that names the buttons pressed. */
module Solver {
  import opened Wrappers
  import opened Digits
  import opened Errors
  import DigitOps
  import opened Operations

  /** A node of the tree. The list of children is not a field here: the tree
      is the separate `Tree` value that the expansion builds. */
  datatype Node = Node(
    value: int,
    currentOp: Option<Op>,
    availableOps: seq<Op>,
    remainingMoves: int,
    parent: Option<Node>,
    memory: Option<int>,
    warp: Option<ValidWarp>)

  datatype Tree = Tree(node: Node, children: seq<Tree>)

  /** `Node.__init__`: a node that is given no memory takes its parent's. */
  function NewNode(value: int, currentOp: Option<Op>, availableOps: seq<Op>, remainingMoves: int,
                   parent: Option<Node>, memory: Option<int>, warp: Option<ValidWarp>): (n: Node)
    ensures n.value == value && n.currentOp == currentOp && n.availableOps == availableOps
    ensures n.remainingMoves == remainingMoves && n.parent == parent && n.warp == warp
    ensures memory.Some? ==> n.memory == memory
    ensures memory.None? && parent.Some? ==> n.memory == parent.value.memory
    ensures memory.None? && parent.None? ==> n.memory.None?
  {
    var inherited := if parent.Some? && memory.None? then parent.value.memory else memory;
    Node(value, currentOp, availableOps, remainingMoves, parent, inherited, warp)
  }

  /** The root of a level: no operation, no parent, an empty memory. */
  function Root(start: int, ops: seq<Op>, moves: int, warp: Option<ValidWarp>): Node {
    NewNode(start, None, ops, moves, None, None, warp)
  }

  // ---------------------------------------------------------------------
  // One child

  /** The warp of the level, if there is one, applied to a fresh value. */
  function Warped(n: Node, v: int): Result<int, Error> {
    match n.warp
    case None => Ok(v)
    case Some(w) => ApplyWarp(w, v)
  }

  function RemoveAt<T>(s: seq<T>, i: nat): (r: seq<T>)
    requires i < |s|
    ensures |r| == |s| - 1
    ensures forall j :: 0 <= j < i ==> r[j] == s[j]
    ensures forall j :: i <= j < |r| ==> r[j] == s[j + 1]
  {
    s[..i] + s[i + 1..]
  }

  /** The node built for a value before warp; warp failing fails the child. */
  function MakeChild(n: Node, op: Op, value: int, ops: seq<Op>, moves: int, memory: Option<int>): (r: Result<Node, Error>)
    ensures r.Ok? <==> Warped(n, value).Ok?
    ensures r.Ok? ==> r.value.value == Warped(n, value).value && r.value.currentOp == Some(op)
    ensures r.Ok? ==> r.value.availableOps == ops && r.value.remainingMoves == moves
    ensures r.Ok? ==> r.value.parent == Some(n) && r.value.warp == n.warp
    ensures r.Ok? ==> r.value.memory == if memory.Some? then memory else n.memory
  {
    var w :- Warped(n, value);
    Ok(NewNode(w, Some(op), ops, moves, Some(n), memory, n.warp))
  }

  /** `apply_operation_and_create_child` for the button at index `i` of the
      node's list (the button's identity in the list is its index). */
  function CreateChild(n: Node, i: nat): (r: Result<Node, Error>)
    requires i < |n.availableOps|
    ensures r.Ok? ==> r.value.parent == Some(n) && r.value.currentOp == Some(n.availableOps[i])
    ensures r.Ok? ==> r.value.warp == n.warp
    ensures r.Ok? && n.availableOps[i].StorageAction? ==>
      r.value.remainingMoves == n.remainingMoves && n.memory != Some(n.value) &&
      r.value.memory == Some(n.value) && Warped(n, n.value) == Ok(r.value.value)
    ensures r.Ok? && !n.availableOps[i].StorageAction? ==>
      r.value.remainingMoves == n.remainingMoves - 1 && r.value.memory == n.memory
  {
    var op := n.availableOps[i];
    var moves := n.remainingMoves - 1;
    match op
    case ModifyButtonsAddValue(d) =>
      var ops := IncrementAll(RemoveAt(n.availableOps, i), d) + [ModifyButtonsAddValue(d)];
      MakeChild(n, op, n.value, ops, moves, None)
    case StorageAction =>
      if Some(n.value) == n.memory then Err(SameValueStore)
      else MakeChild(n, op, n.value, n.availableOps, n.remainingMoves, Some(n.value))
    case RetrieveAction =>
      var v :- DigitOps.AddDigits(n.value, n.memory);
      MakeChild(n, op, v, n.availableOps, moves, None)
    case _ =>
      var v :- Apply(op, n.value);
      MakeChild(n, op, v, n.availableOps, moves, None)
  }

  /** The rule of each kind of button, as `apply_operation_and_create_child`
      states it, before and after warp. */
  lemma CreateChildRules(n: Node, i: nat)
    requires i < |n.availableOps|
    ensures var op := n.availableOps[i]; var r := CreateChild(n, i);
      && (op.ModifyButtonsAddValue? ==>
            r == MakeChild(n, op, n.value, IncrementAll(RemoveAt(n.availableOps, i), op.delta) + [op],
                           n.remainingMoves - 1, None))
      && (op.StorageAction? && n.memory == Some(n.value) ==> r == Err(SameValueStore))
      && (op.StorageAction? && n.memory != Some(n.value) ==>
            r == MakeChild(n, op, n.value, n.availableOps, n.remainingMoves, Some(n.value)))
      && (op.RetrieveAction? && n.memory.None? ==> r == Err(ParseFailure))
      && (op.RetrieveAction? && DigitOps.AddDigits(n.value, n.memory).Ok? ==>
            r == MakeChild(n, op, DigitOps.AddDigits(n.value, n.memory).value, n.availableOps,
                           n.remainingMoves - 1, None))
      && (!op.ModifyButtonsAddValue? && !op.StorageAction? && !op.RetrieveAction? ==>
            (Apply(op, n.value).Err? ==> r == Err(Apply(op, n.value).error)) &&
            (Apply(op, n.value).Ok? ==>
               r == MakeChild(n, op, Apply(op, n.value).value, n.availableOps, n.remainingMoves - 1, None)))
  {
    var op := n.availableOps[i];
    if op.RetrieveAction? {
      DigitOps.AddDigitsNone(n.value);
    } else if op.ModifyButtonsAddValue? {
      assert CreateChild(n, i) == MakeChild(n, op, n.value,
        IncrementAll(RemoveAt(n.availableOps, i), op.delta) + [op], n.remainingMoves - 1, None);
    }
  }

  // ---------------------------------------------------------------------
  // Termination of the expansion

  /** 0 when a store would be refused, 2 when the value is not yet a fixed
      point of the warp (a store can then change it once more), 1 otherwise. */
  function StoreRank(n: Node): nat {
    if n.memory == Some(n.value) then 0
    else if Warped(n, n.value) != Ok(n.value) then 2
    else 1
  }

  function Measure(n: Node): nat {
    3 * (if n.remainingMoves > 0 then n.remainingMoves else 0) + StoreRank(n)
  }

  /** A warped value is a fixed point of the same warp. */
  lemma WarpedFixed(n: Node, v: int)
    requires Warped(n, v).Ok?
    ensures Warped(n, Warped(n, v).value) == Warped(n, v)
  {
    if n.warp.Some? {
      DigitOps.WarpIdempotent(v, n.warp.value.enterIdx, n.warp.value.exitIdx);
    }
  }

  /** Every child is smaller than its parent: a move is spent, or a store
      makes the value equal to the memory, or the value becomes a warp fixed
      point. So a chain of stores has at most two links. */
  lemma ChildMeasure(n: Node, i: nat)
    requires i < |n.availableOps| && n.remainingMoves > 0
    requires CreateChild(n, i).Ok?
    ensures Measure(CreateChild(n, i).value) < Measure(n)
  {
    var c := CreateChild(n, i).value;
    if n.availableOps[i].StorageAction? {
      if c.value != n.value {
        WarpedFixed(n, n.value);
        assert Warped(c, c.value) == Ok(c.value);
      }
    }
  }

  // ---------------------------------------------------------------------
  // Trying every button in turn

  /** The indices of the attempts that succeeded, in order. */
  ghost function Successes<T>(rs: seq<Result<T, Error>>): (idx: seq<nat>)
    ensures forall k :: 0 <= k < |idx| ==> idx[k] < |rs| && rs[idx[k]].Ok?
    ensures forall k, l :: 0 <= k < l < |idx| ==> idx[k] < idx[l]
    ensures forall j :: 0 <= j < |rs| && rs[j].Ok? ==> j in idx
  {
    if rs == [] then []
    else
      var init := rs[..|rs| - 1];
      assert forall j :: 0 <= j < |init| ==> init[j] == rs[j];
      Successes(init) + (if rs[|rs| - 1].Ok? then [|rs| - 1] else [])
  }

  /** Some attempt raised an error that is not a `ValueError`. */
  ghost predicate Fatal<T>(rs: seq<Result<T, Error>>) {
    exists j :: 0 <= j < |rs| && rs[j].Err? && !IsValueError(rs[j].error)
  }

  /** The `try ... except ValueError: pass` loop of the source over a list of
      attempts: the results that succeed, in order, where a `ValueError`
      skips its attempt and any other error propagates. */
  function Gather<T>(rs: seq<Result<T, Error>>): (r: Result<seq<T>, Error>)
    ensures r.Err? <==> Fatal(rs)
    ensures r.Err? ==> !IsValueError(r.error)
    ensures r.Ok? ==> |r.value| == |Successes(rs)|
    ensures r.Ok? ==> forall k :: 0 <= k < |r.value| ==> rs[Successes(rs)[k]] == Ok(r.value[k])
  {
    if rs == [] then Ok([])
    else
      var init := rs[..|rs| - 1];
      assert forall j :: 0 <= j < |init| ==> init[j] == rs[j];
      var earlier :- Gather(init);
      match rs[|rs| - 1]
      case Ok(c) => Ok(earlier + [c])
      case Err(e) => if IsValueError(e) then Ok(earlier) else Err(e)
  }

  /** One more attempt, as the loop takes it. */
  lemma GatherStep<T>(rs: seq<Result<T, Error>>, i: nat)
    requires i < |rs| && Gather(rs[..i]).Ok?
    ensures rs[i].Ok? ==> Gather(rs[..i + 1]) == Ok(Gather(rs[..i]).value + [rs[i].value])
    ensures rs[i].Err? && IsValueError(rs[i].error) ==> Gather(rs[..i + 1]) == Gather(rs[..i])
    ensures rs[i].Err? && !IsValueError(rs[i].error) ==> Gather(rs[..i + 1]) == Err(rs[i].error)
  {
    assert rs[..i + 1][..i] == rs[..i];
  }

  /** Attempts that all succeed are gathered in full. */
  lemma {:induction false} GatherAllOk<T>(rs: seq<Result<T, Error>>, vs: seq<T>)
    requires |rs| == |vs| && forall j :: 0 <= j < |rs| ==> rs[j] == Ok(vs[j])
    ensures Gather(rs) == Ok(vs)
    decreases |rs|
  {
    if rs != [] {
      var init, vinit := rs[..|rs| - 1], vs[..|vs| - 1];
      GatherAllOk(init, vinit);
      assert vinit + [vs[|vs| - 1]] == vs;
    }
  }

  /** Once an attempt is fatal, the later ones do not matter. */
  lemma {:induction false} GatherFatalPrefix<T>(rs: seq<Result<T, Error>>, i: nat)
    requires i <= |rs| && Gather(rs[..i]).Err?
    ensures Gather(rs) == Gather(rs[..i])
    decreases |rs|
  {
    if i < |rs| {
      var init := rs[..|rs| - 1];
      assert init[..i] == rs[..i];
      GatherFatalPrefix(init, i);
    } else {
      assert rs[..i] == rs;
    }
  }

  // ---------------------------------------------------------------------
  // All children of a node

  /** An attempt at a child for every button of the list, in order. */
  function Attempts(n: Node): (rs: seq<Result<Node, Error>>)
    ensures |rs| == |n.availableOps|
    ensures forall j :: 0 <= j < |rs| ==> rs[j] == CreateChild(n, j)
  {
    seq(|n.availableOps|, j requires 0 <= j < |n.availableOps| => CreateChild(n, j))
  }

  /** The children of a node: one per button that succeeds, in list order; a
      `ValueError` skips the button, any other error ends the expansion; and
      none at all once the moves are used up. */
  function Children(n: Node): Result<seq<Node>, Error> {
    if n.remainingMoves > 0 then Gather(Attempts(n)) else Ok([])
  }

  /** The first half of `create_children`: the loop that appends a child per
      successful button. */
  method CreateChildren(n: Node) returns (r: Result<seq<Node>, Error>)
    ensures r == Children(n)
  {
    if n.remainingMoves <= 0 {
      return Ok([]);
    }
    ghost var rs := Attempts(n);
    var children: seq<Node> := [];
    var i := 0;
    while i < |n.availableOps|
      invariant 0 <= i <= |n.availableOps|
      invariant Gather(rs[..i]) == Ok(children)
    {
      var child := CreateChild(n, i);
      assert child == rs[i];
      GatherStep(rs, i);
      if child.Ok? {
        children := children + [child.value];
      } else if !IsValueError(child.error) {
        GatherFatalPrefix(rs, i + 1);
        return Err(child.error);
      }
      i := i + 1;
    }
    assert rs[..i] == rs;
    r := Ok(children);
  }

  lemma ChildrenDecrease(n: Node)
    requires Children(n).Ok?
    ensures forall k :: 0 <= k < |Children(n).value| ==> Measure(Children(n).value[k]) < Measure(n)
  {
    if n.remainingMoves > 0 {
      var rs := Attempts(n);
      var kids := Children(n).value;
      var idx := Successes(rs);
      forall k | 0 <= k < |kids| ensures Measure(kids[k]) < Measure(n) {
        assert rs[idx[k]] == Ok(kids[k]);
        ChildMeasure(n, idx[k]);
      }
    }
  }

  /** Each child hangs off its node by one button: the parent link, the
      button pressed, and the moves spent. */
  lemma ChildrenLinks(n: Node)
    requires Children(n).Ok?
    ensures forall k :: 0 <= k < |Children(n).value| ==>
      var c := Children(n).value[k];
      && c.parent == Some(n) && c.currentOp.Some? && c.currentOp.value in n.availableOps
      && c.remainingMoves == n.remainingMoves - (if c.currentOp.value.StorageAction? then 0 else 1)
  {
    if n.remainingMoves > 0 {
      var rs := Attempts(n);
      var kids := Children(n).value;
      var idx := Successes(rs);
      forall k | 0 <= k < |kids|
        ensures kids[k].parent == Some(n) && kids[k].currentOp == Some(n.availableOps[idx[k]])
      {
        assert rs[idx[k]] == Ok(kids[k]);
      }
    }
  }

  // ---------------------------------------------------------------------
  // The whole tree

  /** `create_children` with its recursion: the children of the node, then
      each child's subtree in order. The first error that is not a
      `ValueError` ends the whole expansion. */
  function Expand(n: Node): (r: Result<Tree, Error>)
    ensures r.Ok? ==> r.value.node == n
    decreases Measure(n), 1
  {
    var kids :- Children(n);
    ChildrenDecrease(n);
    var subtrees :- ExpandAll(n, kids);
    Ok(Tree(n, subtrees))
  }

  function ExpandAll(parent: Node, kids: seq<Node>): (r: Result<seq<Tree>, Error>)
    requires forall k :: 0 <= k < |kids| ==> Measure(kids[k]) < Measure(parent)
    ensures r.Ok? ==> |r.value| == |kids| && forall k :: 0 <= k < |kids| ==> r.value[k].node == kids[k]
    decreases Measure(parent), 0, |kids|
  {
    if kids == [] then Ok([])
    else
      var earlier :- ExpandAll(parent, kids[..|kids| - 1]);
      var last :- Expand(kids[|kids| - 1]);
      SnocTrees(earlier, last, kids);
      Ok(earlier + [last])
  }

  lemma SnocTrees(earlier: seq<Tree>, last: Tree, kids: seq<Node>)
    requires |kids| >= 1 && |earlier| == |kids| - 1 && last.node == kids[|kids| - 1]
    requires forall k :: 0 <= k < |earlier| ==> earlier[k].node == kids[k]
    ensures |earlier + [last]| == |kids|
    ensures forall k :: 0 <= k < |kids| ==> (earlier + [last])[k].node == kids[k]
  {
  }

  lemma {:induction false} ExpandAllFatalPrefix(parent: Node, kids: seq<Node>, j: nat)
    requires forall k :: 0 <= k < |kids| ==> Measure(kids[k]) < Measure(parent)
    requires j <= |kids| && ExpandAll(parent, kids[..j]).Err?
    ensures ExpandAll(parent, kids) == ExpandAll(parent, kids[..j])
    decreases |kids|
  {
    if j < |kids| {
      var init := kids[..|kids| - 1];
      assert init[..j] == kids[..j];
      ExpandAllFatalPrefix(parent, init, j);
    } else {
      assert kids[..j] == kids;
    }
  }

  /** `create_children` itself: the children loop, then the recursive calls
      on the children in order. */
  method BuildTree(n: Node) returns (r: Result<Tree, Error>)
    ensures r == Expand(n)
    decreases Measure(n), 1
  {
    var kids := CreateChildren(n);
    if kids.Err? {
      ExpandWithoutChildren(n);
      return Err(kids.error);
    }
    ChildrenDecrease(n);
    var children := kids.value;
    var subtrees: seq<Tree> := [];
    var j := 0;
    while j < |children|
      invariant 0 <= j <= |children|
      invariant ExpandAll(n, children[..j]) == Ok(subtrees)
    {
      var t := BuildTree(children[j]);
      if t.Err? {
        ExpandAllFails(n, children, j, t.error);
        ExpandAllFatalPrefix(n, children, j + 1);
        ExpandOfChildren(n, Err(t.error));
        return Err(t.error);
      }
      ExpandAllSucceeds(n, children, j, subtrees, t.value);
      subtrees := subtrees + [t.value];
      j := j + 1;
    }
    assert children[..j] == children;
    ExpandOfChildren(n, Ok(subtrees));
    r := Ok(Tree(n, subtrees));
  }

  /** The first child whose expansion fails ends the expansion of the prefix. */
  lemma ExpandAllFails(n: Node, kids: seq<Node>, j: nat, e: Error)
    requires forall k :: 0 <= k < |kids| ==> Measure(kids[k]) < Measure(n)
    requires j < |kids| && ExpandAll(n, kids[..j]).Ok? && Expand(kids[j]) == Err(e)
    ensures ExpandAll(n, kids[..j + 1]) == Err(e)
  {
    assert kids[..j + 1][..j] == kids[..j];
  }

  lemma ExpandAllSucceeds(n: Node, kids: seq<Node>, j: nat, subs: seq<Tree>, t: Tree)
    requires forall k :: 0 <= k < |kids| ==> Measure(kids[k]) < Measure(n)
    requires j < |kids| && ExpandAll(n, kids[..j]) == Ok(subs) && Expand(kids[j]) == Ok(t)
    ensures ExpandAll(n, kids[..j + 1]) == Ok(subs + [t])
  {
    assert kids[..j + 1][..j] == kids[..j];
  }

  lemma ExpandWithoutChildren(n: Node)
    requires Children(n).Err?
    ensures Expand(n) == Err(Children(n).error)
  {
  }

  /** `expand` once the children are known: it fails exactly when one of
      their expansions fails. */
  lemma ExpandOfChildren(n: Node, r: Result<seq<Tree>, Error>)
    requires Children(n).Ok?
    requires forall k :: 0 <= k < |Children(n).value| ==> Measure(Children(n).value[k]) < Measure(n)
    requires ExpandAll(n, Children(n).value) == r
    ensures Expand(n) == if r.Err? then Err(r.error) else Ok(Tree(n, r.value))
  {
  }

  /** The expansion fails exactly when the children loop raises or the
      expansion of one of the children fails. */
  lemma ExpandFails(n: Node)
    ensures Expand(n).Err? <==>
      Children(n).Err? ||
      exists k :: 0 <= k < |Children(n).value| && Expand(Children(n).value[k]).Err?
  {
    if Children(n).Ok? {
      ChildrenDecrease(n);
      var kids := Children(n).value;
      ExpandAllFailsIff(n, kids);
      ExpandOfChildren(n, ExpandAll(n, kids));
    }
  }

  lemma {:induction false} ExpandAllFailsIff(parent: Node, kids: seq<Node>)
    requires forall k :: 0 <= k < |kids| ==> Measure(kids[k]) < Measure(parent)
    ensures ExpandAll(parent, kids).Err? <==> exists k :: 0 <= k < |kids| && Expand(kids[k]).Err?
    decreases |kids|
  {
    if kids != [] {
      var init := kids[..|kids| - 1];
      ExpandAllFailsIff(parent, init);
      if exists k :: 0 <= k < |init| && Expand(init[k]).Err? {
        var k :| 0 <= k < |init| && Expand(init[k]).Err?;
        assert kids[k] == init[k];
      }
      if exists k :: 0 <= k < |kids| && Expand(kids[k]).Err? {
        var k :| 0 <= k < |kids| && Expand(kids[k]).Err?;
        if k < |init| {
          assert init[k] == kids[k];
        }
      }
    }
  }

  /** What the expansion guarantees: a node with no move left has no child. */
  predicate WellFormed(t: Tree)
    decreases t
  {
    && (t.node.remainingMoves <= 0 ==> t.children == [])
    && forall k :: 0 <= k < |t.children| ==> WellFormed(t.children[k])
  }

  lemma ExpandWellFormed(n: Node)
    requires Expand(n).Ok?
    ensures WellFormed(Expand(n).value)
    decreases Measure(n), 1
  {
    var kids := Children(n).value;
    ChildrenDecrease(n);
    ExpandAllWellFormed(n, kids);
  }

  lemma ExpandAllWellFormed(parent: Node, kids: seq<Node>)
    requires forall k :: 0 <= k < |kids| ==> Measure(kids[k]) < Measure(parent)
    requires ExpandAll(parent, kids).Ok?
    ensures forall k :: 0 <= k < |kids| ==> WellFormed(ExpandAll(parent, kids).value[k])
    decreases Measure(parent), 0, |kids|
  {
    if kids != [] {
      ExpandAllWellFormed(parent, kids[..|kids| - 1]);
      ExpandWellFormed(kids[|kids| - 1]);
    }
  }

  // ---------------------------------------------------------------------
  // find_solution_node_in_tree

  /** The nodes of a tree in pre-order, children in creation order. */
  function PreOrder(t: Tree): (r: seq<Node>)
    ensures |r| >= 1 && r[0] == t.node
    decreases t
  {
    [t.node] + PreOrderAll(t.children)
  }

  function PreOrderAll(ts: seq<Tree>): seq<Node>
    decreases ts
  {
    if ts == [] then [] else PreOrder(ts[0]) + PreOrderAll(ts[1..])
  }

  predicate IsSolution(n: Node, target: int) {
    n.remainingMoves == 0 && n.value == target
  }

  /** The reference: the first solution node of a list of nodes. */
  function FirstSolution(nodes: seq<Node>, target: int): (r: Option<Node>)
    ensures r.None? ==> forall k :: 0 <= k < |nodes| ==> !IsSolution(nodes[k], target)
    ensures r.Some? ==> exists k :: 0 <= k < |nodes| && nodes[k] == r.value && IsSolution(r.value, target) &&
                                   (forall j :: 0 <= j < k ==> !IsSolution(nodes[j], target))
  {
    if nodes == [] then None
    else if IsSolution(nodes[0], target) then Some(nodes[0])
    else
      var r := FirstSolution(nodes[1..], target);
      if r.Some? then
        ghost var k :| 0 <= k < |nodes[1..]| && nodes[1..][k] == r.value && IsSolution(r.value, target) &&
                       (forall j :: 0 <= j < k ==> !IsSolution(nodes[1..][j], target));
        assert nodes[k + 1] == r.value;
        r
      else r
  }

  lemma {:induction false} FirstSolutionConcat(a: seq<Node>, b: seq<Node>, target: int)
    ensures FirstSolution(a + b, target) ==
      (if FirstSolution(a, target).Some? then FirstSolution(a, target) else FirstSolution(b, target))
  {
    if a != [] {
      assert (a + b)[1..] == a[1..] + b;
      FirstSolutionConcat(a[1..], b, target);
    } else {
      assert a + b == b;
    }
  }

  /** `find_solution_node_in_tree`: a node with no move left answers by its
      own value; any other node asks its children in order. */
  function Find(t: Tree, target: int): (r: Option<Node>)
    ensures r.Some? ==> IsSolution(r.value, target)
    decreases t
  {
    if t.node.remainingMoves == 0 then
      if t.node.value == target then Some(t.node) else None
    else FindIn(t.children, target)
  }

  function FindIn(ts: seq<Tree>, target: int): (r: Option<Node>)
    ensures r.Some? ==> IsSolution(r.value, target)
    decreases ts
  {
    if ts == [] then None
    else
      match Find(ts[0], target)
      case Some(x) => Some(x)
      case None => FindIn(ts[1..], target)
  }

  /** On the trees the expansion builds, the search returns the first
      solution in pre-order. */
  lemma FindIsFirst(t: Tree, target: int)
    requires WellFormed(t)
    ensures Find(t, target) == FirstSolution(PreOrder(t), target)
    decreases t
  {
    FirstSolutionConcat([t.node], PreOrderAll(t.children), target);
    if t.node.remainingMoves != 0 {
      FindInIsFirst(t.children, target);
    }
  }

  lemma FindInIsFirst(ts: seq<Tree>, target: int)
    requires forall k :: 0 <= k < |ts| ==> WellFormed(ts[k])
    ensures FindIn(ts, target) == FirstSolution(PreOrderAll(ts), target)
    decreases ts
  {
    if ts != [] {
      FindIsFirst(ts[0], target);
      FindInIsFirst(ts[1..], target);
      FirstSolutionConcat(PreOrder(ts[0]), PreOrderAll(ts[1..]), target);
    }
  }

  // ---------------------------------------------------------------------
  // parse_operations_until_node

  /** The names of the buttons pressed from the root down to `n`, one per
      edge. */
  function PathNames(n: Node): seq<string>
    decreases n
  {
    match n.currentOp
    case None => []
    case Some(op) => PathOf(n.parent) + [Name(op)]
  }

  function PathOf(node: Option<Node>): seq<string>
    decreases node
  {
    match node
    case None => []
    case Some(n) => PathNames(n)
  }

  ghost function Depth(node: Option<Node>): nat
    decreases node
  {
    match node
    case None => 0
    case Some(n) => 1 + Depth(n.parent)
  }

  /** `parse_operations_until_node`: the names collected while walking up the
      parent links, reversed. */
  method ParseOperationsUntilNode(node: Option<Node>) returns (names: seq<string>)
    ensures names == PathOf(node)
  {
    var operations: seq<string> := [];
    var cur := node;
    while cur.Some? && cur.value.currentOp.Some?
      invariant PathOf(node) == PathOf(cur) + Reversed(operations)
      decreases Depth(cur)
    {
      var name := Name(cur.value.currentOp.value);
      PathOfStep(cur.value, operations);
      operations := operations + [name];
      cur := cur.value.parent;
    }
    names := Reversed(operations);
  }

  /** One step up the parent links moves the last name of the path onto the
      collected names. */
  lemma PathOfStep(n: Node, operations: seq<string>)
    requires n.currentOp.Some?
    ensures PathOf(Some(n)) + Reversed(operations)
      == PathOf(n.parent) + Reversed(operations + [Name(n.currentOp.value)])
    ensures Depth(n.parent) < Depth(Some(n))
  {
    ReversedSnoc(operations, Name(n.currentOp.value));
  }

  /** A child's path is its parent's path and the button pressed: the path
      of a node has one name per edge. */
  lemma ChildPath(n: Node, i: nat)
    requires i < |n.availableOps| && CreateChild(n, i).Ok?
    ensures PathNames(CreateChild(n, i).value) == PathNames(n) + [Name(n.availableOps[i])]
  {
  }

  lemma RootPath(start: int, ops: seq<Op>, moves: int, warp: Option<ValidWarp>)
    ensures PathNames(Root(start, ops, moves, warp)) == []
    ensures PathOf(None) == []
  {
  }

  // ---------------------------------------------------------------------
  // Moves along a path

  /** The buttons pressed from the root down to `n`. */
  ghost function PathOps(n: Node): seq<Op>
    decreases n
  {
    match n.currentOp
    case None => []
    case Some(op) => (match n.parent case None => [] case Some(p) => PathOps(p)) + [op]
  }

  /** The moves a list of presses costs: a store is free. */
  ghost function MovesSpent(ops: seq<Op>): nat {
    if ops == [] then 0 else MovesSpent(ops[..|ops| - 1]) + (if ops[|ops| - 1].StorageAction? then 0 else 1)
  }

  /** `x` hangs below `root` by parent links, each link spending the moves of
      its button. */
  ghost predicate Descends(x: Node, root: Node)
    decreases x
  {
    x == root ||
    (x.parent.Some? && x.currentOp.Some? &&
     x.remainingMoves == x.parent.value.remainingMoves - (if x.currentOp.value.StorageAction? then 0 else 1) &&
     Descends(x.parent.value, root))
  }

  lemma {:induction false} DescendsMoves(x: Node, root: Node)
    requires root.currentOp.None? && Descends(x, root)
    ensures x.remainingMoves == root.remainingMoves - MovesSpent(PathOps(x))
    ensures PathNames(x) == seq(|PathOps(x)|, k requires 0 <= k < |PathOps(x)| => Name(PathOps(x)[k]))
    decreases x
  {
    if x != root {
      var p := x.parent.value;
      DescendsMoves(p, root);
      var ops := PathOps(x);
      assert ops[..|ops| - 1] == PathOps(p);
    }
  }

  lemma ExpandDescends(n: Node, root: Node)
    requires Descends(n, root) && Expand(n).Ok?
    ensures forall x :: x in PreOrder(Expand(n).value) ==> Descends(x, root)
    decreases Measure(n), 1
  {
    var kids := Children(n).value;
    ChildrenDecrease(n);
    ChildrenLinks(n);
    ExpandAllDescends(n, kids, root);
  }

  lemma ExpandAllDescends(parent: Node, kids: seq<Node>, root: Node)
    requires forall k :: 0 <= k < |kids| ==> Measure(kids[k]) < Measure(parent)
    requires forall k :: 0 <= k < |kids| ==> Descends(kids[k], root)
    requires ExpandAll(parent, kids).Ok?
    ensures forall x :: x in PreOrderAll(ExpandAll(parent, kids).value) ==> Descends(x, root)
    decreases Measure(parent), 0, |kids|
  {
    if kids != [] {
      var init := kids[..|kids| - 1];
      var earlier := ExpandAll(parent, init).value;
      var last := Expand(kids[|kids| - 1]).value;
      ExpandAllDescends(parent, init, root);
      ExpandDescends(kids[|kids| - 1], root);
      PreOrderAllSnoc(earlier, last);
    }
  }

  lemma {:induction false} PreOrderAllSnoc(ts: seq<Tree>, t: Tree)
    ensures PreOrderAll(ts + [t]) == PreOrderAll(ts) + PreOrder(t)
  {
    if ts == [] {
      assert PreOrderAll([t]) == PreOrder(t) + PreOrderAll([]);
    } else {
      assert (ts + [t])[1..] == ts[1..] + [t];
      PreOrderAllSnoc(ts[1..], t);
    }
  }

  lemma FindInPreOrder(t: Tree, target: int)
    requires WellFormed(t) && Find(t, target).Some?
    ensures Find(t, target).value in PreOrder(t)
  {
    FindIsFirst(t, target);
  }

  /** The subtrees before the k-th that find nothing are passed over. */
  lemma {:induction false} FindInSkips(ts: seq<Tree>, target: int, k: nat)
    requires k <= |ts|
    requires forall j :: 0 <= j < k ==> Find(ts[j], target).None?
    ensures FindIn(ts, target) == FindIn(ts[k..], target)
    decreases k
  {
    if k > 0 {
      assert ts[1..][k - 1..] == ts[k..];
      FindInSkips(ts[1..], target, k - 1);
    } else {
      assert ts[0..] == ts;
    }
  }

  /** The k-th subtree of a built tree is the expansion of the child that
      the k-th successful button gives. */
  lemma SubtreeAt(n: Node, k: nat)
    requires Expand(n).Ok? && n.remainingMoves > 0
    ensures |Expand(n).value.children| == |Successes(Attempts(n))|
    ensures k < |Expand(n).value.children| ==>
      var i := Successes(Attempts(n))[k];
      i < |n.availableOps| && CreateChild(n, i).Ok? &&
      Expand(CreateChild(n, i).value) == Ok(Expand(n).value.children[k])
  {
    var rs := Attempts(n);
    var kids := Children(n).value;
    ChildrenDecrease(n);
    if k < |kids| {
      assert rs[Successes(rs)[k]] == Ok(kids[k]);
      ExpandAllAt(n, kids, k);
    }
  }

  /** The search of a built tree tries the buttons of the root in list
      order: it passes over the buttons that fail and those whose subtree
      holds no solution, and the first button whose subtree holds one
      decides the answer. */
  lemma FindAtButton(n: Node, target: int, i: nat)
    requires Expand(n).Ok? && n.remainingMoves > 0 && i < |n.availableOps|
    requires forall j :: 0 <= j < i && CreateChild(n, j).Ok? ==>
      Expand(CreateChild(n, j).value).Ok? && Find(Expand(CreateChild(n, j).value).value, target).None?
    requires CreateChild(n, i).Ok? && Expand(CreateChild(n, i).value).Ok?
    requires Find(Expand(CreateChild(n, i).value).value, target).Some?
    ensures Find(Expand(n).value, target) == Find(Expand(CreateChild(n, i).value).value, target)
  {
    var idx := Successes(Attempts(n));
    var ts := Expand(n).value.children;
    assert Attempts(n)[i].Ok?;
    var k :| 0 <= k < |idx| && idx[k] == i;
    SubtreeAt(n, k);
    forall j | 0 <= j < k ensures Find(ts[j], target).None? {
      SubtreeAt(n, j);
    }
    FindInSkips(ts, target, k);
  }

  /** A node none of whose buttons leads to a subtree holding a solution
      yields no solution. */
  lemma FindNoneAtNode(n: Node, target: int)
    requires Expand(n).Ok? && n.remainingMoves > 0
    requires forall j :: 0 <= j < |n.availableOps| && CreateChild(n, j).Ok? ==>
      Expand(CreateChild(n, j).value).Ok? && Find(Expand(CreateChild(n, j).value).value, target).None?
    ensures Find(Expand(n).value, target).None?
  {
    var ts := Expand(n).value.children;
    forall j | 0 <= j < |ts| ensures Find(ts[j], target).None? {
      SubtreeAt(n, j);
    }
    FindInSkips(ts, target, |ts|);
  }

  // ---------------------------------------------------------------------
  // The expansion succeeds when no button can divide by zero

  predicate NoDivision(ops: seq<Op>) {
    forall k :: 0 <= k < |ops| ==> !ops[k].DivideX?
  }

  /** No button of the list can ever divide by zero: either there is no
      divide button, or no divisor is 0 and there is no meta-button that
      could raise one to 0. */
  predicate NoZeroDivision(ops: seq<Op>) {
    || NoDivision(ops)
    || ((forall k :: 0 <= k < |ops| ==> ops[k] != DivideX(0)) &&
        (forall k :: 0 <= k < |ops| ==> !ops[k].ModifyButtonsAddValue?))
  }

  /** The only error of one child that is not a `ValueError` is the zero
      division of a divide button. */
  lemma CreateChildFatal(n: Node, i: nat)
    requires i < |n.availableOps|
    requires CreateChild(n, i).Err? && !IsValueError(CreateChild(n, i).error)
    ensures n.availableOps[i] == DivideX(0) && CreateChild(n, i).error == ZeroDivision
  {
    CreateChildRules(n, i);
    var op := n.availableOps[i];
    var moves := n.remainingMoves - 1;
    if op.ModifyButtonsAddValue? {
      MakeChildFatal(n, op, n.value, IncrementAll(RemoveAt(n.availableOps, i), op.delta) + [op], moves, None);
    } else if op.StorageAction? {
      if n.memory != Some(n.value) {
        MakeChildFatal(n, op, n.value, n.availableOps, n.remainingMoves, Some(n.value));
      }
    } else if op.RetrieveAction? {
      var appended := DigitOps.AddDigits(n.value, n.memory);
      if appended.Ok? {
        MakeChildFatal(n, op, appended.value, n.availableOps, moves, None);
      }
    } else if Apply(op, n.value).Ok? {
      MakeChildFatal(n, op, Apply(op, n.value).value, n.availableOps, moves, None);
    } else if op.WarpButton? {
      DigitOps.WarpError(n.value, op.portals.enterIdx, op.portals.exitIdx);
    }
  }

  /** Warp after a button can only fail with a `ValueError`. */
  lemma MakeChildFatal(n: Node, op: Op, v: int, ops: seq<Op>, moves: int, memory: Option<int>)
    requires MakeChild(n, op, v, ops, moves, memory).Err?
    ensures MakeChild(n, op, v, ops, moves, memory).error == ParseFailure
  {
    if n.warp.Some? {
      DigitOps.WarpError(v, n.warp.value.enterIdx, n.warp.value.exitIdx);
    }
  }

  /** The children of a node without divide buttons have none either: the
      meta-button changes parameters, never the kind of a button. */
  lemma ChildNoDivision(n: Node, i: nat)
    requires i < |n.availableOps| && NoDivision(n.availableOps)
    requires CreateChild(n, i).Ok?
    ensures NoDivision(CreateChild(n, i).value.availableOps)
  {
    CreateChildRules(n, i);
    var op := n.availableOps[i];
    if op.ModifyButtonsAddValue? {
      assert NoDivision(IncrementAll(RemoveAt(n.availableOps, i), op.delta) + [op]);
    }
  }

  /** The children of a node whose buttons cannot divide by zero cannot
      either: with a meta-button there is no divide button to raise, and
      without one every child keeps the list. */
  lemma ChildNoZeroDivision(n: Node, i: nat)
    requires i < |n.availableOps| && NoZeroDivision(n.availableOps)
    requires CreateChild(n, i).Ok?
    ensures NoZeroDivision(CreateChild(n, i).value.availableOps)
  {
    if NoDivision(n.availableOps) {
      ChildNoDivision(n, i);
    } else {
      CreateChildRules(n, i);
    }
  }

  lemma ChildrenNoZeroDivision(n: Node)
    requires NoZeroDivision(n.availableOps)
    ensures Children(n).Ok?
    ensures forall k :: 0 <= k < |Children(n).value| ==> NoZeroDivision(Children(n).value[k].availableOps)
  {
    if n.remainingMoves > 0 {
      var rs := Attempts(n);
      if Fatal(rs) {
        var j :| 0 <= j < |rs| && rs[j].Err? && !IsValueError(rs[j].error);
        CreateChildFatal(n, j);
        assert false;
      }
      var kids := Children(n).value;
      var idx := Successes(rs);
      forall k | 0 <= k < |kids| ensures NoZeroDivision(kids[k].availableOps) {
        ChildNoZeroDivision(n, idx[k]);
      }
    }
  }

  /** A level whose buttons cannot divide by zero is searched to the end: the
      expansion never raises. */
  lemma ExpandNoZeroDivision(n: Node)
    requires NoZeroDivision(n.availableOps)
    ensures Expand(n).Ok?
    decreases Measure(n), 1
  {
    ChildrenNoZeroDivision(n);
    ChildrenDecrease(n);
    ExpandAllNoZeroDivision(n, Children(n).value);
  }

  lemma ExpandAllNoZeroDivision(parent: Node, kids: seq<Node>)
    requires forall k :: 0 <= k < |kids| ==> Measure(kids[k]) < Measure(parent)
    requires forall k :: 0 <= k < |kids| ==> NoZeroDivision(kids[k].availableOps)
    ensures ExpandAll(parent, kids).Ok?
    decreases Measure(parent), 0, |kids|
  {
    if kids != [] {
      ExpandAllNoZeroDivision(parent, kids[..|kids| - 1]);
      ExpandNoZeroDivision(kids[|kids| - 1]);
    }
  }

  // ---------------------------------------------------------------------
  // Following a path of buttons

  /** The node reached from `n` by pressing the buttons at the indices of
      `path` in turn, when each press has a move left and succeeds. */
  function Walk(n: Node, path: seq<nat>): Option<Node>
    decreases |path|
  {
    if path == [] then Some(n)
    else if n.remainingMoves <= 0 || path[0] >= |n.availableOps| then None
    else
      match CreateChild(n, path[0])
      case Err(_) => None
      case Ok(c) => Walk(c, path[1..])
  }

  /** The subtree the expansion builds for each child is the child's own
      expansion. */
  lemma {:induction false} ExpandAllAt(parent: Node, kids: seq<Node>, k: nat)
    requires forall j :: 0 <= j < |kids| ==> Measure(kids[j]) < Measure(parent)
    requires ExpandAll(parent, kids).Ok? && k < |kids|
    ensures Expand(kids[k]) == Ok(ExpandAll(parent, kids).value[k])
    decreases |kids|
  {
    if k < |kids| - 1 {
      ExpandAllAt(parent, kids[..|kids| - 1], k);
    }
  }

  lemma {:induction false} PreOrderAllMember(ts: seq<Tree>, k: nat, x: Node)
    requires k < |ts| && x in PreOrder(ts[k])
    ensures x in PreOrderAll(ts)
    decreases k
  {
    if k > 0 {
      PreOrderAllMember(ts[1..], k - 1, x);
    }
  }

  /** A child that succeeds is a child of the tree, in its expanded form. */
  lemma ChildInTree(n: Node, i: nat)
    requires Expand(n).Ok? && n.remainingMoves > 0
    requires i < |n.availableOps| && CreateChild(n, i).Ok?
    ensures Expand(CreateChild(n, i).value).Ok?
    ensures exists k :: 0 <= k < |Expand(n).value.children| &&
                        Expand(CreateChild(n, i).value) == Ok(Expand(n).value.children[k])
  {
    var rs := Attempts(n);
    var kids := Children(n).value;
    var idx := Successes(rs);
    assert rs[i].Ok?;
    var k :| 0 <= k < |idx| && idx[k] == i;
    assert kids[k] == CreateChild(n, i).value;
    ChildrenDecrease(n);
    ExpandAllAt(n, kids, k);
  }

  /** Every node a path reaches is in the tree the expansion builds. */
  lemma {:induction false} WalkInTree(n: Node, path: seq<nat>)
    requires Expand(n).Ok? && Walk(n, path).Some?
    ensures Walk(n, path).value in PreOrder(Expand(n).value)
    decreases |path|
  {
    if path != [] {
      var c := CreateChild(n, path[0]).value;
      var x := Walk(n, path).value;
      assert Walk(c, path[1..]) == Some(x);
      ChildInTree(n, path[0]);
      var t := Expand(n).value;
      var k :| 0 <= k < |t.children| && Expand(c) == Ok(t.children[k]);
      WalkInTree(c, path[1..]);
      PreOrderAllMember(t.children, k, x);
      assert PreOrder(t) == [n] + PreOrderAll(t.children);
    }
  }

  /** A level whose buttons cannot divide by zero, and in which some path
      reaches the target with no move left, is solved: the search finds a
      node. */
  lemma ReachableIsFound(start: int, target: int, moves: int, ops: seq<Op>, warp: Option<ValidWarp>, path: seq<nat>)
    requires NoZeroDivision(ops)
    requires Walk(Root(start, ops, moves, warp), path).Some?
    requires IsSolution(Walk(Root(start, ops, moves, warp), path).value, target)
    ensures Expand(Root(start, ops, moves, warp)).Ok?
    ensures Find(Expand(Root(start, ops, moves, warp)).value, target).Some?
  {
    var root := Root(start, ops, moves, warp);
    ExpandNoZeroDivision(root);
    var t := Expand(root).value;
    WalkInTree(root, path);
    ExpandWellFormed(root);
    FindIsFirst(t, target);
  }

  // ---------------------------------------------------------------------
  // Solving a level

  /** The names of the first solution of a level, [] when there is none. */
  function Solution(start: int, target: int, moves: int, ops: seq<Op>, warp: Option<ValidWarp>): Result<seq<string>, Error> {
    var t :- Expand(Root(start, ops, moves, warp));
    Ok(PathOf(Find(t, target)))
  }

  /** The level driver of the source's tests: build the tree from the root,
      search it, and name the path to the node found. */
  method Solve(start: int, target: int, moves: int, ops: seq<Op>, warp: Option<ValidWarp>) returns (r: Result<seq<string>, Error>)
    ensures r == Solution(start, target, moves, ops, warp)
  {
    var root := Root(start, ops, moves, warp);
    var tree := BuildTree(root);
    if tree.Err? {
      return Err(tree.error);
    }
    var found := Find(tree.value, target);
    var names := ParseOperationsUntilNode(found);
    r := Ok(names);
  }

  /** A solution found spends exactly the moves of the level, stores being
      free, and the names returned are those of the buttons on its path. */
  lemma SolutionSpendsAllMoves(start: int, target: int, moves: int, ops: seq<Op>, warp: Option<ValidWarp>)
    requires Expand(Root(start, ops, moves, warp)).Ok?
    requires Find(Expand(Root(start, ops, moves, warp)).value, target).Some?
    ensures var s := Find(Expand(Root(start, ops, moves, warp)).value, target).value;
      && s.value == target && s.remainingMoves == 0
      && MovesSpent(PathOps(s)) == moves
      && Solution(start, target, moves, ops, warp) ==
         Ok(seq(|PathOps(s)|, k requires 0 <= k < |PathOps(s)| => Name(PathOps(s)[k])))
  {
    var root := Root(start, ops, moves, warp);
    var t := Expand(root).value;
    var s := Find(t, target).value;
    ExpandWellFormed(root);
    FindInPreOrder(t, target);
    ExpandDescends(root, root);
    DescendsMoves(s, root);
  }

  // ---------------------------------------------------------------------
  // apply_operations

  /** The button objects that `apply_operations` works on, by identity:
      `objs[x]` is the state of object `x`, and `holds[x]` lists the objects a
      meta-button `x` was built over (it is not read for the other kinds). The
      lists that `apply_operations` takes and returns are lists of these
      positions, so an object that sits in several lists, or that a
      meta-button holds, is one object. */
  datatype Buttons = Buttons(objs: seq<Op>, holds: seq<seq<nat>>)

  predicate ValidButtons(b: Buttons) {
    && |b.holds| == |b.objs|
    && forall x, k :: 0 <= x < |b.holds| && 0 <= k < |b.holds[x]| ==> b.holds[x][k] < |b.objs|
  }

  predicate Within(ps: seq<nat>, n: nat) {
    forall k :: 0 <= k < |ps| ==> ps[k] < n
  }

  /** How far the first `j` buttons of `pressed`, pressed in turn, have raised
      object `x`: each meta-button among them adds its delta once per time it
      holds `x`. */
  function Raised(b: Buttons, pressed: seq<nat>, j: nat, x: nat): int
    requires ValidButtons(b) && Within(pressed, |b.objs|) && j <= |pressed|
  {
    if j == 0 then 0
    else
      var o := pressed[j - 1];
      Raised(b, pressed, j - 1, x) +
        (if b.objs[o].ModifyButtonsAddValue? then b.objs[o].delta * multiset(b.holds[o])[x] else 0)
  }

  /** The objects once the first `j` buttons of `pressed` have been applied in
      turn: each is raised by what the meta-buttons among them added to it. */
  function StateAt(b: Buttons, pressed: seq<nat>, j: nat): (s: seq<Op>)
    requires ValidButtons(b) && Within(pressed, |b.objs|) && j <= |pressed|
    ensures |s| == |b.objs|
    ensures forall x :: 0 <= x < |s| ==> s[x] == IncrementIfHeld(b.objs[x], Raised(b, pressed, j, x))
  {
    seq(|b.objs|, x requires 0 <= x < |b.objs| => IncrementIfHeld(b.objs[x], Raised(b, pressed, j, x)))
  }

  /** The `j`-th `operation.apply(value)` of `apply_operations`, on the object
      as the earlier presses left it, paired with the list extended by it. */
  function AttemptAt(b: Buttons, value: int, currentOps: seq<nat>, operations: seq<nat>, j: nat): Result<(int, seq<nat>), Error>
    requires ValidButtons(b) && Within(operations, |b.objs|) && j < |operations|
  {
    match Apply(StateAt(b, operations, j)[operations[j]], value)
    case Ok(v) => Ok((v, currentOps + [operations[j]]))
    case Err(e) => Err(e)
  }

  function Attempted(b: Buttons, value: int, currentOps: seq<nat>, operations: seq<nat>): (rs: seq<Result<(int, seq<nat>), Error>>)
    requires ValidButtons(b) && Within(operations, |b.objs|)
    ensures |rs| == |operations|
    ensures forall j :: 0 <= j < |rs| ==> rs[j] == AttemptAt(b, value, currentOps, operations, j)
  {
    seq(|operations|, j requires 0 <= j < |operations| => AttemptAt(b, value, currentOps, operations, j))
  }

  /** `apply_operations`: one pair per operation that does not raise a
      `ValueError`, in input order, each operation applied to the objects as
      the meta-buttons before it left them; and the objects at the end. */
  method ApplyOperations(b: Buttons, value: int, currentOps: seq<nat>, operations: seq<nat>)
      returns (r: Result<seq<(int, seq<nat>)>, Error>, objs: seq<Op>)
    requires ValidButtons(b) && Within(operations, |b.objs|)
    ensures r == Gather(Attempted(b, value, currentOps, operations))
    ensures r.Ok? ==> objs == StateAt(b, operations, |operations|)
    ensures r.Err? ==>
      exists j :: 0 <= j < |operations| && Attempted(b, value, currentOps, operations)[j] == Err(r.error) &&
        objs == StateAt(b, operations, j + 1)
  {
    ghost var rs := Attempted(b, value, currentOps, operations);
    var result: seq<(int, seq<nat>)> := [];
    objs := b.objs;
    StateAtStart(b, operations);
    var i := 0;
    while i < |operations|
      invariant 0 <= i <= |operations|
      invariant objs == StateAt(b, operations, i)
      invariant Gather(rs[..i]) == Ok(result)
    {
      var o := operations[i];
      AttemptStep(b, value, currentOps, operations, i);
      GatherStep(rs, i);
      var applied;
      applied, objs := ApplyObject(b, operations, i, o, objs, value);
      if applied.Ok? {
        result := result + [(applied.value, currentOps + [o])];
      } else if !IsValueError(applied.error) {
        GatherFatalPrefix(rs, i + 1);
        r := Err(applied.error);
        assert rs[i] == Err(r.error) && objs == StateAt(b, operations, i + 1);
        return;
      }
      i := i + 1;
    }
    assert rs[..i] == rs;
    r := Ok(result);
  }

  /** `operation.apply(value)` on object `o`, the `j`-th of `pressed`, with
      the objects as the earlier presses left them: a meta-button raises the
      objects it holds and returns the value; any other button computes its
      result and changes no object. */
  method ApplyObject(b: Buttons, ghost pressed: seq<nat>, ghost j: nat, o: nat, objs: seq<Op>, value: int)
      returns (r: Result<int, Error>, after: seq<Op>)
    requires ValidButtons(b) && Within(pressed, |b.objs|) && j < |pressed| && o == pressed[j]
    requires objs == StateAt(b, pressed, j)
    ensures r == Apply(objs[o], value)
    ensures after == StateAt(b, pressed, j + 1)
  {
    StateStep(b, pressed, j);
    if objs[o].ModifyButtonsAddValue? {
      var v;
      v, after := ApplyModifyButtons(objs[o].delta, objs, b.holds[o], value);
      r := Ok(v);
    } else {
      r := Apply(objs[o], value);
      after := objs;
    }
  }

  /** The `i`-th attempt, in terms of the object pressed. */
  lemma AttemptStep(b: Buttons, value: int, currentOps: seq<nat>, operations: seq<nat>, i: nat)
    requires ValidButtons(b) && Within(operations, |b.objs|) && i < |operations|
    ensures var o, applied := operations[i], Apply(StateAt(b, operations, i)[operations[i]], value);
      && (applied.Ok? ==> Attempted(b, value, currentOps, operations)[i] == Ok((applied.value, currentOps + [o])))
      && (applied.Err? ==> Attempted(b, value, currentOps, operations)[i] == Err(applied.error))
  {
  }

  /** An attempt on an object that succeeds. */
  lemma AttemptOk(b: Buttons, value: int, currentOps: seq<nat>, operations: seq<nat>, i: nat, pressed: Op, v: int)
    requires ValidButtons(b) && Within(operations, |b.objs|) && i < |operations|
    requires StateAt(b, operations, i)[operations[i]] == pressed && Apply(pressed, value) == Ok(v)
    ensures Attempted(b, value, currentOps, operations)[i] == Ok((v, currentOps + [operations[i]]))
  {
    AttemptStep(b, value, currentOps, operations, i);
  }

  /** An attempt that succeeds before any meta-button has been pressed. */
  lemma AttemptAsGiven(b: Buttons, value: int, currentOps: seq<nat>, operations: seq<nat>, i: nat, v: int)
    requires ValidButtons(b) && Within(operations, |b.objs|) && i < |operations|
    requires forall k :: 0 <= k < i ==> !b.objs[operations[k]].ModifyButtonsAddValue?
    requires Apply(b.objs[operations[i]], value) == Ok(v)
    ensures Attempted(b, value, currentOps, operations)[i] == Ok((v, currentOps + [operations[i]]))
  {
    ApplyOperationsWithoutMeta(b, operations, i);
    AttemptOk(b, value, currentOps, operations, i, b.objs[operations[i]], v);
  }

  /** Before any press the objects are as given. */
  lemma StateAtStart(b: Buttons, pressed: seq<nat>)
    requires ValidButtons(b) && Within(pressed, |b.objs|)
    ensures StateAt(b, pressed, 0) == b.objs
  {
  }

  /** One press: a meta-button, which no press changes, raises the objects it
      holds; any other button leaves every object as it is. */
  lemma StateStep(b: Buttons, pressed: seq<nat>, j: nat)
    requires ValidButtons(b) && Within(pressed, |b.objs|) && j < |pressed|
    ensures var o, before := pressed[j], StateAt(b, pressed, j);
      && (before[o].ModifyButtonsAddValue? <==> b.objs[o].ModifyButtonsAddValue?)
      && (b.objs[o].ModifyButtonsAddValue? ==>
            before[o] == b.objs[o] &&
            StateAt(b, pressed, j + 1) == IncrementHeld(before, b.holds[o], b.objs[o].delta))
      && (!b.objs[o].ModifyButtonsAddValue? ==> StateAt(b, pressed, j + 1) == before)
  {
    var o := pressed[j];
    var before, after := StateAt(b, pressed, j), StateAt(b, pressed, j + 1);
    if b.objs[o].ModifyButtonsAddValue? {
      var d := b.objs[o].delta;
      forall x | 0 <= x < |b.objs|
        ensures after[x] == IncrementIfHeld(before[x], d * multiset(b.holds[o])[x])
      {
        IncrementIfHeldCompose(b.objs[x], Raised(b, pressed, j, x), d * multiset(b.holds[o])[x]);
      }
    }
  }

  /** Every pair extends the list by exactly one of the operations, and its
      value is that operation's result on the object as the earlier presses
      left it, which differs from the input unless the object is a
      meta-button or a warp button; the pairs follow the order of the
      operations. */
  lemma ApplyOperationsPairs(b: Buttons, value: int, currentOps: seq<nat>, operations: seq<nat>)
    requires ValidButtons(b) && Within(operations, |b.objs|)
    requires Gather(Attempted(b, value, currentOps, operations)).Ok?
    ensures var pairs := Gather(Attempted(b, value, currentOps, operations)).value;
      var idx := Successes(Attempted(b, value, currentOps, operations));
      && |pairs| == |idx| <= |operations|
      && (forall k, l :: 0 <= k < l < |idx| ==> idx[k] < idx[l])
      && forall k :: 0 <= k < |pairs| ==>
           && idx[k] < |operations|
           && var op := StateAt(b, operations, idx[k])[operations[idx[k]]];
           && pairs[k].1 == currentOps + [operations[idx[k]]]
           && Apply(op, value) == Ok(pairs[k].0)
           && (!op.ModifyButtonsAddValue? && !op.WarpButton? ==> pairs[k].0 != value)
  {
    var rs := Attempted(b, value, currentOps, operations);
    var pairs := Gather(rs).value;
    var idx := Successes(rs);
    forall k | 0 <= k < |pairs|
      ensures pairs[k].1 == currentOps + [operations[idx[k]]]
      ensures Apply(StateAt(b, operations, idx[k])[operations[idx[k]]], value) == Ok(pairs[k].0)
    {
      assert rs[idx[k]] == Ok(pairs[k]);
    }
    IncreasingBound(idx, |operations|);
  }

  /** Without a meta-button among the first `j` operations, no object has
      changed: every attempt up to there applies the object as given. */
  lemma ApplyOperationsWithoutMeta(b: Buttons, pressed: seq<nat>, j: nat)
    requires ValidButtons(b) && Within(pressed, |b.objs|) && j <= |pressed|
    requires forall k :: 0 <= k < j ==> !b.objs[pressed[k]].ModifyButtonsAddValue?
    ensures StateAt(b, pressed, j) == b.objs
  {
    forall x | 0 <= x < |b.objs| ensures Raised(b, pressed, j, x) == 0 {
      NotRaised(b, pressed, j, x);
    }
  }

  /** An object that no meta-button among the first `j` of `pressed` holds is
      not raised. */
  lemma {:induction false} NotRaised(b: Buttons, pressed: seq<nat>, j: nat, x: nat)
    requires ValidButtons(b) && Within(pressed, |b.objs|) && j <= |pressed|
    requires forall k :: 0 <= k < j && b.objs[pressed[k]].ModifyButtonsAddValue? ==> x !in b.holds[pressed[k]]
    ensures Raised(b, pressed, j, x) == 0
  {
    if j > 0 {
      NotRaised(b, pressed, j - 1, x);
    }
  }

  /** Increasing indices below `n` are at most `n` many. */
  lemma {:induction false} IncreasingBound(idx: seq<nat>, n: nat)
    requires forall k :: 0 <= k < |idx| ==> idx[k] < n
    requires forall k, l :: 0 <= k < l < |idx| ==> idx[k] < idx[l]
    ensures |idx| <= n
    decreases n
  {
    if idx != [] {
      var init := idx[..|idx| - 1];
      assert forall k :: 0 <= k < |init| ==> init[k] < idx[|idx| - 1] < n;
      IncreasingBound(init, n - 1);
    }
  }
}
