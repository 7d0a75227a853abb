/** The seat-naming walk run once over the loaded 3D model: a depth-first,
    pre-order traversal that renames `"seat_1"`, `"seat_2"`, ... from a
    running counter every node it reaches whose scale marks it as a
    potential seat. It reaches the root and, below a reached node, each
    child that is a model node; nothing under any other child is visited. The scale threshold that makes
    a node a potential seat is abstracted to a per-node flag. */
module SeatTree {
  import opened Options
  import opened Seats

  /** A scene-graph node as the walk sees it. `potentialSeat` stands for the
      world-scale test; `isModelNode` says whether the walk enters the node
      when it meets it as a child (it only descends into model nodes). */
  datatype Node = Node(
    name: Option<string>,
    potentialSeat: bool,
    isModelNode: bool,
    children: seq<Node>)

  /** A node with its name erased and the same erasure applied below it:
      what the walk must leave untouched. */
  function Strip(n: Node): Node
    decreases n, 0
  {
    Node(None, n.potentialSeat, n.isModelNode, StripAll(n.children))
  }

  function StripAll(cs: seq<Node>): (r: seq<Node>)
    ensures |r| == |cs|
    decreases cs, 1
  {
    if |cs| == 0 then [] else [Strip(cs[0])] + StripAll(cs[1..])
  }

  /** What the walk can see of one node, listed in pre-order: its name, its
      flag, and whether the walk reaches it at all. */
  datatype Label = Label(name: Option<string>, potentialSeat: bool, reached: bool)

  /** Every node of the tree in pre-order, marking as reached those the
      walk enters: the root when `reached` holds, and below a reached node
      the children that are model nodes. */
  function Labels(n: Node, reached: bool): seq<Label>
    decreases n, 0
  {
    [Label(n.name, n.potentialSeat, reached)] + ChildLabels(n.children, reached)
  }

  function ChildLabels(cs: seq<Node>, reached: bool): seq<Label>
    decreases cs, 1
  {
    if |cs| == 0 then []
    else Labels(cs[0], reached && cs[0].isModelNode) + ChildLabels(cs[1..], reached)
  }

  predicate Qualifies(l: Label) {
    l.reached && l.potentialSeat
  }

  /** How many listed nodes the walk names. */
  function Counted(ls: seq<Label>): nat
    decreases |ls|
  {
    if |ls| == 0 then 0
    else (if Qualifies(ls[0]) then 1 else 0) + Counted(ls[1..])
  }

  /** Reference numbering, on the pre-order list: qualifying entries get
      `"seat_c"`, `"seat_<c+1>"`, ... in list order; the rest keep their name. */
  function Renumber(ls: seq<Label>, c: int): seq<Label>
    decreases |ls|
  {
    if |ls| == 0 then []
    else if Qualifies(ls[0]) then [ls[0].(name := Some(SeatKey(c)))] + Renumber(ls[1..], c + 1)
    else [ls[0]] + Renumber(ls[1..], c)
  }

  lemma {:induction false} CountedAppend(a: seq<Label>, b: seq<Label>)
    ensures Counted(a + b) == Counted(a) + Counted(b)
    decreases |a|
  {
    if |a| == 0 {
      assert a + b == b;
    } else {
      assert (a + b)[1..] == a[1..] + b;
      CountedAppend(a[1..], b);
    }
  }

  /** Numbering a concatenation numbers the second part from where the
      first part stopped. */
  lemma {:induction false} RenumberAppend(a: seq<Label>, b: seq<Label>, c: int)
    ensures Renumber(a + b, c) == Renumber(a, c) + Renumber(b, c + Counted(a))
    decreases |a|
  {
    if |a| == 0 {
      assert a + b == b;
    } else {
      assert (a + b)[1..] == a[1..] + b;
      if Qualifies(a[0]) {
        RenumberAppend(a[1..], b, c + 1);
      } else {
        RenumberAppend(a[1..], b, c);
      }
    }
  }

  /** The entry at position i of the numbered list: a qualifying entry is
      named after the number of qualifying entries before it. */
  lemma RenumberAt(ls: seq<Label>, c: int, i: int)
    requires 0 <= i < |ls|
    ensures |Renumber(ls, c)| == |ls|
    ensures Renumber(ls, c)[i] ==
      if Qualifies(ls[i]) then ls[i].(name := Some(SeatKey(c + Counted(ls[..i])))) else ls[i]
  {
    var front, back := ls[..i], ls[i..];
    assert ls == front + back;
    RenumberAppend(front, back, c);
    RenumberLength(ls, c);
    RenumberLength(front, c);
    var k := c + Counted(front);
    var h := if Qualifies(back[0]) then back[0].(name := Some(SeatKey(k))) else back[0];
    assert Renumber(back, k)[0] == h;
    assert Renumber(ls, c)[i] == Renumber(back, k)[0];
  }

  lemma {:induction false} RenumberLength(ls: seq<Label>, c: int)
    ensures |Renumber(ls, c)| == |ls|
    decreases |ls|
  {
    if |ls| > 0 {
      RenumberLength(ls[1..], if Qualifies(ls[0]) then c + 1 else c);
    }
  }

  predicate NoneReached(ls: seq<Label>) {
    forall i | 0 <= i < |ls| :: !ls[i].reached
  }

  /** A list the walk does not reach is neither counted nor renamed. */
  lemma {:induction false} RenumberNoneReached(ls: seq<Label>, c: int)
    requires NoneReached(ls)
    ensures Renumber(ls, c) == ls
    ensures Counted(ls) == 0
    decreases |ls|
  {
    if |ls| > 0 {
      assert NoneReached(ls[1..]);
      RenumberNoneReached(ls[1..], c);
    }
  }

  /** Nothing below an unreached node is reached. */
  lemma {:induction false} UnreachedBelow(n: Node)
    ensures NoneReached(Labels(n, false))
    decreases n, 0
  {
    UnreachedBelowAll(n.children);
  }

  lemma {:induction false} UnreachedBelowAll(cs: seq<Node>)
    ensures NoneReached(ChildLabels(cs, false))
    decreases cs, 1
  {
    if |cs| > 0 {
      UnreachedBelow(cs[0]);
      UnreachedBelowAll(cs[1..]);
    }
  }

  /** A subtree the walk skips is neither counted nor renamed. */
  lemma SkippedSubtreeUnchanged(n: Node, c: int)
    ensures Renumber(Labels(n, false), c) == Labels(n, false)
    ensures Counted(Labels(n, false)) == 0
  {
    UnreachedBelow(n);
    RenumberNoneReached(Labels(n, false), c);
  }

  /** `markPotentialSeats(node)` with the running counter threaded through:
      returns the renamed subtree and the counter afterwards. Every node
      the walk reaches is named exactly as the reference numbering of the
      pre-order list says, the counter advances by the number of nodes
      named, and nothing but names changes. */
  function MarkNode(n: Node, counter: int): (r: (Node, int))
    ensures r.1 == counter + Counted(Labels(n, true))
    ensures Labels(r.0, true) == Renumber(Labels(n, true), counter)
    ensures Strip(r.0) == Strip(n)
    decreases n, 0
  {
    var c1 := if n.potentialSeat then counter + 1 else counter;
    var kids := MarkChildren(n.children, c1);
    var renamed := if n.potentialSeat then Some(SeatKey(counter)) else n.name;
    var head := Label(n.name, n.potentialSeat, true);
    assert Labels(n, true) == [head] + ChildLabels(n.children, true);
    assert Labels(n, true)[1..] == ChildLabels(n.children, true);
    (Node(renamed, n.potentialSeat, n.isModelNode, kids.0), kids.1)
  }

  /** The loop over a node's children: model-node children are walked in
      order, any other child is skipped together with everything below it. */
  function MarkChildren(cs: seq<Node>, counter: int): (r: (seq<Node>, int))
    ensures r.1 == counter + Counted(ChildLabels(cs, true))
    ensures ChildLabels(r.0, true) == Renumber(ChildLabels(cs, true), counter)
    ensures StripAll(r.0) == StripAll(cs)
    decreases cs, 1
  {
    if |cs| == 0 then ([], counter)
    else
      var head := if cs[0].isModelNode then MarkNode(cs[0], counter) else (cs[0], counter);
      var rest := MarkChildren(cs[1..], head.1);
      var out := [head.0] + rest.0;
      assert out[0] == head.0 && out[1..] == rest.0;
      var hl := Labels(cs[0], cs[0].isModelNode);
      assert ChildLabels(cs, true) == hl + ChildLabels(cs[1..], true);
      CountedAppend(hl, ChildLabels(cs[1..], true));
      RenumberAppend(hl, ChildLabels(cs[1..], true), counter);
      SkippedSubtreeUnchanged(cs[0], counter);
      (out, rest.1)
  }

  /** `ModelNode.setupSeats()`: the walk from the model's root with the
      counter starting at 1. The result pairs the renamed tree with the
      final counter, one more than the number of seats named. */
  function SetupSeats(root: Node): (r: (Node, int))
    ensures r.1 == 1 + Counted(Labels(root, true))
    ensures Strip(r.0) == Strip(root)
    ensures |Labels(r.0, true)| == |Labels(root, true)|
  {
    RenumberLength(Labels(root, true), 1);
    MarkNode(root, 1)
  }

  /** Pre-order position i of the renamed tree: a node the walk reaches and
      takes for a seat is named `"seat_<k+1>"`, k being the number of such
      nodes before it; every other node keeps its name and flag. */
  lemma SetupSeatsNames(root: Node, i: int)
    requires 0 <= i < |Labels(root, true)|
    ensures var before := Labels(root, true);
      var after := Labels(SetupSeats(root).0, true);
      && |after| == |before|
      && after[i].potentialSeat == before[i].potentialSeat
      && after[i].reached == before[i].reached
      && (Qualifies(before[i]) ==> after[i].name == Some(SeatKey(1 + Counted(before[..i]))))
      && (!Qualifies(before[i]) ==> after[i].name == before[i].name)
  {
    RenumberAt(Labels(root, true), 1, i);
  }
}
