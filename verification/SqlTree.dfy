/** A parsed SQL statement as the validator sees it: a tree of labelled nodes, walked
    breadth first, each node with its chain of ancestors. Identifiers are lower-cased,
    and "" stands for an absent name, alias or qualifier. */
module SqlTree {
  datatype Kind =
    | Select
    | Union
    | With
    | Cte(name: string)
    | From
    | Join
    | Subquery(alias: string)
    | Table(name: string, alias: string)
    | Column(name: string, qualifier: string)
    | Alias(alias: string)
    | Order
    | Group
    | Having
    | Window
    | Other

  /** From and Join hold their relation as the first child. */
  datatype Node = Node(kind: Kind, children: seq<Node>)

  /** A node with its ancestors, parent first. */
  datatype Occurrence = Occurrence(node: Node, ancestors: seq<Node>)

  function Size(n: Node): nat {
    1 + Sizes(n.children)
  }

  function Sizes(ns: seq<Node>): nat {
    if ns == [] then 0 else Size(ns[0]) + Sizes(ns[1..])
  }

  function QueueSize(queue: seq<Occurrence>): nat {
    if queue == [] then 0 else Size(queue[0].node) + QueueSize(queue[1..])
  }

  function ChildOccurrences(o: Occurrence): (r: seq<Occurrence>)
    ensures |r| == |o.node.children|
  {
    seq(|o.node.children|, i requires 0 <= i < |o.node.children| =>
      Occurrence(o.node.children[i], [o.node] + o.ancestors))
  }

  lemma {:induction false} QueueSizeAppend(a: seq<Occurrence>, b: seq<Occurrence>)
    ensures QueueSize(a + b) == QueueSize(a) + QueueSize(b)
    decreases |a|
  {
    if a == [] {
      assert a + b == b;
    } else {
      assert (a + b)[1..] == a[1..] + b;
      QueueSizeAppend(a[1..], b);
    }
  }

  lemma {:induction false} QueueSizeOf(occurrences: seq<Occurrence>, nodes: seq<Node>)
    requires |occurrences| == |nodes| && forall i :: 0 <= i < |nodes| ==> occurrences[i].node == nodes[i]
    ensures QueueSize(occurrences) == Sizes(nodes)
    decreases |nodes|
  {
    if nodes != [] {
      QueueSizeOf(occurrences[1..], nodes[1..]);
    }
  }

  lemma QueueShrinks(queue: seq<Occurrence>)
    requires queue != []
    ensures QueueSize(queue[1..] + ChildOccurrences(queue[0])) < QueueSize(queue)
  {
    QueueSizeAppend(queue[1..], ChildOccurrences(queue[0]));
    QueueSizeOf(ChildOccurrences(queue[0]), queue[0].node.children);
  }

  /** The breadth-first order in which find_all yields nodes. */
  function Walk(queue: seq<Occurrence>): seq<Occurrence>
    decreases QueueSize(queue)
  {
    if queue == [] then []
    else
      QueueShrinks(queue);
      [queue[0]] + Walk(queue[1..] + ChildOccurrences(queue[0]))
  }

  function Occurrences(root: Node): seq<Occurrence> {
    Walk([Occurrence(root, [])])
  }

  /** Every label in a subtree. */
  function Kinds(n: Node): set<Kind> {
    {n.kind} + AllKinds(n.children)
  }

  function AllKinds(ns: seq<Node>): set<Kind> {
    if ns == [] then {} else Kinds(ns[0]) + AllKinds(ns[1..])
  }

  function QueueKinds(queue: seq<Occurrence>): set<Kind> {
    if queue == [] then {} else Kinds(queue[0].node) + QueueKinds(queue[1..])
  }

  lemma {:induction false} QueueKindsAppend(a: seq<Occurrence>, b: seq<Occurrence>)
    ensures QueueKinds(a + b) == QueueKinds(a) + QueueKinds(b)
    decreases |a|
  {
    if a == [] {
      assert a + b == b;
    } else {
      assert (a + b)[1..] == a[1..] + b;
      QueueKindsAppend(a[1..], b);
    }
  }

  lemma {:induction false} QueueKindsOf(occurrences: seq<Occurrence>, nodes: seq<Node>)
    requires |occurrences| == |nodes| && forall i :: 0 <= i < |nodes| ==> occurrences[i].node == nodes[i]
    ensures QueueKinds(occurrences) == AllKinds(nodes)
    decreases |nodes|
  {
    if nodes != [] {
      QueueKindsOf(occurrences[1..], nodes[1..]);
    }
  }

  ghost predicate Walked(occurrences: seq<Occurrence>, kind: Kind) {
    exists o :: o in occurrences && o.node.kind == kind
  }

  /** The walk meets exactly the labels of the trees it starts from. */
  lemma {:induction false} WalkMeetsKinds(queue: seq<Occurrence>)
    ensures forall kind :: kind in QueueKinds(queue) <==> Walked(Walk(queue), kind)
    decreases QueueSize(queue)
  {
    if queue != [] {
      QueueShrinks(queue);
      var first, rest := queue[0], queue[1..] + ChildOccurrences(queue[0]);
      WalkMeetsKinds(rest);
      QueueKindsAppend(queue[1..], ChildOccurrences(first));
      QueueKindsOf(ChildOccurrences(first), first.node.children);
      assert Walk(queue) == [first] + Walk(rest);
      forall kind ensures kind in QueueKinds(queue) <==> Walked(Walk(queue), kind) {
        if Walked(Walk(rest), kind) {
          var o :| o in Walk(rest) && o.node.kind == kind;
          assert o in Walk(queue);
        }
        if kind == first.node.kind {
          assert first in Walk(queue);
        }
      }
    }
  }

  lemma OccurrencesMeetKinds(root: Node)
    ensures forall kind :: kind in Kinds(root) <==> Walked(Occurrences(root), kind)
  {
    var queue := [Occurrence(root, [])];
    WalkMeetsKinds(queue);
    assert queue[1..] == [] && QueueKinds(queue) == Kinds(root);
  }

  lemma {:induction false} ChildKinds(ns: seq<Node>, i: nat)
    requires i < |ns|
    ensures Kinds(ns[i]) <= AllKinds(ns)
    decreases |ns|
  {
    if i > 0 {
      ChildKinds(ns[1..], i - 1);
    }
  }

  /** A property that passes from an occurrence to its children holds of every
      occurrence the walk meets, if it holds where the walk starts. */
  lemma {:induction false} WalkInherits(queue: seq<Occurrence>, p: Occurrence -> bool)
    requires forall o :: o in queue ==> p(o)
    requires forall o :: p(o) ==> forall i :: 0 <= i < |o.node.children| ==> p(ChildOccurrences(o)[i])
    ensures forall o :: o in Walk(queue) ==> p(o)
    decreases QueueSize(queue)
  {
    if queue != [] {
      QueueShrinks(queue);
      var rest := queue[1..] + ChildOccurrences(queue[0]);
      forall o | o in rest ensures p(o) {
        if o !in queue[1..] {
          assert o in ChildOccurrences(queue[0]);
        }
      }
      WalkInherits(rest, p);
    }
  }

  lemma {:induction false} WalkMeetsQueue(queue: seq<Occurrence>, o: Occurrence)
    requires o in queue
    ensures o in Walk(queue)
    decreases QueueSize(queue)
  {
    QueueShrinks(queue);
    if o != queue[0] {
      assert o in queue[1..];
      WalkMeetsQueue(queue[1..] + ChildOccurrences(queue[0]), o);
    }
  }

  /** With a node, the walk meets its children. */
  lemma {:induction false} WalkMeetsChildren(queue: seq<Occurrence>, o: Occurrence, i: nat)
    requires o in Walk(queue) && i < |o.node.children|
    ensures ChildOccurrences(o)[i] in Walk(queue)
    decreases QueueSize(queue)
  {
    QueueShrinks(queue);
    var rest := queue[1..] + ChildOccurrences(queue[0]);
    if o == queue[0] {
      assert ChildOccurrences(o)[i] in rest;
      WalkMeetsQueue(rest, ChildOccurrences(o)[i]);
    } else {
      WalkMeetsChildren(rest, o, i);
    }
  }
}
