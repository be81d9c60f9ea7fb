/** Ordering, grouping and filtering a SELECT by a name: when the checker lets the name stand
    for an item of the select list. */
module SqlAliases {
  import opened Wrappers
  import opened SqlTree
  import opened SqlValidate
  import opened SqlScoping
  import opened SqlRejections

  predicate IsColumnOf(n: Node, columns: set<string>) {
    n.kind.Column? && n.children == [] && n.kind.qualifier == "" && n.kind.name in columns
  }

  /** An item that reads one of the columns, under its own name or another. */
  predicate IsItem(n: Node, columns: set<string>) {
    || IsColumnOf(n, columns)
    || (n.kind.Alias? && |n.children| == 1 && IsColumnOf(n.children[0], columns))
  }

  predicate IsClause(kind: Kind) {
    kind.Order? || kind.Group? || kind.Having?
  }

  /** SELECT items FROM table, then a clause that names something. */
  function SelectBy(items: seq<Node>, table: string, clause: Kind, name: string): Node {
    Node(Select, items + [FromTable(table, ""), Node(clause, [Col("", name)])])
  }

  /** Where an occurrence sits in a tree of three levels. */
  ghost predicate Placed(tree: Node, o: Occurrence) {
    || (o.node == tree && o.ancestors == [])
    || (o.node in tree.children && o.ancestors == [tree])
    || (exists child :: child in tree.children && o.node in child.children && o.ancestors == [child, tree])
  }

  ghost predicate ThreeLevels(tree: Node) {
    forall child, leaf :: child in tree.children && leaf in child.children ==> leaf.children == []
  }

  lemma AllPlaced(tree: Node)
    requires ThreeLevels(tree)
    ensures forall o :: o in Occurrences(tree) ==> Placed(tree, o)
  {
    var p := (o: Occurrence) => Placed(tree, o);
    forall o | p(o) ensures forall i :: 0 <= i < |o.node.children| ==> p(ChildOccurrences(o)[i]) {
      forall i | 0 <= i < |o.node.children| ensures p(ChildOccurrences(o)[i]) {
        assert o.node.children[i] in o.node.children;
        assert [o.node] + [tree] == [o.node, tree];
      }
    }
    WalkInherits([Occurrence(tree, [])], p);
  }

  ghost predicate IsSelectBy(tree: Node, items: seq<Node>, table: string, clause: Kind, name: string, norm: NormSchema) {
    && table != "" && table in norm && name != "" && IsClause(clause) && tree == SelectBy(items, table, clause, name)
    && forall item :: item in items ==> IsItem(item, norm[table])
  }

  /** The tree's nodes: the SELECT, an item, its column, the source, its table, the clause
      and what it names. */
  lemma Parts(tree: Node, items: seq<Node>, table: string, clause: Kind, name: string, norm: NormSchema)
    requires IsSelectBy(tree, items, table, clause, name, norm)
    ensures ThreeLevels(tree)
    ensures forall child :: child in tree.children <==>
      child in items || child == FromTable(table, "") || child == Node(clause, [Col("", name)])
    ensures |tree.children| == |items| + 2
    ensures tree.children[|items|] == FromTable(table, "") && tree.children[|items| + 1] == Node(clause, [Col("", name)])
  {
  }

  lemma PlacedKinds(tree: Node, items: seq<Node>, table: string, clause: Kind, name: string, norm: NormSchema, o: Occurrence)
    requires IsSelectBy(tree, items, table, clause, name, norm) && Placed(tree, o)
    ensures o.node.kind.Table? ==> o.node.kind == Kind.Table(table, "")
    ensures !o.node.kind.Cte?
    ensures o.node.kind.Column? ==> o.node.kind.qualifier == ""
    ensures o.node.kind.Column? && o.node.kind.name !in norm[table] ==>
      o.node == Col("", name) && o.ancestors == [Node(clause, [Col("", name)]), tree]
  {
    Parts(tree, items, table, clause, name, norm);
    if child :| child in tree.children && o.node in child.children && o.ancestors == [child, tree] {
      assert o.node == child.children[0];
    }
  }

  lemma TableAndNoCtes(tree: Node, items: seq<Node>, table: string, clause: Kind, name: string, norm: NormSchema)
    requires IsSelectBy(tree, items, table, clause, name, norm)
    ensures TablesInUse(Occurrences(tree), norm) == {table} && CteNames(Kinds(tree)) == {}
  {
    Parts(tree, items, table, clause, name, norm);
    AllPlaced(tree);
    forall o | o in Occurrences(tree)
      ensures o.node.kind.Table? ==> o.node.kind == Kind.Table(table, "")
      ensures !o.node.kind.Cte?
    {
      PlacedKinds(tree, items, table, clause, name, norm, o);
    }
    OccurrencesMeetKinds(tree);
    var root := Occurrence(tree, []);
    WalkMeetsQueue([root], root);
    WalkMeetsChildren([root], root, |items|);
    var from := ChildOccurrences(root)[|items|];
    WalkMeetsChildren([root], from, 0);
    assert IsRealTable(ChildOccurrences(from)[0].node.kind, norm);
    SameMembers(TablesInUse(Occurrences(tree), norm), {table});
  }

  /** The names of the tree's items are the names given in the list. */
  lemma ItemsNamed(tree: Node, items: seq<Node>, table: string, clause: Kind, name: string, norm: NormSchema)
    requires IsSelectBy(tree, items, table, clause, name, norm)
    ensures name in ProjectionAliases(tree) <==> exists i :: 0 <= i < |items| && items[i].kind == Kind.Alias(name)
  {
    AliasesAreItems(tree);
    ItemNamesExactly(tree, name);
    if i :| 0 <= i < |items| && items[i].kind == Kind.Alias(name) {
      assert NamesItem(tree, i, name);
    }
    if i: nat :| NamesItem(tree, i, name) {
      assert i < |items| ==> tree.children[i] == items[i];
    }
  }

  /** What the checker answers for the name in the clause. */
  lemma NameInClause(tree: Node, items: seq<Node>, table: string, clause: Kind, name: string, norm: NormSchema,
    havingAliases: bool)
    requires IsSelectBy(tree, items, table, clause, name, norm)
    ensures var o := Occurrence(Col("", name), [Node(clause, [Col("", name)]), tree]);
      ProblemIn(tree, o, norm, havingAliases).None? <==>
        || name in norm[table]
        || ((clause.Having? ==> havingAliases) && exists i :: 0 <= i < |items| && items[i].kind == Kind.Alias(name))
  {
    var last := Node(clause, [Col("", name)]);
    var ancestors := [last, tree];
    assert ancestors[1..] == [tree];
    var found := ClauseAt(clause, Elsewhere);
    assert ClauseScan(ancestors, Elsewhere, false) == ClauseScan([tree], found, false) == (found, Some(tree));
    TableAndNoCtes(tree, items, table, clause, name, norm);
    ItemsNamed(tree, items, table, clause, name, norm);
    NothingUnlisted(tree, items, table, clause, name, norm);
  }

  lemma NothingUnlisted(tree: Node, items: seq<Node>, table: string, clause: Kind, name: string, norm: NormSchema)
    requires IsSelectBy(tree, items, table, clause, name, norm)
    ensures !OpaqueInScope([Node(clause, [Col("", name)]), tree], {}, norm)
  {
    Parts(tree, items, table, clause, name, norm);
    forall child | child in tree.children ensures !BringsOpaque(child, {}, norm) {
    }
  }

  lemma ItemsAccepted(tree: Node, items: seq<Node>, table: string, clause: Kind, name: string, norm: NormSchema,
    havingAliases: bool, o: Occurrence)
    requires IsSelectBy(tree, items, table, clause, name, norm) && Placed(tree, o)
    requires o != Occurrence(Col("", name), [Node(clause, [Col("", name)]), tree])
    ensures ProblemIn(tree, o, norm, havingAliases).None?
  {
    TableAndNoCtes(tree, items, table, clause, name, norm);
    PlacedKinds(tree, items, table, clause, name, norm, o);
  }

  /** A SELECT that orders, groups or filters by a name is accepted exactly when the name is a
      column of its table or, where the clause allows that, of an item at any place. */
  lemma SelectByAcceptedExactly(items: seq<Node>, table: string, clause: Kind, name: string, norm: NormSchema,
    havingAliases: bool)
    requires table != "" && table in norm && name != "" && IsClause(clause)
    requires forall item :: item in items ==> IsItem(item, norm[table])
    ensures Accepts(SelectBy(items, table, clause, name), norm, havingAliases) <==>
      || name in norm[table]
      || ((clause.Having? ==> havingAliases) && exists i :: 0 <= i < |items| && items[i].kind == Kind.Alias(name))
  {
    var tree := SelectBy(items, table, clause, name);
    Parts(tree, items, table, clause, name, norm);
    AllPlaced(tree);
    NameInClause(tree, items, table, clause, name, norm, havingAliases);
    var named := Occurrence(Col("", name), [Node(clause, [Col("", name)]), tree]);
    forall o | o in Occurrences(tree) && o != named ensures ProblemIn(tree, o, norm, havingAliases).None? {
      ItemsAccepted(tree, items, table, clause, name, norm, havingAliases, o);
    }
    var root := Occurrence(tree, []);
    WalkMeetsQueue([root], root);
    WalkMeetsChildren([root], root, |items| + 1);
    var last := ChildOccurrences(root)[|items| + 1];
    WalkMeetsChildren([root], last, 0);
    assert [last.node] + [tree] == named.ancestors && ChildOccurrences(last)[0] == named;
  }
}
