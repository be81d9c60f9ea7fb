/** What the checker is there to catch: a column that exists nowhere. */
module SqlCatches {
  import opened Wrappers
  import opened SqlTree
  import opened SqlValidate
  import opened SqlScoping

  /** The statement reads only tables of the schema: no CTE, no derived table. */
  ghost predicate OnlyBaseTables(kinds: set<Kind>, norm: NormSchema) {
    && (forall k :: k in kinds ==> !k.Subquery? && !k.Cte? && (k.Table? ==> IsRealTable(k, norm)))
    && (exists k :: k in kinds && k.Table?)
  }

  /** No table has the column and no select-list item is called so. */
  ghost predicate Invented(column: string, kinds: set<Kind>, norm: NormSchema) {
    && (forall t :: t in norm ==> column !in norm[t])
    && Kind.Alias(column) !in kinds
  }

  /** On any tree, a table is reported exactly when it is neither in the schema nor the name
      of some CTE. */
  lemma InventedTableCaught(tree: Node, o: Occurrence, norm: NormSchema, havingAliases: bool)
    requires o.node.kind.Table? && o.node.kind.name != ""
    ensures ProblemIn(tree, o, norm, havingAliases).Some? <==>
      o.node.kind.name !in norm && Kind.Cte(o.node.kind.name) !in Kinds(tree)
    ensures ProblemIn(tree, o, norm, havingAliases).Some? ==>
      ProblemIn(tree, o, norm, havingAliases) == Some(UnknownTable(o.node.kind.name))
  {
    var name := o.node.kind.name;
    if name in CteNames(Kinds(tree)) {
      var kind :| kind in Kinds(tree) && kind.Cte? && kind.name == name;
      assert kind == Kind.Cte(name);
    }
  }

  ghost predicate QualifierNamesTable(qualifier: string, kinds: set<Kind>, norm: NormSchema) {
    exists k :: k in kinds && IsRealTable(k, norm) && GoesBy(k, qualifier)
  }

  lemma AncestorsMeetKinds(tree: Node)
    ensures forall o :: o in Occurrences(tree) ==> forall a :: a in o.ancestors ==> Kinds(a) <= Kinds(tree)
  {
    var p := (o: Occurrence) => Kinds(o.node) <= Kinds(tree) && forall a :: a in o.ancestors ==> Kinds(a) <= Kinds(tree);
    forall o | p(o) ensures forall i :: 0 <= i < |o.node.children| ==> p(ChildOccurrences(o)[i]) {
      forall i | 0 <= i < |o.node.children| ensures p(ChildOccurrences(o)[i]) {
        ChildKinds(o.node.children, i);
      }
    }
    WalkInherits([Occurrence(tree, [])], p);
  }

  lemma ChildIsLabel(n: Node, child: Node, kinds: set<Kind>)
    requires Kinds(n) <= kinds && child in n.children
    ensures Kinds(child) <= kinds
  {
    var i :| 0 <= i < |n.children| && n.children[i] == child;
    ChildKinds(n.children, i);
  }

  lemma NothingOpaque(ancestors: seq<Node>, kinds: set<Kind>, norm: NormSchema)
    requires OnlyBaseTables(kinds, norm) && forall a :: a in ancestors ==> Kinds(a) <= kinds
    ensures !OpaqueInScope(ancestors, CteNames(kinds), norm)
  {
    forall node, clause | node in ancestors && clause in node.children
      ensures !BringsOpaque(clause, CteNames(kinds), norm)
    {
      ChildIsLabel(node, clause, kinds);
      if clause.children != [] {
        ChildIsLabel(clause, clause.children[0], kinds);
        assert clause.children[0].kind in kinds;
      }
    }
  }

  lemma NoAliasVisible(o: Occurrence, column: string, kinds: set<Kind>, havingAliases: bool)
    requires Kind.Alias(column) !in kinds && forall a :: a in o.ancestors ==> Kinds(a) <= kinds
    ensures !AliasVisible(o, column, havingAliases)
  {
    var (clause, select) := ClauseScan(o.ancestors, Elsewhere, false);
    if select.Some? {
      ScanFindsAncestor(o.ancestors, Elsewhere, false);
      forall child | child in select.value.children ensures child.kind != Kind.Alias(column) {
        ChildIsLabel(select.value, child, kinds);
      }
    }
  }

  lemma {:induction false} ScanFindsAncestor(ancestors: seq<Node>, clause: Clause, windowed: bool)
    ensures var (_, select) := ClauseScan(ancestors, clause, windowed); select.Some? ==> select.value in ancestors
    decreases |ancestors|
  {
    if ancestors != [] && !ancestors[0].kind.Select? {
      var windowed' := windowed || ancestors[0].kind.Window?;
      ScanFindsAncestor(ancestors[1..], if windowed' then clause else ClauseAt(ancestors[0].kind, clause), windowed');
    }
  }

  /** A column that exists nowhere is caught in every statement over base tables, however
      nested, unless its qualifier means no table at all. */
  lemma InventedColumnCaught(tree: Node, o: Occurrence, norm: NormSchema, havingAliases: bool)
    requires o in Occurrences(tree) && o.node.kind.Column? && o.node.kind.name != ""
    requires OnlyBaseTables(Kinds(tree), norm) && Invented(o.node.kind.name, Kinds(tree), norm)
    ensures ProblemIn(tree, o, norm, havingAliases).None? <==>
      o.node.kind.qualifier != "" && !QualifierNamesTable(o.node.kind.qualifier, Kinds(tree), norm)
  {
    var occurrences, kinds, qualifier := Occurrences(tree), Kinds(tree), o.node.kind.qualifier;
    OccurrencesMeetKinds(tree);
    if qualifier == "" {
      AncestorsMeetKinds(tree);
      NothingOpaque(o.ancestors, kinds, norm);
      NoAliasVisible(o, o.node.kind.name, kinds, havingAliases);
      var k :| k in kinds && k.Table?;
      assert Walked(occurrences, k);
      assert k.name in TablesInUse(occurrences, norm);
    } else if QualifierNamesTable(qualifier, kinds, norm) {
      var k :| k in kinds && IsRealTable(k, norm) && GoesBy(k, qualifier);
      assert Walked(occurrences, k);
      var source :| source in occurrences && source.node.kind == k;
      AliasMapComplete(occurrences, norm, source, qualifier);
    } else if qualifier in AliasMap(occurrences, norm) {
      var k := EntryLabel(tree, norm, qualifier);
    }
  }
}
