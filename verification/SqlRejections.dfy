/** Statements that resolve and are rejected all the same: an ordered UNION, and a name that
    stands for a base table and for another table, a derived table or a CTE. */
module SqlRejections {
  import opened Wrappers
  import opened SqlTree
  import opened SqlValidate
  import opened SqlScoping

  function Col(qualifier: string, name: string): Node {
    Node(Column(name, qualifier), [])
  }

  function FromTable(name: string, alias: string): Node {
    Node(From, [Node(Table(name, alias), [])])
  }

  /** SELECT column AS alias FROM table */
  function SelectAs(column: string, alias: string, table: string): Node {
    Node(Select, [Node(Alias(alias), [Col("", column)]), FromTable(table, "")])
  }

  /** SELECT column AS alias FROM table UNION SELECT column AS alias FROM table ORDER BY alias */
  function OrderedUnion(column: string, alias: string, table: string): Node {
    Node(Union, [SelectAs(column, alias, table), SelectAs(column, alias, table), Node(Order, [Col("", alias)])])
  }

  lemma ScopeHasTable(select: Node, ctes: set<string>, i: nat, table: string, norm: NormSchema)
    requires i < |select.children| && table != "" && table in norm && table !in ctes
    requires exists alias :: select.children[i] == FromTable(table, alias)
    ensures HasRelation(Scope(select, ctes), Base(table), norm)
  {
    assert select.children[i] in select.children && IsSourceClause(select.children[i]);
  }

  /** A column is a leaf, so it resolves when its name does. */
  lemma ColumnResolves(column: Node, env: Env, norm: NormSchema, havingAliases: bool)
    requires column.kind.Column? && column.children == [] && ResolvesHere(column, env, norm)
    ensures Resolves(column, env, norm, havingAliases)
  {
  }

  /** What an item or source of a SELECT without CTEs can see. */
  lemma ItemEnv(select: Node, i: nat, env: Env, havingAliases: bool)
    requires select.kind.Select? && i < |select.children| && DeclaredCtes(select) == {}
    requires var kind := select.children[i].kind; !kind.With? && !kind.Order? && !kind.Group? && !kind.Having?
    ensures ChildEnv(select, i, env, havingAliases) == Env([Scope(select, env.ctes)] + env.scopes, env.scopes, env.ctes, {})
  {
    assert env.ctes + {} == env.ctes;
  }

  lemma SelectAsResolves(column: string, alias: string, table: string, env: Env, norm: NormSchema, havingAliases: bool)
    requires table != "" && table in norm && column in norm[table] && table !in env.ctes
    ensures Resolves(SelectAs(column, alias, table), env, norm, havingAliases)
  {
    var select := SelectAs(column, alias, table);
    assert DeclaredCtes(select) == {};
    ItemEnv(select, 0, env, havingAliases);
    ItemResolves(column, alias, table, env, norm, havingAliases);
    FromResolves(table, "", ChildEnv(select, 1, env, havingAliases), norm, havingAliases);
  }

  lemma ItemResolves(column: string, alias: string, table: string, env: Env, norm: NormSchema, havingAliases: bool)
    requires table != "" && table in norm && column in norm[table] && table !in env.ctes
    ensures var select := SelectAs(column, alias, table);
      Resolves(select.children[0], Env([Scope(select, env.ctes)] + env.scopes, env.scopes, env.ctes, {}), norm, havingAliases)
  {
    var select := SelectAs(column, alias, table);
    var inner := Env([Scope(select, env.ctes)] + env.scopes, env.scopes, env.ctes, {});
    ScopeHasTable(select, env.ctes, 1, table, norm);
    assert Scope(select, env.ctes) in inner.scopes && Provides(Base(table), column, norm);
    assert ResolvesUnqualified(inner, column, norm);
    ColumnResolves(Col("", column), inner, norm, havingAliases);
    assert ChildEnv(select.children[0], 0, inner, havingAliases) == inner;
  }

  lemma FromResolves(table: string, alias: string, env: Env, norm: NormSchema, havingAliases: bool)
    requires table in norm
    ensures Resolves(FromTable(table, alias), env, norm, havingAliases)
  {
    var from := FromTable(table, alias);
    assert Resolves(from.children[0], ChildEnv(from, 0, env, havingAliases), norm, havingAliases);
  }

  lemma OrderResolves(column: string, alias: string, table: string, norm: NormSchema, havingAliases: bool)
    requires alias != ""
    ensures var union := OrderedUnion(column, alias, table);
      Resolves(union.children[2], ChildEnv(union, 2, EMPTY, havingAliases), norm, havingAliases)
  {
    var union, select := OrderedUnion(column, alias, table), SelectAs(column, alias, table);
    assert select.children[0] in select.children;
    assert alias in ItemNames(select) && OutputAliases(union) == ItemNames(select);
    var ordering := ChildEnv(union, 2, EMPTY, havingAliases);
    assert alias in ordering.aliases;
    ColumnResolves(Col("", alias), ordering, norm, havingAliases);
  }

  lemma OrderedUnionResolves(column: string, alias: string, table: string, norm: NormSchema, havingAliases: bool)
    requires table != "" && table in norm && column in norm[table] && alias != ""
    ensures Resolves(OrderedUnion(column, alias, table), EMPTY, norm, havingAliases)
  {
    var union := OrderedUnion(column, alias, table);
    assert DeclaredCtes(union) == {};
    SelectAsResolves(column, alias, table, EMPTY, norm, havingAliases);
    assert ChildEnv(union, 0, EMPTY, havingAliases) == EMPTY == ChildEnv(union, 1, EMPTY, havingAliases);
    OrderResolves(column, alias, table, norm, havingAliases);
  }

  /** Every table of the tree is one of these. */
  predicate OnlyTables(n: Node, tables: set<Kind>)
    decreases n
  {
    (n.kind.Table? ==> n.kind in tables) && forall child :: child in n.children ==> OnlyTables(child, tables)
  }

  lemma OnlyTablesMet(tree: Node, tables: set<Kind>)
    requires OnlyTables(tree, tables)
    ensures forall o :: o in Occurrences(tree) && o.node.kind.Table? ==> o.node.kind in tables
  {
    var p := (o: Occurrence) => OnlyTables(o.node, tables);
    forall o | p(o) ensures forall i :: 0 <= i < |o.node.children| ==> p(ChildOccurrences(o)[i]) {
      forall i | 0 <= i < |o.node.children| ensures p(ChildOccurrences(o)[i]) {
        assert o.node.children[i] in o.node.children;
      }
    }
    WalkInherits([Occurrence(tree, [])], p);
  }

  lemma SelectAsTables(column: string, alias: string, table: string, tables: set<Kind>)
    requires Kind.Table(table, "") in tables
    ensures OnlyTables(SelectAs(column, alias, table), tables)
  {
    assert OnlyTables(FromTable(table, ""), tables);
    assert OnlyTables(Node(Alias(alias), [Col("", column)]), tables);
  }

  lemma OrderedUnionTables(column: string, alias: string, table: string, norm: NormSchema)
    requires table != "" && table in norm
    ensures TablesInUse(Occurrences(OrderedUnion(column, alias, table)), norm) == {table}
  {
    var tree := OrderedUnion(column, alias, table);
    SelectAsTables(column, alias, table, {Kind.Table(table, "")});
    OnlyTablesMet(tree, {Kind.Table(table, "")});
    var root := Occurrence(tree, []);
    WalkMeetsQueue([root], root);
    WalkMeetsChildren([root], root, 0);
    var select := ChildOccurrences(root)[0];
    WalkMeetsChildren([root], select, 1);
    var from := ChildOccurrences(select)[1];
    WalkMeetsChildren([root], from, 0);
    assert IsRealTable(ChildOccurrences(from)[0].node.kind, norm);
    assert table in TablesInUse(Occurrences(tree), norm);
  }

  /** A column of a UNION's ORDER BY at the top of a statement can only be a column of a
      table the statement uses. */
  lemma TopUnionOrder(tree: Node, order: Node, o: Occurrence, norm: NormSchema, havingAliases: bool)
    requires tree.kind.Union? && order.kind.Order? && o.ancestors == [order, tree]
    requires o.node.kind.Column? && o.node.kind.name != "" && o.node.kind.qualifier == ""
    requires TablesInUse(Occurrences(tree), norm) != {}
    ensures ProblemIn(tree, o, norm, havingAliases).None? <==>
      exists t :: t in TablesInUse(Occurrences(tree), norm) && o.node.kind.name in norm[t]
  {
    assert o.ancestors[1..] == [tree] && [tree][1..] == [];
    assert ClauseScan(o.ancestors, Elsewhere, false) == ClauseScan([tree], InOrder, false) == (InOrder, None);
    assert !AliasVisible(o, o.node.kind.name, havingAliases);
  }

  /** The name a UNION's ORDER BY may use is rejected when it is not also a column. */
  lemma OrderedUnionRejected(column: string, alias: string, table: string, norm: NormSchema, havingAliases: bool)
    requires table != "" && table in norm && column in norm[table] && alias != "" && alias !in norm[table]
    ensures Resolves(OrderedUnion(column, alias, table), EMPTY, norm, havingAliases)
    ensures !Accepts(OrderedUnion(column, alias, table), norm, havingAliases)
  {
    OrderedUnionResolves(column, alias, table, norm, havingAliases);
    var tree := OrderedUnion(column, alias, table);
    OrderedUnionTables(column, alias, table, norm);
    var root := Occurrence(tree, []);
    WalkMeetsQueue([root], root);
    WalkMeetsChildren([root], root, 2);
    var order := ChildOccurrences(root)[2];
    WalkMeetsChildren([root], order, 0);
    var o := ChildOccurrences(order)[0];
    TopUnionOrder(tree, order.node, o, norm, havingAliases);
  }

  // ── One alias for two tables ───────────────────────────────────────

  /** SELECT alias.column FROM table AS alias */
  function SelectFrom(alias: string, column: string, table: string): Node {
    Node(Select, [Col(alias, column), FromTable(table, alias)])
  }

  /** SELECT alias.a FROM s AS alias UNION SELECT alias.b FROM t AS alias */
  function ReusedAlias(alias: string, a: string, s: string, b: string, t: string): Node {
    Node(Union, [SelectFrom(alias, a, s), SelectFrom(alias, b, t)])
  }

  lemma SelectFromResolves(alias: string, column: string, table: string, norm: NormSchema, havingAliases: bool)
    requires alias != "" && table != "" && table in norm && column in norm[table]
    ensures Resolves(SelectFrom(alias, column, table), EMPTY, norm, havingAliases)
  {
    var select := SelectFrom(alias, column, table);
    assert DeclaredCtes(select) == {};
    var inner := ChildEnv(select, 0, EMPTY, havingAliases);
    var scope := Scope(select, EMPTY.ctes + DeclaredCtes(select));
    assert inner.scopes == [scope] + EMPTY.scopes;
    assert Names(scope, alias, Base(table), norm) by {
      assert select.children[1] in select.children && IsSourceClause(select.children[1]);
    }
    assert Provides(Base(table), column, norm);
    assert ResolvesQualified(inner.scopes, alias, column, norm);
    assert Resolves(select.children[0], inner, norm, havingAliases);
    FromResolves(table, alias, ChildEnv(select, 1, EMPTY, havingAliases), norm, havingAliases);
  }

  lemma ReusedAliasResolves(alias: string, a: string, s: string, b: string, t: string, norm: NormSchema,
    havingAliases: bool)
    requires alias != "" && s != "" && t != "" && s in norm && t in norm && a in norm[s] && b in norm[t]
    ensures Resolves(ReusedAlias(alias, a, s, b, t), EMPTY, norm, havingAliases)
  {
    var tree := ReusedAlias(alias, a, s, b, t);
    assert DeclaredCtes(tree) == {};
    SelectFromResolves(alias, a, s, norm, havingAliases);
    SelectFromResolves(alias, b, t, norm, havingAliases);
    assert ChildEnv(tree, 0, EMPTY, havingAliases) == EMPTY == ChildEnv(tree, 1, EMPTY, havingAliases);
  }

  /** The alias map sends the reused alias to one of the two tables. */
  lemma ReusedAliasMeans(alias: string, a: string, s: string, b: string, t: string, norm: NormSchema)
    requires alias != "" && s != "" && t != "" && s in norm && t in norm
    ensures var aliases := AliasMap(Occurrences(ReusedAlias(alias, a, s, b, t)), norm);
      alias in aliases && aliases[alias] in {s, t}
  {
    var tree := ReusedAlias(alias, a, s, b, t);
    var tables := {Kind.Table(s, alias), Kind.Table(t, alias)};
    assert OnlyTables(FromTable(s, alias), tables) && OnlyTables(FromTable(t, alias), tables);
    assert OnlyTables(SelectFrom(alias, a, s), tables) && OnlyTables(SelectFrom(alias, b, t), tables);
    OnlyTablesMet(tree, tables);
    var root := Occurrence(tree, []);
    WalkMeetsQueue([root], root);
    WalkMeetsChildren([root], root, 0);
    var select := ChildOccurrences(root)[0];
    WalkMeetsChildren([root], select, 1);
    var from := ChildOccurrences(select)[1];
    WalkMeetsChildren([root], from, 0);
    AliasMapComplete(Occurrences(tree), norm, ChildOccurrences(from)[0], alias);
    AliasMapSound(Occurrences(tree), norm, alias);
  }

  /** Two SELECTs of a UNION that give their own tables the same alias: whichever table
      the checker remembers, it rejects the other's column. */
  lemma ReusedAliasRejected(alias: string, a: string, s: string, b: string, t: string, norm: NormSchema,
    havingAliases: bool)
    requires alias != "" && s != "" && t != "" && s in norm && t in norm && a != "" && b != ""
    requires a in norm[s] && a !in norm[t] && b in norm[t] && b !in norm[s]
    ensures Resolves(ReusedAlias(alias, a, s, b, t), EMPTY, norm, havingAliases)
    ensures !Accepts(ReusedAlias(alias, a, s, b, t), norm, havingAliases)
  {
    ReusedAliasResolves(alias, a, s, b, t, norm, havingAliases);
    ReusedAliasMeans(alias, a, s, b, t, norm);
    var tree := ReusedAlias(alias, a, s, b, t);
    var root := Occurrence(tree, []);
    WalkMeetsQueue([root], root);
    forall i | 0 <= i < 2 ensures ChildOccurrences(ChildOccurrences(root)[i])[0] in Occurrences(tree) {
      WalkMeetsChildren([root], root, i);
      WalkMeetsChildren([root], ChildOccurrences(root)[i], 0);
    }
    var i := if AliasMap(Occurrences(tree), norm)[alias] == t then 0 else 1;
    var o := ChildOccurrences(ChildOccurrences(root)[i])[0];
    assert ProblemIn(tree, o, norm, havingAliases).Some?;
  }

  // ── A derived table or a CTE named like a base table ───────────────

  /** SELECT t.x FROM source, where the source goes by the name t */
  function SelectQualified(with: seq<Node>, x: string, t: string, source: Node): Node {
    Node(Select, with + [Col(t, x), Node(From, [source])])
  }

  /** SELECT t.x FROM (SELECT c AS x FROM t) AS t */
  function NamedLikeTable(c: string, x: string, t: string): Node {
    SelectQualified([], x, t, Node(Subquery(t), [SelectAs(c, x, t)]))
  }

  /** WITH t AS (SELECT c AS x FROM s) SELECT t.x FROM t */
  function CteLikeTable(c: string, x: string, s: string, t: string): Node {
    SelectQualified([Node(With, [Node(Cte(t), [SelectAs(c, x, s)])])], x, t, Node(Table(t, ""), []))
  }

  /** A qualified column resolves in a SELECT whose source of that name lists no columns. */
  lemma QualifiedResolves(select: Node, i: nat, ctes: set<string>, t: string, x: string, norm: NormSchema)
    requires i < |select.children| && IsSourceClause(select.children[i])
    requires ExposedName(select.children[i].children[0]) == t
    requires RelationOf(select.children[i].children[0], ctes, norm) == Some(AnyColumns)
    ensures ResolvesQualified([Scope(select, ctes)], t, x, norm)
  {
    var scope := Scope(select, ctes);
    assert Names(scope, t, AnyColumns, norm) by {
      assert select.children[i] in select.children;
    }
    assert Provides(AnyColumns, x, norm);
    assert [scope][0] == scope;
  }

  lemma DerivedResolves(c: string, x: string, t: string, env: Env, norm: NormSchema, havingAliases: bool)
    requires t != "" && t in norm && c in norm[t] && t !in env.ctes
    ensures Resolves(Node(Subquery(t), [SelectAs(c, x, t)]), env, norm, havingAliases)
  {
    var derived := Node(Subquery(t), [SelectAs(c, x, t)]);
    SelectAsResolves(c, x, t, env, norm, havingAliases);
    assert ChildEnv(derived, 0, env, havingAliases) == env;
  }

  lemma DerivedColumnResolves(c: string, x: string, t: string, norm: NormSchema, havingAliases: bool)
    requires t != ""
    ensures var tree := NamedLikeTable(c, x, t);
      Resolves(Col(t, x), Env([Scope(tree, {})], [], {}, {}), norm, havingAliases)
  {
    var tree := NamedLikeTable(c, x, t);
    assert tree.children == [Col(t, x), Node(From, [Node(Subquery(t), [SelectAs(c, x, t)])])];
    QualifiedResolves(tree, 1, {}, t, x, norm);
    ColumnResolves(Col(t, x), Env([Scope(tree, {})], [], {}, {}), norm, havingAliases);
  }

  lemma DerivedEnvs(c: string, x: string, t: string, havingAliases: bool)
    ensures var tree := NamedLikeTable(c, x, t);
      forall i :: 0 <= i < 2 ==> ChildEnv(tree, i, EMPTY, havingAliases) == Env([Scope(tree, {})], [], {}, {})
  {
    var tree := NamedLikeTable(c, x, t);
    assert tree.children == [Col(t, x), Node(From, [Node(Subquery(t), [SelectAs(c, x, t)])])];
    assert DeclaredCtes(tree) == {};
    ItemEnv(tree, 0, EMPTY, havingAliases);
    ItemEnv(tree, 1, EMPTY, havingAliases);
    assert [Scope(tree, {})] + EMPTY.scopes == [Scope(tree, {})];
  }

  lemma DerivedFromResolves(c: string, x: string, t: string, env: Env, norm: NormSchema, havingAliases: bool)
    requires t != "" && t in norm && c in norm[t] && t !in env.ctes
    ensures Resolves(Node(From, [Node(Subquery(t), [SelectAs(c, x, t)])]), env, norm, havingAliases)
  {
    var from := Node(From, [Node(Subquery(t), [SelectAs(c, x, t)])]);
    DerivedResolves(c, x, t, ChildEnv(from, 0, env, havingAliases), norm, havingAliases);
  }

  lemma NamedLikeTableResolves(c: string, x: string, t: string, norm: NormSchema, havingAliases: bool)
    requires t != "" && t in norm && c in norm[t]
    ensures Resolves(NamedLikeTable(c, x, t), EMPTY, norm, havingAliases)
  {
    var tree := NamedLikeTable(c, x, t);
    assert tree.children == [Col(t, x), Node(From, [Node(Subquery(t), [SelectAs(c, x, t)])])];
    DerivedEnvs(c, x, t, havingAliases);
    DerivedColumnResolves(c, x, t, norm, havingAliases);
    DerivedFromResolves(c, x, t, Env([Scope(tree, {})], [], {}, {}), norm, havingAliases);
    assert WellPlaced(tree);
  }

  lemma WithResolves(c: string, x: string, s: string, t: string, env: Env, norm: NormSchema, havingAliases: bool)
    requires s != "" && s in norm && c in norm[s] && s !in env.ctes
    ensures Resolves(Node(With, [Node(Cte(t), [SelectAs(c, x, s)])]), env, norm, havingAliases)
  {
    var cte := Node(Cte(t), [SelectAs(c, x, s)]);
    var with := Node(With, [cte]);
    SelectAsResolves(c, x, s, env, norm, havingAliases);
    assert ChildEnv(cte, 0, env, havingAliases) == env == ChildEnv(with, 0, env, havingAliases);
    assert Resolves(cte, env, norm, havingAliases);
  }

  /** The CTE is visible to the whole statement, itself included. */
  lemma CteDeclared(c: string, x: string, s: string, t: string)
    requires t != ""
    ensures DeclaredCtes(CteLikeTable(c, x, s, t)) == {t}
  {
    var tree := CteLikeTable(c, x, s, t);
    var with := Node(With, [Node(Cte(t), [SelectAs(c, x, s)])]);
    assert tree.children == [with, Col(t, x), FromTable(t, "")];
    forall name ensures name in DeclaredCtes(tree) <==> name in {t} {
      assert with in tree.children && with.children[0] in with.children;
    }
    SameMembers(DeclaredCtes(tree), {t});
  }

  lemma CteColumnResolves(c: string, x: string, s: string, t: string, norm: NormSchema, havingAliases: bool)
    requires t != ""
    ensures var tree := CteLikeTable(c, x, s, t);
      Resolves(Col(t, x), Env([Scope(tree, {t})], [], {t}, {}), norm, havingAliases)
  {
    var tree := CteLikeTable(c, x, s, t);
    assert tree.children[2] == FromTable(t, "");
    QualifiedResolves(tree, 2, {t}, t, x, norm);
    ColumnResolves(Col(t, x), Env([Scope(tree, {t})], [], {t}, {}), norm, havingAliases);
  }

  /** What the three parts of the statement can see. */
  lemma CteEnvs(c: string, x: string, s: string, t: string, havingAliases: bool)
    requires t != ""
    ensures var tree := CteLikeTable(c, x, s, t);
      && ChildEnv(tree, 0, EMPTY, havingAliases) == Env([], [], {t}, {})
      && ChildEnv(tree, 1, EMPTY, havingAliases) == Env([Scope(tree, {t})], [], {t}, {})
  {
    CteDeclared(c, x, s, t);
    assert EMPTY.ctes + {t} == {t};
    var tree := CteLikeTable(c, x, s, t);
    assert tree.children[0].kind.With? && tree.children[1] == Col(t, x);
    assert [Scope(tree, {t})] + EMPTY.scopes == [Scope(tree, {t})];
  }

  lemma CteLikeTableResolves(c: string, x: string, s: string, t: string, norm: NormSchema, havingAliases: bool)
    requires s != "" && t != "" && s != t && s in norm && t in norm && c in norm[s]
    ensures Resolves(CteLikeTable(c, x, s, t), EMPTY, norm, havingAliases)
  {
    var tree := CteLikeTable(c, x, s, t);
    var with := Node(With, [Node(Cte(t), [SelectAs(c, x, s)])]);
    assert tree.children == [with, Col(t, x), FromTable(t, "")];
    CteEnvs(c, x, s, t, havingAliases);
    WithResolves(c, x, s, t, Env([], [], {t}, {}), norm, havingAliases);
    CteColumnResolves(c, x, s, t, norm, havingAliases);
    FromResolves(t, "", ChildEnv(tree, 2, EMPTY, havingAliases), norm, havingAliases);
    assert WellPlaced(tree);
  }

  /** A qualifier that only one base table goes by is taken to mean that table. */
  lemma TakenForTable(tree: Node, o: Occurrence, table: Occurrence, s: string, t: string, norm: NormSchema, havingAliases: bool)
    requires OnlyTables(tree, {Kind.Table(s, ""), Kind.Table(t, "")}) && t != "" && t in norm
    requires o in Occurrences(tree) && o.node.kind.Column? && o.node.kind.qualifier == t && o.node.kind.name != ""
    requires table in Occurrences(tree) && table.node.kind == Kind.Table(t, "")
    ensures ProblemIn(tree, o, norm, havingAliases).None? <==> o.node.kind.name in norm[t]
  {
    OnlyTablesMet(tree, {Kind.Table(s, ""), Kind.Table(t, "")});
    AliasMapComplete(Occurrences(tree), norm, table, t);
    AliasMapSound(Occurrences(tree), norm, t);
  }

  /** A derived table that goes by the name of the base table it reads hides that table, and
      the checker rejects a column that only the derived table has. */
  lemma NamedLikeTableRejected(c: string, x: string, t: string, norm: NormSchema, havingAliases: bool)
    requires t != "" && t in norm && c in norm[t] && x != "" && x !in norm[t]
    ensures Resolves(NamedLikeTable(c, x, t), EMPTY, norm, havingAliases)
    ensures !Accepts(NamedLikeTable(c, x, t), norm, havingAliases)
  {
    NamedLikeTableResolves(c, x, t, norm, havingAliases);
    var tree := NamedLikeTable(c, x, t);
    var tables := {Kind.Table(t, ""), Kind.Table(t, "")};
    SelectAsTables(c, x, t, tables);
    assert OnlyTables(tree.children[1].children[0], tables) && OnlyTables(tree.children[1], tables);
    var root := Occurrence(tree, []);
    WalkMeetsQueue([root], root);
    WalkMeetsChildren([root], root, 0);
    WalkMeetsChildren([root], root, 1);
    var from := ChildOccurrences(root)[1];
    WalkMeetsChildren([root], from, 0);
    var derived := ChildOccurrences(from)[0];
    WalkMeetsChildren([root], derived, 0);
    var select := ChildOccurrences(derived)[0];
    WalkMeetsChildren([root], select, 1);
    WalkMeetsChildren([root], ChildOccurrences(select)[1], 0);
    TakenForTable(tree, ChildOccurrences(root)[0], ChildOccurrences(ChildOccurrences(select)[1])[0], t, t, norm, havingAliases);
  }

  /** A CTE that goes by the name of a base table hides that table, and the checker
      rejects a column that only the CTE has. */
  lemma CteLikeTableRejected(c: string, x: string, s: string, t: string, norm: NormSchema, havingAliases: bool)
    requires s != "" && t != "" && s != t && s in norm && t in norm && c in norm[s] && x != "" && x !in norm[t]
    ensures Resolves(CteLikeTable(c, x, s, t), EMPTY, norm, havingAliases)
    ensures !Accepts(CteLikeTable(c, x, s, t), norm, havingAliases)
  {
    CteLikeTableResolves(c, x, s, t, norm, havingAliases);
    var tree := CteLikeTable(c, x, s, t);
    var tables := {Kind.Table(s, ""), Kind.Table(t, "")};
    SelectAsTables(c, x, s, tables);
    assert OnlyTables(tree.children[0].children[0], tables) && OnlyTables(tree.children[0], tables);
    assert OnlyTables(tree.children[2].children[0], tables) && OnlyTables(tree.children[2], tables);
    var root := Occurrence(tree, []);
    WalkMeetsQueue([root], root);
    WalkMeetsChildren([root], root, 1);
    WalkMeetsChildren([root], root, 2);
    var from := ChildOccurrences(root)[2];
    WalkMeetsChildren([root], from, 0);
    TakenForTable(tree, ChildOccurrences(root)[1], ChildOccurrences(from)[0], s, t, norm, havingAliases);
  }
}
