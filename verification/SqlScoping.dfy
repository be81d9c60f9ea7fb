/** Lexical name resolution for nested SELECTs, stated without reference to the checker,
    and the proof that the checker never rejects a statement that resolves. */
module SqlScoping {
  import opened Wrappers
  import opened SqlTree
  import opened SqlValidate

  /** A relation's columns: those of a base table, or the output columns of a CTE or
      derived table, which may be any at all. */
  datatype Relation = Base(table: string) | AnyColumns

  /** The relations a SELECT brings into scope, with the CTE names visible to it. */
  datatype Scope = Scope(select: Node, ctes: set<string>)

  /** What a node can see: its enclosing scopes innermost first, the scopes outside its
      own SELECT, the visible CTE names, and the select-list aliases its clause allows. */
  datatype Env = Env(scopes: seq<Scope>, outer: seq<Scope>, ctes: set<string>, aliases: set<string>)

  const EMPTY := Env([], [], {}, {})

  predicate IsSourceClause(n: Node) {
    (n.kind.From? || n.kind.Join?) && n.children != []
  }

  /** The relation a FROM or JOIN source denotes; a CTE hides a base table. */
  function RelationOf(source: Node, ctes: set<string>, norm: NormSchema): Option<Relation> {
    if source.kind.Subquery? then Some(AnyColumns)
    else if source.kind.Table? && source.kind.name != "" && source.kind.name in ctes then Some(AnyColumns)
    else if IsRealTable(source.kind, norm) then Some(Base(source.kind.name))
    else None
  }

  /** The one name a source goes by: its alias, or failing that its own name. */
  function ExposedName(source: Node): string {
    if source.kind.Subquery? then source.kind.alias
    else if source.kind.Table? then (if source.kind.alias != "" then source.kind.alias else source.kind.name)
    else ""
  }

  predicate Provides(r: Relation, column: string, norm: NormSchema) {
    r.Base? ==> r.table in norm && column in norm[r.table]
  }

  /** The scope has a source that denotes `r`. */
  ghost predicate HasRelation(s: Scope, r: Relation, norm: NormSchema) {
    exists clause :: clause in s.select.children && IsSourceClause(clause)
      && RelationOf(clause.children[0], s.ctes, norm) == Some(r)
  }

  /** The scope has a source called `name` that denotes `r`. */
  ghost predicate Names(s: Scope, name: string, r: Relation, norm: NormSchema) {
    exists clause :: clause in s.select.children && IsSourceClause(clause)
      && ExposedName(clause.children[0]) == name && RelationOf(clause.children[0], s.ctes, norm) == Some(r)
  }

  /** A qualified column belongs to the innermost source of that name. */
  ghost predicate ResolvesQualified(scopes: seq<Scope>, qualifier: string, column: string, norm: NormSchema) {
    if scopes == [] then false
    else if exists r :: Names(scopes[0], qualifier, r, norm) then
      exists r :: Names(scopes[0], qualifier, r, norm) && Provides(r, column, norm)
    else ResolvesQualified(scopes[1..], qualifier, column, norm)
  }

  /** An unqualified column belongs to some source in scope, or names a select-list
      item where its clause allows that. */
  ghost predicate ResolvesUnqualified(env: Env, column: string, norm: NormSchema) {
    || column in env.aliases
    || exists s, r :: s in env.scopes && HasRelation(s, r, norm) && Provides(r, column, norm)
  }

  function DeclaredCtes(n: Node): set<string> {
    set w, c | w in n.children && w.kind.With? && c in w.children && c.kind.Cte? && c.kind.name != "" :: c.kind.name
  }

  /** The item at this place of a SELECT is given this name. */
  predicate NamesItem(select: Node, i: nat, name: string) {
    i < |select.children| && name != "" && select.children[i].kind == Kind.Alias(name)
  }

  /** The names given to the items of a SELECT, at whatever place. */
  function ItemNames(select: Node): set<string> {
    set i | 0 <= i < |select.children| && select.children[i].kind.Alias? && select.children[i].kind.alias != ""
      :: select.children[i].kind.alias
  }

  lemma ItemNamesExactly(select: Node, name: string)
    ensures name in ItemNames(select) <==> exists i :: NamesItem(select, i, name)
  {
    if i: nat :| NamesItem(select, i, name) {
      assert select.children[i].kind.alias == name;
    }
    if name in ItemNames(select) {
      var i :| 0 <= i < |select.children| && select.children[i].kind.Alias? && name != ""
        && select.children[i].kind.alias == name;
      assert NamesItem(select, i, name);
    }
  }

  /** The checker's aliases of a SELECT are the names of its items. */
  lemma AliasesAreItems(select: Node)
    ensures ProjectionAliases(select) == ItemNames(select)
  {
    forall name ensures name in ProjectionAliases(select) <==> name in ItemNames(select) {
      if name in ProjectionAliases(select) {
        var child :| child in select.children && child.kind.Alias? && child.kind.alias != "" && child.kind.alias == name;
        var i :| 0 <= i < |select.children| && select.children[i] == child;
        assert select.children[i].kind.alias == name;
      }
    }
    SameMembers(ProjectionAliases(select), ItemNames(select));
  }

  /** The select-list aliases a UNION's ORDER BY may use: those of its first SELECT. */
  function OutputAliases(n: Node): set<string>
    decreases n
  {
    if n.kind.Select? then ItemNames(n)
    else if n.kind.Union? && n.children != [] then OutputAliases(n.children[0])
    else {}
  }

  /** What the i-th child of a node can see, from what the node can see. A SELECT opens a
      scope for its clauses but not for its CTEs or derived tables. */
  function ChildEnv(n: Node, i: nat, env: Env, havingAliases: bool): Env
    requires i < |n.children|
  {
    var child := n.children[i];
    if n.kind.Select? || n.kind.Union? then
      var ctes := env.ctes + DeclaredCtes(n);
      var inner := if n.kind.Select? then [Scope(n, ctes)] + env.scopes else env.scopes;
      if child.kind.With? then Env(env.scopes, env.scopes, ctes, {})
      else if n.kind.Union? then Env(inner, env.scopes, ctes, if child.kind.Order? then OutputAliases(n) else {})
      else if child.kind.Order? || child.kind.Group? || (child.kind.Having? && havingAliases) then
        Env(inner, env.scopes, ctes, ItemNames(n))
      else Env(inner, env.scopes, ctes, {})
    else if n.kind.From? || n.kind.Join? then
      if i == 0 then Env(env.outer, env.outer, env.ctes, {}) else Env(env.scopes, env.scopes, env.ctes, {})
    else if n.kind.Window? then env.(aliases := {})
    else env
  }

  /** Clauses occur only where SQL puts them. */
  predicate WellPlaced(n: Node) {
    forall child :: child in n.children ==>
      && (child.kind.From? || child.kind.Join? ==> n.kind.Select? && child.children != [])
      && (child.kind.Group? || child.kind.Having? ==> n.kind.Select?)
  }

  ghost predicate ResolvesHere(n: Node, env: Env, norm: NormSchema) {
    match n.kind
    case Column(name, qualifier) =>
      name == "" ||
      (if qualifier != "" then ResolvesQualified(env.scopes, qualifier, name, norm)
       else ResolvesUnqualified(env, name, norm))
    case Table(name, _) => name == "" || name in env.ctes || name in norm
    case _ => true
  }

  /** Every table and column of the tree resolves under lexical scoping. */
  ghost predicate Resolves(n: Node, env: Env, norm: NormSchema, havingAliases: bool)
    decreases n
  {
    && WellPlaced(n)
    && ResolvesHere(n, env, norm)
    && forall i :: 0 <= i < |n.children| ==> Resolves(n.children[i], ChildEnv(n, i, env, havingAliases), norm, havingAliases)
  }

  // ── What the checker's flat name map relies on ─────────────────────

  /** A source label goes by a name, as the checker or as SQL sees it. */
  predicate GoesBy(kind: Kind, name: string) {
    name != "" && match kind
      case Table(table, alias) => name == table || name == alias
      case Subquery(alias) => name == alias
      case _ => false
  }

  /** The name stands for a base table in one place and for something else in another,
      or that table's own name is also a CTE's. */
  ghost predicate Shared(kinds: set<Kind>, norm: NormSchema, name: string) {
    exists k :: k in kinds && IsRealTable(k, norm) && GoesBy(k, name)
      && (k.name in CteNames(kinds) || OtherMeaning(kinds, k, name))
  }

  ghost predicate OtherMeaning(kinds: set<Kind>, k: Kind, name: string)
    requires k.Table?
  {
    exists k2 :: k2 in kinds && GoesBy(k2, name) && !(k2.Table? && k2.name == k.name)
  }

  /** Going outwards, an ORDER BY of a UNION comes before any SELECT or UNION. */
  predicate InUnionOrder(ancestors: seq<Node>)
    decreases |ancestors|
  {
    && ancestors != [] && !ancestors[0].kind.Select? && !ancestors[0].kind.Union?
    && ((ancestors[0].kind.Order? && |ancestors| > 1 && ancestors[1].kind.Union?) || InUnionOrder(ancestors[1..]))
  }

  /** The column sits in a clause that may use the aliases of its SELECT, and names one. */
  ghost predicate MayUseAlias(o: Occurrence, name: string, havingAliases: bool) {
    exists clause, select: Node ::
      Sits(o.ancestors, clause, Some(select)) && Permitted(clause, havingAliases) && name in ItemNames(select)
  }

  ghost predicate SomeTableHas(kinds: set<Kind>, norm: NormSchema, name: string) {
    exists k :: k in kinds && IsRealTable(k, norm) && name in norm[k.name]
  }

  ghost predicate UsesTables(kinds: set<Kind>, norm: NormSchema) {
    exists k :: k in kinds && IsRealTable(k, norm)
  }

  /** An unqualified name has some meaning: a base table anywhere in the statement has the
      column, or there is none to look in, or a SELECT around it reads a relation whose
      columns are not listed, or it may be the alias it names. */
  ghost predicate KnownSomehow(tree: Node, o: Occurrence, name: string, norm: NormSchema, havingAliases: bool) {
    || SomeTableHas(Kinds(tree), norm, name)
    || !UsesTables(Kinds(tree), norm)
    || OpaqueInScope(o.ancestors, CteNames(Kinds(tree)), norm)
    || MayUseAlias(o, name, havingAliases)
  }

  predicate NamesTable(o: Occurrence, norm: NormSchema, name: string) {
    IsRealTable(o.node.kind, norm) && GoesBy(o.node.kind, name)
  }

  /** The last base table in the order of the walk that goes by a name. */
  ghost predicate LastNamed(occurrences: seq<Occurrence>, norm: NormSchema, name: string, table: string) {
    exists i :: 0 <= i < |occurrences| && IsLastNamed(occurrences, norm, name, i)
      && occurrences[i].node.kind.name == table
  }

  predicate IsLastNamed(occurrences: seq<Occurrence>, norm: NormSchema, name: string, i: nat)
    requires i < |occurrences|
  {
    NamesTable(occurrences[i], norm, name) && forall j :: i < j < |occurrences| ==> !NamesTable(occurrences[j], norm, name)
  }

  /** If base tables go by the qualifier, the last of them has the column. */
  ghost predicate LastHasColumn(tree: Node, qualifier: string, name: string, norm: NormSchema) {
    forall table :: LastNamed(Occurrences(tree), norm, qualifier, table) ==> table in norm && name in norm[table]
  }

  /** The two kinds of column in which the checker may reject what resolves: one in the
      ORDER BY of a UNION, and one with a shared qualifier. */
  ghost predicate AtRisk(o: Occurrence, kinds: set<Kind>, norm: NormSchema) {
    && o.node.kind.Column? && o.node.kind.name != ""
    && if o.node.kind.qualifier == "" then InUnionOrder(o.ancestors) else Shared(kinds, norm, o.node.kind.qualifier)
  }

  /** A column at risk that does no harm. */
  ghost predicate Harmless(tree: Node, o: Occurrence, norm: NormSchema, havingAliases: bool)
    requires o.node.kind.Column?
  {
    var Column(name, qualifier) := o.node.kind;
    if qualifier == "" then KnownSomehow(tree, o, name, norm, havingAliases)
    else LastHasColumn(tree, qualifier, name, norm)
  }

  // ── The invariant carried down the tree ────────────────────────────

  predicate Permitted(clause: Clause, havingAliases: bool) {
    clause.InOrder? || clause.InGroup? || (clause.InHaving? && havingAliases)
  }

  /** Scanning outwards from here finds a clause that may use the visible aliases. */
  ghost predicate AliasesReachable(ancestors: seq<Node>, aliases: set<string>, havingAliases: bool) {
    forall start: Clause :: start.Elsewhere? || Permitted(start, havingAliases) ==>
      var (clause, select) := ClauseScan(ancestors, start, false);
      Permitted(clause, havingAliases) && select.Some? && aliases <= ItemNames(select.value)
  }

  ghost predicate ScopeFits(s: Scope, ancestors: seq<Node>, kinds: set<Kind>) {
    s.select in ancestors && s.select.kind.Select? && s.ctes <= CteNames(kinds)
  }

  ghost predicate Fits(n: Node, ancestors: seq<Node>, env: Env, kinds: set<Kind>, havingAliases: bool) {
    && Kinds(n) <= kinds && (forall a :: a in ancestors ==> Kinds(a) <= kinds)
    && (forall s :: s in env.scopes ==> ScopeFits(s, ancestors, kinds))
    && (forall s :: s in env.outer ==> ScopeFits(s, ancestors, kinds))
    && env.ctes <= CteNames(kinds)
    && (env.aliases != {} && !n.kind.Select? && !n.kind.Union? && !n.kind.Window? && !InUnionOrder([n] + ancestors) ==>
      AliasesReachable([n] + ancestors, env.aliases, havingAliases))
  }

  /** An occurrence that resolves in an environment drawn from its ancestors. */
  ghost predicate Good(o: Occurrence, kinds: set<Kind>, norm: NormSchema, havingAliases: bool) {
    exists env :: Resolves(o.node, env, norm, havingAliases) && Fits(o.node, o.ancestors, env, kinds, havingAliases)
  }

  lemma DeclaredAreCtes(n: Node)
    ensures DeclaredCtes(n) <= CteNames(Kinds(n))
  {
    forall w, c | w in n.children && w.kind.With? && c in w.children && c.kind.Cte? && c.kind.name != ""
      ensures c.kind in Kinds(n)
    {
      var i :| 0 <= i < |n.children| && n.children[i] == w;
      var j :| 0 <= j < |w.children| && w.children[j] == c;
      ChildKinds(n.children, i);
      ChildKinds(w.children, j);
    }
  }

  lemma CteNamesMonotone(a: set<Kind>, b: set<Kind>)
    requires a <= b
    ensures CteNames(a) <= CteNames(b)
  {
  }

  lemma ChildAliasesReachable(n: Node, i: nat, ancestors: seq<Node>, env: Env, kinds: set<Kind>, havingAliases: bool)
    requires i < |n.children| && WellPlaced(n)
    requires Fits(n, ancestors, env, kinds, havingAliases)
    requires ChildEnv(n, i, env, havingAliases).aliases != {}
    requires var child := n.children[i]; !child.kind.Select? && !child.kind.Union? && !child.kind.Window?
    requires !InUnionOrder([n.children[i], n] + ancestors)
    ensures AliasesReachable([n.children[i], n] + ancestors, ChildEnv(n, i, env, havingAliases).aliases, havingAliases)
  {
    var child := n.children[i];
    var chain := [child, n] + ancestors;
    assert child in n.children;
    assert chain[1..] == [n] + ancestors && ([n] + ancestors)[1..] == ancestors;
    forall start: Clause | start.Elsewhere? || Permitted(start, havingAliases)
      ensures var (clause, select) := ClauseScan(chain, start, false);
        Permitted(clause, havingAliases) && select.Some?
        && ChildEnv(n, i, env, havingAliases).aliases <= ItemNames(select.value)
    {
      var next := ClauseAt(child.kind, start);
      assert ClauseScan(chain, start, false) == ClauseScan([n] + ancestors, next, false);
    }
  }

  lemma {:induction false} ChildFits(n: Node, i: nat, ancestors: seq<Node>, env: Env, kinds: set<Kind>,
    havingAliases: bool)
    requires i < |n.children| && WellPlaced(n)
    requires Fits(n, ancestors, env, kinds, havingAliases)
    ensures Fits(n.children[i], [n] + ancestors, ChildEnv(n, i, env, havingAliases), kinds, havingAliases)
  {
    var child, env' := n.children[i], ChildEnv(n, i, env, havingAliases);
    ChildKinds(n.children, i);
    DeclaredAreCtes(n);
    CteNamesMonotone(Kinds(n), kinds);
    assert [child] + ([n] + ancestors) == [child, n] + ancestors;
    if env'.aliases != {} && !child.kind.Select? && !child.kind.Union? && !child.kind.Window?
      && !InUnionOrder([child, n] + ancestors)
    {
      ChildAliasesReachable(n, i, ancestors, env, kinds, havingAliases);
    }
  }

  lemma GoodChildren(o: Occurrence, kinds: set<Kind>, norm: NormSchema, havingAliases: bool)
    requires Good(o, kinds, norm, havingAliases)
    ensures forall i :: 0 <= i < |o.node.children| ==> Good(ChildOccurrences(o)[i], kinds, norm, havingAliases)
  {
    var env :| Resolves(o.node, env, norm, havingAliases) && Fits(o.node, o.ancestors, env, kinds, havingAliases);
    forall i | 0 <= i < |o.node.children| ensures Good(ChildOccurrences(o)[i], kinds, norm, havingAliases) {
      ChildFits(o.node, i, o.ancestors, env, kinds, havingAliases);
      assert o.node.children[i] in o.node.children;
      assert Resolves(o.node.children[i], ChildEnv(o.node, i, env, havingAliases), norm, havingAliases);
    }
  }

  lemma AllGood(tree: Node, norm: NormSchema, havingAliases: bool)
    requires Resolves(tree, EMPTY, norm, havingAliases)
    ensures forall o :: o in Occurrences(tree) ==> Good(o, Kinds(tree), norm, havingAliases)
  {
    var p := o => Good(o, Kinds(tree), norm, havingAliases);
    forall o | p(o) ensures forall i :: 0 <= i < |o.node.children| ==> p(ChildOccurrences(o)[i]) {
      GoodChildren(o, Kinds(tree), norm, havingAliases);
    }
    assert Fits(tree, [], EMPTY, Kinds(tree), havingAliases);
    assert p(Occurrence(tree, []));
    WalkInherits([Occurrence(tree, [])], p);
  }

  // ── What resolving means for the checker ───────────────────────────

  ghost predicate IsEntry(o: Occurrence, norm: NormSchema, name: string, table: string) {
    IsRealTable(o.node.kind, norm) && GoesBy(o.node.kind, name) && o.node.kind.name == table
  }

  /** Every entry of the alias map comes from a base table that goes by that name. */
  lemma {:induction false} AliasMapSound(occurrences: seq<Occurrence>, norm: NormSchema, name: string)
    requires name in AliasMap(occurrences, norm)
    ensures exists o :: o in occurrences && IsEntry(o, norm, name, AliasMap(occurrences, norm)[name])
    decreases |occurrences|
  {
    var front, last := occurrences[..|occurrences| - 1], occurrences[|occurrences| - 1];
    if IsRealTable(last.node.kind, norm) && GoesBy(last.node.kind, name) {
      assert last in occurrences;
    } else {
      AliasMapSound(front, norm, name);
      var o :| o in front && IsEntry(o, norm, name, AliasMap(front, norm)[name]);
      assert o in occurrences;
    }
  }

  /** And every base table that goes by a name makes the map hold it. */
  lemma {:induction false} AliasMapComplete(occurrences: seq<Occurrence>, norm: NormSchema, o: Occurrence, name: string)
    requires o in occurrences && IsRealTable(o.node.kind, norm) && GoesBy(o.node.kind, name)
    ensures name in AliasMap(occurrences, norm)
    decreases |occurrences|
  {
    var front, last := occurrences[..|occurrences| - 1], occurrences[|occurrences| - 1];
    if o != last {
      assert o in front;
      AliasMapComplete(front, norm, o, name);
    }
  }

  lemma {:induction false} QualifiedHasScope(scopes: seq<Scope>, qualifier: string, column: string, norm: NormSchema)
    requires ResolvesQualified(scopes, qualifier, column, norm)
    ensures exists s, r :: s in scopes && Names(s, qualifier, r, norm) && Provides(r, column, norm)
    decreases |scopes|
  {
    if exists r :: Names(scopes[0], qualifier, r, norm) {
      assert scopes[0] in scopes;
    } else {
      QualifiedHasScope(scopes[1..], qualifier, column, norm);
    }
  }

  /** The source a scope names is one of the statement's labels. */
  lemma SourceIsLabel(s: Scope, clause: Node, ancestors: seq<Node>, kinds: set<Kind>)
    requires ScopeFits(s, ancestors, kinds) && (forall a :: a in ancestors ==> Kinds(a) <= kinds)
    requires clause in s.select.children && IsSourceClause(clause)
    ensures clause.children[0].kind in kinds
  {
    var i :| 0 <= i < |s.select.children| && s.select.children[i] == clause;
    ChildKinds(s.select.children, i);
    ChildKinds(clause.children, 0);
  }

  /** The alias map's entry for a name is a label of the statement. */
  lemma EntryLabel(tree: Node, norm: NormSchema, name: string) returns (kind: Kind)
    requires name in AliasMap(Occurrences(tree), norm)
    ensures kind in Kinds(tree) && IsRealTable(kind, norm) && GoesBy(kind, name)
    ensures kind.name == AliasMap(Occurrences(tree), norm)[name]
  {
    var occurrences := Occurrences(tree);
    AliasMapSound(occurrences, norm, name);
    var o :| o in occurrences && IsEntry(o, norm, name, AliasMap(occurrences, norm)[name]);
    kind := o.node.kind;
    OccurrencesMeetKinds(tree);
    assert Walked(occurrences, kind);
  }

  /** The source a qualified column belongs to is a label of the statement. */
  lemma QualifierLabel(scopes: seq<Scope>, ancestors: seq<Node>, kinds: set<Kind>, norm: NormSchema,
    qualifier: string, column: string) returns (kind: Kind, ctes: set<string>)
    requires qualifier != "" && ResolvesQualified(scopes, qualifier, column, norm)
    requires forall s :: s in scopes ==> ScopeFits(s, ancestors, kinds)
    requires forall a :: a in ancestors ==> Kinds(a) <= kinds
    ensures kind in kinds && GoesBy(kind, qualifier) && ctes <= CteNames(kinds)
    ensures IsRealTable(kind, norm) && kind.name !in ctes ==> column in norm[kind.name]
  {
    QualifiedHasScope(scopes, qualifier, column, norm);
    var s, r :| s in scopes && Names(s, qualifier, r, norm) && Provides(r, column, norm);
    var clause :| clause in s.select.children && IsSourceClause(clause)
      && ExposedName(clause.children[0]) == qualifier && RelationOf(clause.children[0], s.ctes, norm) == Some(r);
    SourceIsLabel(s, clause, ancestors, kinds);
    kind, ctes := clause.children[0].kind, s.ctes;
  }

  lemma QualifiedAccepted(o: Occurrence, env: Env, tree: Node, norm: NormSchema, havingAliases: bool)
    requires o.node.kind.Column? && o.node.kind.name != "" && o.node.kind.qualifier != ""
    requires ResolvesQualified(env.scopes, o.node.kind.qualifier, o.node.kind.name, norm)
    requires Fits(o.node, o.ancestors, env, Kinds(tree), havingAliases)
    requires !Shared(Kinds(tree), norm, o.node.kind.qualifier)
    ensures ProblemIn(tree, o, norm, havingAliases).None?
  {
    var q := o.node.kind.qualifier;
    if q in AliasMap(Occurrences(tree), norm) {
      var entry := EntryLabel(tree, norm, q);
      var source, ctes := QualifierLabel(env.scopes, o.ancestors, Kinds(tree), norm, q, o.node.kind.name);
      assert !OtherMeaning(Kinds(tree), entry, q);
      assert source.Table? && source.name == entry.name;
    }
  }

  /** The source an unqualified column belongs to is a table in use or is opaque. */
  lemma SourceKnownOrOpaque(o: Occurrence, s: Scope, r: Relation, tree: Node, norm: NormSchema)
    requires ScopeFits(s, o.ancestors, Kinds(tree)) && forall a :: a in o.ancestors ==> Kinds(a) <= Kinds(tree)
    requires HasRelation(s, r, norm)
    ensures r.Base? ==> r.table in TablesInUse(Occurrences(tree), norm)
    ensures r.AnyColumns? ==> OpaqueInScope(o.ancestors, CteNames(Kinds(tree)), norm)
  {
    var clause :| clause in s.select.children && IsSourceClause(clause)
      && RelationOf(clause.children[0], s.ctes, norm) == Some(r);
    SourceIsLabel(s, clause, o.ancestors, Kinds(tree));
    if r.Base? {
      OccurrencesMeetKinds(tree);
      assert Walked(Occurrences(tree), clause.children[0].kind);
    } else {
      assert BringsOpaque(clause, CteNames(Kinds(tree)), norm);
    }
  }

  lemma AliasAccepted(o: Occurrence, env: Env, tree: Node, norm: NormSchema, havingAliases: bool)
    requires o.node.kind.Column? && o.node.kind.name in env.aliases && !InUnionOrder(o.ancestors)
    requires Fits(o.node, o.ancestors, env, Kinds(tree), havingAliases)
    ensures AliasVisible(o, o.node.kind.name, havingAliases)
  {
    assert ([o.node] + o.ancestors)[1..] == o.ancestors;
    var (_, select) := ClauseScan(o.ancestors, Elsewhere, false);
    if select.Some? {
      AliasesAreItems(select.value);
    }
    assert ClauseScan([o.node] + o.ancestors, Elsewhere, false) == ClauseScan(o.ancestors, Elsewhere, false);
  }

  lemma UnqualifiedAccepted(o: Occurrence, env: Env, tree: Node, norm: NormSchema, havingAliases: bool)
    requires o.node.kind.Column? && o.node.kind.name != "" && o.node.kind.qualifier == "" && !InUnionOrder(o.ancestors)
    requires ResolvesUnqualified(env, o.node.kind.name, norm)
    requires Fits(o.node, o.ancestors, env, Kinds(tree), havingAliases)
    ensures ProblemIn(tree, o, norm, havingAliases).None?
  {
    var column := o.node.kind.name;
    if column in env.aliases {
      AliasAccepted(o, env, tree, norm, havingAliases);
    } else {
      var s, r :| s in env.scopes && HasRelation(s, r, norm) && Provides(r, column, norm);
      SourceKnownOrOpaque(o, s, r, tree, norm);
    }
  }

  /** A statement whose every name resolves is rejected only for columns at risk. */
  lemma RejectedOnlyAtRisk(tree: Node, o: Occurrence, norm: NormSchema, havingAliases: bool)
    requires Resolves(tree, EMPTY, norm, havingAliases) && o in Occurrences(tree)
    requires ProblemIn(tree, o, norm, havingAliases).Some?
    ensures AtRisk(o, Kinds(tree), norm)
  {
    AllGood(tree, norm, havingAliases);
    var env :| Resolves(o.node, env, norm, havingAliases) && Fits(o.node, o.ancestors, env, Kinds(tree), havingAliases);
    if o.node.kind.Column? && o.node.kind.name != "" && !AtRisk(o, Kinds(tree), norm) {
      if o.node.kind.qualifier == "" {
        UnqualifiedAccepted(o, env, tree, norm, havingAliases);
      } else {
        QualifiedAccepted(o, env, tree, norm, havingAliases);
      }
    }
  }

  // ── What the checker answers for a column, on any tree ─────────────

  lemma AliasVisibleExactly(o: Occurrence, name: string, havingAliases: bool)
    ensures AliasVisible(o, name, havingAliases) <==> MayUseAlias(o, name, havingAliases)
  {
    ScanSits(o.ancestors);
    var (clause, select) := ClauseScan(o.ancestors, Elsewhere, false);
    if select.Some? {
      AliasesAreItems(select.value);
    }
    forall other, node: Node | Sits(o.ancestors, other, Some(node)) ensures other == clause && select == Some(node) {
      SitsUnique(o.ancestors, clause, select, other, Some(node));
    }
    if AliasVisible(o, name, havingAliases) {
      assert Sits(o.ancestors, clause, Some(select.value)) && Permitted(clause, havingAliases);
    }
  }

  lemma TablesInUseAreKinds(tree: Node, norm: NormSchema)
    ensures forall t :: t in TablesInUse(Occurrences(tree), norm) <==>
      exists k :: k in Kinds(tree) && IsRealTable(k, norm) && k.name == t
  {
    var occurrences := Occurrences(tree);
    OccurrencesMeetKinds(tree);
    forall t ensures t in TablesInUse(occurrences, norm) <==>
      exists k :: k in Kinds(tree) && IsRealTable(k, norm) && k.name == t
    {
      if k :| k in Kinds(tree) && IsRealTable(k, norm) && k.name == t {
        assert Walked(occurrences, k);
      }
      if o :| o in occurrences && IsRealTable(o.node.kind, norm) && o.node.kind.name == t {
        assert Walked(occurrences, o.node.kind);
      }
    }
  }

  /** An unqualified column is accepted exactly when it is known somehow. */
  lemma UnqualifiedExactly(tree: Node, o: Occurrence, norm: NormSchema, havingAliases: bool)
    requires o.node.kind.Column? && o.node.kind.name != "" && o.node.kind.qualifier == ""
    ensures ProblemIn(tree, o, norm, havingAliases).None? <==>
      KnownSomehow(tree, o, o.node.kind.name, norm, havingAliases)
  {
    var name, inUse := o.node.kind.name, TablesInUse(Occurrences(tree), norm);
    AliasVisibleExactly(o, name, havingAliases);
    TablesInUseAreKinds(tree, norm);
    assert inUse != {} <==> UsesTables(Kinds(tree), norm) by {
      if k :| k in Kinds(tree) && IsRealTable(k, norm) {
        assert k.name in inUse;
      }
      if t :| t in inUse {
      }
    }
    assert (exists t :: t in inUse && name in norm[t]) <==> SomeTableHas(Kinds(tree), norm, name) by {
      if k :| k in Kinds(tree) && IsRealTable(k, norm) && name in norm[k.name] {
        assert k.name in inUse;
      }
    }
  }

  lemma LastNamedGrows(front: seq<Occurrence>, last: Occurrence, norm: NormSchema, name: string, table: string)
    requires if NamesTable(last, norm, name) then table == last.node.kind.name else LastNamed(front, norm, name, table)
    ensures LastNamed(front + [last], norm, name, table)
  {
    var all := front + [last];
    if NamesTable(last, norm, name) {
      assert IsLastNamed(all, norm, name, |front|);
    } else {
      var i :| 0 <= i < |front| && IsLastNamed(front, norm, name, i) && front[i].node.kind.name == table;
      forall j | i < j < |all| ensures !NamesTable(all[j], norm, name) {
        assert j < |front| ==> all[j] == front[j];
      }
      assert IsLastNamed(all, norm, name, i);
    }
  }

  /** The alias map sends a name to the last base table that goes by it. */
  lemma {:induction false} AliasMapHoldsLast(occurrences: seq<Occurrence>, norm: NormSchema, name: string)
    ensures name in AliasMap(occurrences, norm) ==>
      LastNamed(occurrences, norm, name, AliasMap(occurrences, norm)[name])
    ensures name !in AliasMap(occurrences, norm) ==> forall o :: o in occurrences ==> !NamesTable(o, norm, name)
    decreases |occurrences|
  {
    if occurrences != [] {
      var front, last := occurrences[..|occurrences| - 1], occurrences[|occurrences| - 1];
      AliasMapHoldsLast(front, norm, name);
      assert occurrences == front + [last];
      OneMoreTable(front, last, norm);
      if name in AliasMap(occurrences, norm) {
        LastNamedGrows(front, last, norm, name, AliasMap(occurrences, norm)[name]);
      }
    }
  }

  /** A qualified column is accepted exactly when the last base table that goes by its
      qualifier, if any, has it. */
  lemma QualifiedExactly(tree: Node, o: Occurrence, norm: NormSchema, havingAliases: bool)
    requires o.node.kind.Column? && o.node.kind.name != "" && o.node.kind.qualifier != ""
    ensures ProblemIn(tree, o, norm, havingAliases).None? <==>
      LastHasColumn(tree, o.node.kind.qualifier, o.node.kind.name, norm)
  {
    var occurrences, q := Occurrences(tree), o.node.kind.qualifier;
    AliasMapHoldsLast(occurrences, norm, q);
    forall table | LastNamed(occurrences, norm, q, table)
      ensures q in AliasMap(occurrences, norm) && table == AliasMap(occurrences, norm)[q]
    {
      var i :| 0 <= i < |occurrences| && IsLastNamed(occurrences, norm, q, i) && occurrences[i].node.kind.name == table;
      assert occurrences[i] in occurrences;
      var j :| 0 <= j < |occurrences| && IsLastNamed(occurrences, norm, q, j)
        && occurrences[j].node.kind.name == AliasMap(occurrences, norm)[q];
      assert i == j;
    }
  }

  /** When the checker accepts a statement whose every name resolves lexically: exactly
      when every column at risk is harmless. */
  lemma AcceptsResolvedExactly(tree: Node, norm: NormSchema, havingAliases: bool)
    requires Resolves(tree, EMPTY, norm, havingAliases)
    ensures Accepts(tree, norm, havingAliases) <==>
      forall o :: o in Occurrences(tree) && AtRisk(o, Kinds(tree), norm) ==> Harmless(tree, o, norm, havingAliases)
  {
    forall o | o in Occurrences(tree)
      ensures ProblemIn(tree, o, norm, havingAliases).None? <==>
        (AtRisk(o, Kinds(tree), norm) ==> Harmless(tree, o, norm, havingAliases))
    {
      if ProblemIn(tree, o, norm, havingAliases).Some? {
        RejectedOnlyAtRisk(tree, o, norm, havingAliases);
      }
      if AtRisk(o, Kinds(tree), norm) {
        if o.node.kind.qualifier == "" {
          UnqualifiedExactly(tree, o, norm, havingAliases);
        } else {
          QualifiedExactly(tree, o, norm, havingAliases);
        }
      }
    }
  }

  ghost predicate NoUnionOrder(n: Node)
    decreases n
  {
    && (n.kind.Union? ==> forall child :: child in n.children ==> !child.kind.Order?)
    && forall child :: child in n.children ==> NoUnionOrder(child)
  }

  lemma NoneInUnionOrder(tree: Node)
    requires NoUnionOrder(tree)
    ensures forall o :: o in Occurrences(tree) && o.node.kind.Column? ==> !InUnionOrder(o.ancestors)
  {
    var p := (o: Occurrence) => NoUnionOrder(o.node) && !InUnionOrder([o.node] + o.ancestors);
    forall o | p(o) ensures forall i :: 0 <= i < |o.node.children| ==> p(ChildOccurrences(o)[i]) {
      forall i | 0 <= i < |o.node.children| ensures p(ChildOccurrences(o)[i]) {
        var child, chain := o.node.children[i], [o.node] + o.ancestors;
        assert child in o.node.children;
        assert ([child] + chain)[1..] == chain;
      }
    }
    var root := Occurrence(tree, []);
    assert ([root.node] + root.ancestors)[1..] == [];
    assert !InUnionOrder([root.node] + root.ancestors);
    assert p(root);
    WalkInherits([root], p);
    forall o | o in Occurrences(tree) && o.node.kind.Column? ensures !InUnionOrder(o.ancestors) {
      assert ([o.node] + o.ancestors)[1..] == o.ancestors;
    }
  }

  /** No false rejection: a statement whose every name resolves lexically is accepted,
      provided no name is both a base table's and something else's, no base table it
      uses shares its name with a CTE, and no UNION is ordered. */
  lemma NoFalseRejection(tree: Node, norm: NormSchema, havingAliases: bool)
    requires Resolves(tree, EMPTY, norm, havingAliases) && NoUnionOrder(tree)
    requires forall name :: !Shared(Kinds(tree), norm, name)
    ensures Accepts(tree, norm, havingAliases)
  {
    AcceptsResolvedExactly(tree, norm, havingAliases);
    NoneInUnionOrder(tree);
  }
}
