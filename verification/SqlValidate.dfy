/** The static name checker: which table and column references it reports. */
module SqlValidate {
  import opened Wrappers
  import opened SqlTree

  /** Column names by table, both lower-cased. */
  type NormSchema = map<string, set<string>>

  datatype Clause = Elsewhere | InOrder | InGroup | InHaving

  /** One step of _alias_clause's walk, at a node that is not a SELECT. */
  function ClauseAt(kind: Kind, clause: Clause): Clause {
    if !clause.Elsewhere? then clause
    else if kind.Order? then InOrder
    else if kind.Group? then InGroup
    else if kind.Having? then InHaving
    else Elsewhere
  }

  /** Where a node sits relative to its nearest enclosing SELECT, scanning outwards. */
  function ClauseScan(ancestors: seq<Node>, clause: Clause, windowed: bool): (Clause, Option<Node>)
    decreases |ancestors|
  {
    if ancestors == [] then (if windowed then Elsewhere else clause, None)
    else
      var node := ancestors[0];
      if node.kind.Select? then (if windowed then Elsewhere else clause, Some(node))
      else if node.kind.Window? then ClauseScan(ancestors[1..], clause, true)
      else if windowed then ClauseScan(ancestors[1..], clause, true)
      else ClauseScan(ancestors[1..], ClauseAt(node.kind, clause), false)
  }

  /** The n-th ancestor is the nearest SELECT, or there is no SELECT and n is their number. */
  predicate NearestSelect(ancestors: seq<Node>, n: nat, select: Option<Node>) {
    && n <= |ancestors| && (forall j :: 0 <= j < n ==> !ancestors[j].kind.Select?)
    && (if n == |ancestors| then select.None? else ancestors[n].kind.Select? && select == Some(ancestors[n]))
  }

  predicate WindowBefore(ancestors: seq<Node>, n: nat)
    requires n <= |ancestors|
  {
    exists j :: 0 <= j < n && ancestors[j].kind.Window?
  }

  /** The j-th ancestor is the first that is a clause. */
  predicate IsFirstClause(ancestors: seq<Node>, j: nat, clause: Clause)
    requires j < |ancestors|
  {
    && ClauseAt(ancestors[j].kind, Elsewhere) == clause
    && forall i :: 0 <= i < j ==> ClauseAt(ancestors[i].kind, Elsewhere).Elsewhere?
  }

  /** The nearest clause among the first n ancestors; Elsewhere when there is none. */
  predicate FirstClause(ancestors: seq<Node>, n: nat, clause: Clause)
    requires n <= |ancestors|
  {
    if clause.Elsewhere? then forall j :: 0 <= j < n ==> ClauseAt(ancestors[j].kind, Elsewhere).Elsewhere?
    else exists j :: 0 <= j < n && IsFirstClause(ancestors, j, clause)
  }

  /** Where a node sits: in the clause nearest to it on the way to its SELECT, but nowhere
      if a window function lies on that way. */
  ghost predicate Sits(ancestors: seq<Node>, clause: Clause, select: Option<Node>) {
    exists n :: NearestSelect(ancestors, n, select)
      && if WindowBefore(ancestors, n) then clause.Elsewhere? else FirstClause(ancestors, n, clause)
  }

  lemma {:induction false} ScanFinds(ancestors: seq<Node>, clause: Clause, windowed: bool) returns (n: nat)
    ensures NearestSelect(ancestors, n, ClauseScan(ancestors, clause, windowed).1)
    ensures windowed || WindowBefore(ancestors, n) ==> ClauseScan(ancestors, clause, windowed).0.Elsewhere?
    ensures !windowed && !WindowBefore(ancestors, n) ==>
      var found := ClauseScan(ancestors, clause, windowed).0;
      if clause.Elsewhere? then FirstClause(ancestors, n, found) else found == clause
    decreases |ancestors|
  {
    if ancestors == [] || ancestors[0].kind.Select? {
      n := 0;
    } else {
      var rest, windowed' := ancestors[1..], windowed || ancestors[0].kind.Window?;
      var clause' := if windowed' then clause else ClauseAt(ancestors[0].kind, clause);
      var m := ScanFinds(rest, clause', windowed');
      n := m + 1;
      assert forall j :: 0 <= j < m ==> rest[j] == ancestors[j + 1];
      assert WindowBefore(ancestors, n) <==> ancestors[0].kind.Window? || WindowBefore(rest, m) by {
        if j :| 0 <= j < m && rest[j].kind.Window? {
          assert ancestors[j + 1].kind.Window?;
        }
        if j :| 0 <= j < n && ancestors[j].kind.Window? && j > 0 {
          assert rest[j - 1].kind.Window?;
        }
      }
      if !windowed' && !WindowBefore(rest, m) && clause.Elsewhere? {
        FirstClauseFurther(ancestors, m, clause', ClauseScan(rest, clause', false).0);
      }
    }
  }

  /** The nearest clause from a node on, from the nearest clause further out. */
  lemma FirstClauseFurther(ancestors: seq<Node>, m: nat, clause: Clause, found: Clause)
    requires m < |ancestors| && clause == ClauseAt(ancestors[0].kind, Elsewhere)
    requires if clause.Elsewhere? then FirstClause(ancestors[1..], m, found) else found == clause
    ensures FirstClause(ancestors, m + 1, found)
  {
    var rest := ancestors[1..];
    if clause.Elsewhere? && !found.Elsewhere? {
      var j :| 0 <= j < m && IsFirstClause(rest, j, found);
      forall i | 0 <= i < j + 1 ensures ClauseAt(ancestors[i].kind, Elsewhere).Elsewhere? {
        assert i > 0 ==> ancestors[i] == rest[i - 1];
      }
      assert IsFirstClause(ancestors, j + 1, found);
    } else if !clause.Elsewhere? {
      assert IsFirstClause(ancestors, 0, found);
    }
  }

  /** A node sits in one place only. */
  lemma SitsUnique(ancestors: seq<Node>, clause: Clause, select: Option<Node>, other: Clause, otherSelect: Option<Node>)
    requires Sits(ancestors, clause, select) && Sits(ancestors, other, otherSelect)
    ensures clause == other && select == otherSelect
  {
    var n :| NearestSelect(ancestors, n, select)
      && if WindowBefore(ancestors, n) then clause.Elsewhere? else FirstClause(ancestors, n, clause);
    var m :| NearestSelect(ancestors, m, otherSelect)
      && if WindowBefore(ancestors, m) then other.Elsewhere? else FirstClause(ancestors, m, other);
    assert n == m;
  }

  lemma ScanSits(ancestors: seq<Node>)
    ensures var (clause, select) := ClauseScan(ancestors, Elsewhere, false); Sits(ancestors, clause, select)
  {
    var n := ScanFinds(ancestors, Elsewhere, false);
  }

  /** _alias_clause: the upward walk as a loop. */
  method AliasClause(ancestors: seq<Node>) returns (clause: Clause, select: Option<Node>)
    ensures (clause, select) == ClauseScan(ancestors, Elsewhere, false)
    ensures Sits(ancestors, clause, select)
  {
    ScanSits(ancestors);
    var found, windowed := Elsewhere, false;
    for i := 0 to |ancestors|
      invariant ClauseScan(ancestors[i..], found, windowed) == ClauseScan(ancestors, Elsewhere, false)
    {
      var node := ancestors[i];
      assert ancestors[i..][1..] == ancestors[i + 1..];
      if node.kind.Select? {
        return if windowed then Elsewhere else found, Some(node);
      }
      if node.kind.Window? {
        windowed := true;
      } else if found.Elsewhere? && !windowed {
        if node.kind.Order? {
          found := InOrder;
        } else if node.kind.Group? {
          found := InGroup;
        } else if node.kind.Having? {
          found := InHaving;
        }
      }
    }
    return if windowed then Elsewhere else found, None;
  }

  function ProjectionAliases(select: Node): set<string> {
    set child | child in select.children && child.kind.Alias? && child.kind.alias != "" :: child.kind.alias
  }

  /** A relation whose columns the checker cannot list. */
  predicate IsOpaque(source: Node, cteNames: set<string>, norm: NormSchema) {
    || source.kind.Subquery?
    || (source.kind.Table? && source.kind.name != "" && (source.kind.name in cteNames || source.kind.name !in norm))
  }

  /** A FROM or JOIN clause whose relation is opaque. */
  predicate BringsOpaque(clause: Node, cteNames: set<string>, norm: NormSchema) {
    (clause.kind.From? || clause.kind.Join?) && clause.children != [] && IsOpaque(clause.children[0], cteNames, norm)
  }

  predicate HasOpaqueSource(select: Node, cteNames: set<string>, norm: NormSchema) {
    exists child :: child in select.children && BringsOpaque(child, cteNames, norm)
  }

  predicate OpaqueInScope(ancestors: seq<Node>, cteNames: set<string>, norm: NormSchema) {
    exists node :: node in ancestors && node.kind.Select? && HasOpaqueSource(node, cteNames, norm)
  }

  /** _scope_has_opaque_source: the walk over every enclosing SELECT. */
  method ScopeHasOpaqueSource(ancestors: seq<Node>, cteNames: set<string>,
    norm: NormSchema) returns (opaqueSource: bool)
    ensures opaqueSource <==> OpaqueInScope(ancestors, cteNames, norm)
  {
    for i := 0 to |ancestors|
      invariant forall j :: 0 <= j < i && ancestors[j].kind.Select? ==> !HasOpaqueSource(ancestors[j], cteNames, norm)
    {
      var node := ancestors[i];
      if node.kind.Select? {
        for c := 0 to |node.children|
          invariant forall d :: 0 <= d < c ==> !BringsOpaque(node.children[d], cteNames, norm)
        {
          var child := node.children[c];
          if BringsOpaque(child, cteNames, norm) {
            assert HasOpaqueSource(node, cteNames, norm);
            return true;
          }
        }
      }
    }
    return false;
  }

  function CteNames(kinds: set<Kind>): set<string> {
    set kind | kind in kinds && kind.Cte? && kind.name != "" :: kind.name
  }

  predicate IsRealTable(kind: Kind, norm: NormSchema) {
    kind.Table? && kind.name != "" && kind.name in norm
  }

  /** The alias map after the tables seen so far; a later table overwrites. */
  function AliasMap(occurrences: seq<Occurrence>, norm: NormSchema): map<string, string>
    decreases |occurrences|
  {
    if occurrences == [] then map[]
    else
      var before := AliasMap(occurrences[..|occurrences| - 1], norm);
      var kind := occurrences[|occurrences| - 1].node.kind;
      if !IsRealTable(kind, norm) then before
      else
        var named := before[kind.name := kind.name];
        if kind.alias != "" then named[kind.alias := kind.name] else named
  }

  predicate TableKnown(kind: Kind, cteNames: set<string>, norm: NormSchema) {
    kind.Table? && kind.name != "" ==> kind.name in norm || kind.name in cteNames
  }

  predicate AliasVisible(o: Occurrence, name: string, havingAliases: bool) {
    var (clause, select) := ClauseScan(o.ancestors, Elsewhere, false);
    && (clause.InOrder? || clause.InGroup? || (clause.InHaving? && havingAliases))
    && select.Some? && name in ProjectionAliases(select.value)
  }

  /** Whether a column reference is accepted, given what the first pass collected. */
  predicate ColumnAccepted(o: Occurrence, aliases: map<string, string>, inUse: set<string>, cteNames: set<string>,
    norm: NormSchema, havingAliases: bool)
    requires o.node.kind.Column?
    requires forall t :: t in inUse ==> t in norm
  {
    var Column(name, qualifier) := o.node.kind;
    if name == "" then true
    else if qualifier != "" then
      qualifier in aliases ==> aliases[qualifier] in norm && name in norm[aliases[qualifier]]
    else
      || (exists t :: t in inUse && name in norm[t])
      || AliasVisible(o, name, havingAliases)
      || inUse == {}
      || OpaqueInScope(o.ancestors, cteNames, norm)
  }

  datatype Error =
    | UnknownTable(name: string)
    | UnknownColumnIn(name: string, table: string)
    | UnknownColumn(name: string)

  function TablesInUse(occurrences: seq<Occurrence>, norm: NormSchema): set<string> {
    set o | o in occurrences && IsRealTable(o.node.kind, norm) :: o.node.kind.name
  }

  /** The problem the checker reports at one occurrence, if any. */
  function Problem(o: Occurrence, aliases: map<string, string>, inUse: set<string>, cteNames: set<string>,
    norm: NormSchema, havingAliases: bool): Option<Error>
    requires forall t :: t in inUse ==> t in norm
  {
    var kind := o.node.kind;
    if !TableKnown(kind, cteNames, norm) then Some(UnknownTable(kind.name))
    else if kind.Column? && !ColumnAccepted(o, aliases, inUse, cteNames, norm, havingAliases) then
      Some(if kind.qualifier != "" then UnknownColumnIn(kind.name, aliases[kind.qualifier]) else UnknownColumn(kind.name))
    else None
  }

  /** The problem at an occurrence of a statement. */
  function ProblemIn(tree: Node, o: Occurrence, norm: NormSchema, havingAliases: bool): Option<Error> {
    var occurrences := Occurrences(tree);
    Problem(o, AliasMap(occurrences, norm), TablesInUse(occurrences, norm), CteNames(Kinds(tree)), norm, havingAliases)
  }

  /** What validate_sql decides: no table and no column is a problem. */
  ghost predicate Accepts(tree: Node, norm: NormSchema, havingAliases: bool) {
    forall o :: o in Occurrences(tree) ==> ProblemIn(tree, o, norm, havingAliases).None?
  }

  method CollectCteNames(occurrences: seq<Occurrence>, ghost tree: Node) returns (names: set<string>)
    requires occurrences == Occurrences(tree)
    ensures names == CteNames(Kinds(tree))
  {
    names := {};
    for i := 0 to |occurrences|
      invariant forall name :: name in names <==>
        exists o :: o in occurrences[..i] && o.node.kind.Cte? && o.node.kind.name == name && name != ""
    {
      var kind := occurrences[i].node.kind;
      if kind.Cte? && kind.name != "" {
        names := names + {kind.name};
      }
      assert occurrences[..i + 1] == occurrences[..i] + [occurrences[i]];
    }
    assert occurrences[..|occurrences|] == occurrences;
    OccurrencesMeetKinds(tree);
    forall name ensures name in names <==> name in CteNames(Kinds(tree)) {
      if name in names {
        var o :| o in occurrences && o.node.kind.Cte? && o.node.kind.name == name && name != "";
        assert Walked(occurrences, o.node.kind);
      }
      if name in CteNames(Kinds(tree)) {
        var kind :| kind in Kinds(tree) && kind.Cte? && kind.name == name;
        assert Walked(occurrences, kind);
      }
    }
    SameMembers(names, CteNames(Kinds(tree)));
  }

  /** Appends an error unless it is already there. */
  method Report(errors: seq<Error>, e: Error) returns (r: seq<Error>)
    requires forall i, j :: 0 <= i < j < |errors| ==> errors[i] != errors[j]
    ensures forall i, j :: 0 <= i < j < |r| ==> r[i] != r[j]
    ensures forall x :: x in r <==> x in errors || x == e
  {
    r := if e in errors then errors else errors + [e];
  }

  method CheckColumn(o: Occurrence, aliases: map<string, string>, inUse: set<string>, cteNames: set<string>,
    norm: NormSchema, havingAliases: bool) returns (error: Option<Error>)
    requires o.node.kind.Column?
    requires forall t :: t in inUse ==> t in norm
    ensures error == Problem(o, aliases, inUse, cteNames, norm, havingAliases)
  {
    var Column(name, qualifier) := o.node.kind;
    if name == "" {
      return None;
    }
    if qualifier != "" {
      if qualifier in aliases {
        var table := aliases[qualifier];
        if table !in norm || name !in norm[table] {
          return Some(UnknownColumnIn(name, table));
        }
      }
      return None;
    }
    if exists t :: t in inUse && name in norm[t] {
      return None;
    }
    var clause, select := AliasClause(o.ancestors);
    if clause.InOrder? || clause.InGroup? || (clause.InHaving? && havingAliases) {
      if select.Some? && name in ProjectionAliases(select.value) {
        return None;
      }
    }
    if inUse == {} {
      return None;
    }
    var opaqueSource := ScopeHasOpaqueSource(o.ancestors, cteNames, norm);
    if opaqueSource {
      return None;
    }
    return Some(UnknownColumn(name));
  }

  ghost predicate UnknownTableFound(occurrences: seq<Occurrence>, cteNames: set<string>, norm: NormSchema, e: Error) {
    exists o :: o in occurrences && !TableKnown(o.node.kind, cteNames, norm) && e == UnknownTable(o.node.kind.name)
  }

  ghost predicate ColumnProblemFound(occurrences: seq<Occurrence>, aliases: map<string, string>, inUse: set<string>,
    cteNames: set<string>, norm: NormSchema, havingAliases: bool, e: Error)
    requires forall t :: t in inUse ==> t in norm
  {
    exists o :: o in occurrences && o.node.kind.Column? && Problem(o, aliases, inUse, cteNames, norm, havingAliases) == Some(e)
  }

  ghost predicate ProblemFound(tree: Node, norm: NormSchema, havingAliases: bool, e: Error) {
    exists o :: o in Occurrences(tree) && ProblemIn(tree, o, norm, havingAliases) == Some(e)
  }

  /** validate_sql on a parsed statement: one pass over the tables, one over the
      columns. It reports each problem once, and accepts when there is none. */
  method ValidateSql(tree: Node, norm: NormSchema, havingAliases: bool) returns (ok: bool, errors: seq<Error>)
    ensures ok <==> Accepts(tree, norm, havingAliases)
    ensures forall i, j :: 0 <= i < j < |errors| ==> errors[i] != errors[j]
    ensures forall e :: e in errors <==> ProblemFound(tree, norm, havingAliases, e)
  {
    var occurrences := Occurrences(tree);
    var cteNames := CollectCteNames(occurrences, tree);
    var aliases, inUse, tableErrors := CheckTables(occurrences, cteNames, norm);
    errors := CheckColumns(occurrences, aliases, inUse, cteNames, norm, havingAliases, tableErrors);
    ok := errors == [];
    forall e ensures e in errors <==> ProblemFound(tree, norm, havingAliases, e) {
      TwoPassesFindAll(tree, norm, havingAliases, e);
    }
    NoneFound(tree, norm, havingAliases, errors);
  }

  lemma TwoPassesFindAll(tree: Node, norm: NormSchema, havingAliases: bool, e: Error)
    ensures var occurrences := Occurrences(tree); var cteNames := CteNames(Kinds(tree));
      ProblemFound(tree, norm, havingAliases, e) <==>
        || UnknownTableFound(occurrences, cteNames, norm, e)
        || ColumnProblemFound(occurrences, AliasMap(occurrences, norm), TablesInUse(occurrences, norm), cteNames, norm, havingAliases, e)
  {
    var occurrences := Occurrences(tree);
    var cteNames := CteNames(Kinds(tree));
    if UnknownTableFound(occurrences, cteNames, norm, e) {
      var o :| o in occurrences && !TableKnown(o.node.kind, cteNames, norm) && e == UnknownTable(o.node.kind.name);
      assert ProblemIn(tree, o, norm, havingAliases) == Some(e);
    }
  }

  lemma NoneFound(tree: Node, norm: NormSchema, havingAliases: bool, errors: seq<Error>)
    requires forall e :: e in errors <==> ProblemFound(tree, norm, havingAliases, e)
    ensures errors == [] <==> Accepts(tree, norm, havingAliases)
  {
    if errors != [] {
      assert errors[0] in errors;
    } else {
      forall o | o in Occurrences(tree) ensures ProblemIn(tree, o, norm, havingAliases).None? {
        var p := ProblemIn(tree, o, norm, havingAliases);
        if p.Some? {
          assert ProblemFound(tree, norm, havingAliases, p.value);
        }
      }
    }
  }

  /** The pass over the columns, which adds to the errors of the first pass. */
  method CheckColumns(occurrences: seq<Occurrence>, aliases: map<string, string>, inUse: set<string>,
    cteNames: set<string>, norm: NormSchema, havingAliases: bool, tableErrors: seq<Error>) returns (errors: seq<Error>)
    requires forall t :: t in inUse ==> t in norm
    requires forall i, j :: 0 <= i < j < |tableErrors| ==> tableErrors[i] != tableErrors[j]
    ensures forall i, j :: 0 <= i < j < |errors| ==> errors[i] != errors[j]
    ensures forall e :: e in errors <==>
      e in tableErrors || ColumnProblemFound(occurrences, aliases, inUse, cteNames, norm, havingAliases, e)
  {
    errors := tableErrors;
    for i := 0 to |occurrences|
      invariant forall p, q :: 0 <= p < q < |errors| ==> errors[p] != errors[q]
      invariant forall e :: e in errors <==>
        e in tableErrors || ColumnProblemFound(occurrences[..i], aliases, inUse, cteNames, norm, havingAliases, e)
    {
      var error := None;
      if occurrences[i].node.kind.Column? {
        error := CheckColumn(occurrences[i], aliases, inUse, cteNames, norm, havingAliases);
      }
      assert occurrences[..i + 1] == occurrences[..i] + [occurrences[i]];
      OneMoreColumn(occurrences[..i], occurrences[i], aliases, inUse, cteNames, norm, havingAliases, error);
      if error.Some? {
        errors := Report(errors, error.value);
      }
    }
    assert occurrences[..|occurrences|] == occurrences;
  }

  lemma OneMoreColumn(front: seq<Occurrence>, o: Occurrence, aliases: map<string, string>, inUse: set<string>,
    cteNames: set<string>, norm: NormSchema, havingAliases: bool, error: Option<Error>)
    requires forall t :: t in inUse ==> t in norm
    requires error == if o.node.kind.Column? then Problem(o, aliases, inUse, cteNames, norm, havingAliases) else None
    ensures forall e :: ColumnProblemFound(front + [o], aliases, inUse, cteNames, norm, havingAliases, e) <==>
      ColumnProblemFound(front, aliases, inUse, cteNames, norm, havingAliases, e) || error == Some(e)
  {
    forall e ensures ColumnProblemFound(front + [o], aliases, inUse, cteNames, norm, havingAliases, e) <==>
      ColumnProblemFound(front, aliases, inUse, cteNames, norm, havingAliases, e) || error == Some(e)
    {
      assert o in front + [o];
    }
  }

  /** The pass over the tables: the alias map, the tables in use and the unknown ones. */
  method CheckTables(occurrences: seq<Occurrence>, cteNames: set<string>, norm: NormSchema)
    returns (aliases: map<string, string>, inUse: set<string>, errors: seq<Error>)
    ensures aliases == AliasMap(occurrences, norm) && inUse == TablesInUse(occurrences, norm)
    ensures forall i, j :: 0 <= i < j < |errors| ==> errors[i] != errors[j]
    ensures forall e :: e in errors <==> UnknownTableFound(occurrences, cteNames, norm, e)
  {
    errors := [];
    aliases := map[];
    inUse := {};
    for i := 0 to |occurrences|
      invariant aliases == AliasMap(occurrences[..i], norm) && inUse == TablesInUse(occurrences[..i], norm)
      invariant forall p, q :: 0 <= p < q < |errors| ==> errors[p] != errors[q]
      invariant forall e :: e in errors <==> UnknownTableFound(occurrences[..i], cteNames, norm, e)
    {
      var kind := occurrences[i].node.kind;
      assert occurrences[..i + 1] == occurrences[..i] + [occurrences[i]];
      OneMoreTable(occurrences[..i], occurrences[i], norm);
      OneMoreUnknown(occurrences[..i], occurrences[i], cteNames, norm);
      if kind.Table? && kind.name != "" {
        if kind.name in norm {
          inUse := inUse + {kind.name};
          aliases := aliases[kind.name := kind.name];
          if kind.alias != "" {
            aliases := aliases[kind.alias := kind.name];
          }
        } else if kind.name !in cteNames {
          errors := Report(errors, UnknownTable(kind.name));
        }
      }
    }
    assert occurrences[..|occurrences|] == occurrences;
  }

  /** What one more occurrence adds to the alias map and to the tables in use. */
  lemma OneMoreTable(front: seq<Occurrence>, o: Occurrence, norm: NormSchema)
    ensures var kind, before := o.node.kind, AliasMap(front, norm);
      AliasMap(front + [o], norm) ==
        if !IsRealTable(kind, norm) then before
        else if kind.alias != "" then before[kind.name := kind.name][kind.alias := kind.name]
        else before[kind.name := kind.name]
    ensures TablesInUse(front + [o], norm) ==
      if IsRealTable(o.node.kind, norm) then TablesInUse(front, norm) + {o.node.kind.name} else TablesInUse(front, norm)
  {
    assert (front + [o])[..|front|] == front;
  }

  lemma OneMoreUnknown(front: seq<Occurrence>, o: Occurrence, cteNames: set<string>, norm: NormSchema)
    ensures forall e :: UnknownTableFound(front + [o], cteNames, norm, e) <==>
      UnknownTableFound(front, cteNames, norm, e) || (!TableKnown(o.node.kind, cteNames, norm) && e == UnknownTable(o.node.kind.name))
  {
    forall e ensures UnknownTableFound(front + [o], cteNames, norm, e) <==>
      UnknownTableFound(front, cteNames, norm, e) || (!TableKnown(o.node.kind, cteNames, norm) && e == UnknownTable(o.node.kind.name))
    {
      assert o in front + [o];
    }
  }
}
