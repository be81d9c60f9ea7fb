/** Widening the shown tables by what a failed statement named. */
module SchemaRetry {
  import opened Wrappers
  import opened SchemaGraph
  import opened SchemaLink
  import opened Ranking

  type Fold = string -> string

  /** Table names by their lower-cased form; a later table overwrites. */
  function ByLower(order: seq<string>, lower: Fold): map<string, string> {
    if order == [] then map[]
    else
      var last := order[|order| - 1];
      ByLower(order[..|order| - 1], lower)[lower(last) := last]
  }

  predicate Shown(tables: seq<string>, name: string, lower: Fold) {
    exists t :: t in tables && lower(t) == lower(name)
  }

  /** The real table a statement means by a name, if any. */
  function RealTable(schema: Schema, lower: Fold, name: string): Option<string> {
    var byLower := ByLower(schema.order, lower);
    if lower(name) in byLower && byLower[lower(name)] != "" then Some(byLower[lower(name)]) else None
  }

  /** The real tables a statement named that were not shown. */
  function Missed(schema: Schema, lower: Fold, tables: seq<string>, named: set<string>): set<string> {
    set name | name in named && RealTable(schema, lower, name).Some? && !Shown(tables, name, lower)
      :: RealTable(schema, lower, name).value
  }

  /** What the next attempt should be shown besides: the missed tables and all their ancestors. */
  ghost function Wanted(schema: Schema, lower: Fold, tables: seq<string>, named: set<string>): set<string> {
    WithAncestors(schema, Missed(schema, lower, tables, named))
  }

  /** The list of tables to add: wanted ones that were not shown, each name once ignoring
      case, and enough of them that every wanted name is then shown. */
  ghost predicate Widens(schema: Schema, lower: Fold, tables: seq<string>, named: set<string>, added: seq<string>) {
    && (forall t :: t in added ==> t in Wanted(schema, lower, tables, named) && !Shown(tables, t, lower))
    && (forall i, j :: 0 <= i < j < |added| ==> lower(added[i]) != lower(added[j]))
    && (forall t :: t in Wanted(schema, lower, tables, named) ==> Shown(tables + added, t, lower))
  }

  lemma {:induction false} ByLowerFinds(order: seq<string>, lower: Fold, key: string)
    ensures key in ByLower(order, lower) <==> exists t :: t in order && lower(t) == key
    ensures key in ByLower(order, lower) ==>
      ByLower(order, lower)[key] in order && lower(ByLower(order, lower)[key]) == key
    decreases |order|
  {
    if order != [] {
      var front, last := order[..|order| - 1], order[|order| - 1];
      ByLowerFinds(front, lower, key);
      assert order == front + [last];
    }
  }

  /** The table at this place is the last in the schema's order that goes by the name. */
  ghost predicate LastNamed(order: seq<string>, lower: Fold, name: string, i: nat) {
    i < |order| && lower(order[i]) == lower(name) && forall j :: i < j < |order| ==> lower(order[j]) != lower(name)
  }

  lemma {:induction false} ByLowerIsLast(order: seq<string>, lower: Fold, name: string, i: nat)
    requires LastNamed(order, lower, name, i)
    ensures lower(name) in ByLower(order, lower) && ByLower(order, lower)[lower(name)] == order[i]
    decreases |order|
  {
    var front := order[..|order| - 1];
    if i < |front| {
      assert forall j :: i < j < |front| ==> front[j] == order[j];
      assert LastNamed(front, lower, name, i);
      ByLowerIsLast(front, lower, name, i);
      assert lower(order[|front|]) != lower(name);
    }
  }

  /** A name means the last table in the schema's order that equals it ignoring case. */
  lemma RealTableIsLast(schema: Schema, lower: Fold, name: string, i: nat)
    requires LastNamed(schema.order, lower, name, i)
    ensures RealTable(schema, lower, name) == if schema.order[i] == "" then None else Some(schema.order[i])
  {
    ByLowerIsLast(schema.order, lower, name, i);
  }

  /** A name that equals no table's ignoring case means none. */
  lemma NoRealTable(schema: Schema, lower: Fold, name: string)
    requires forall t :: t in schema.order ==> lower(t) != lower(name)
    ensures RealTable(schema, lower, name).None?
  {
    ByLowerFinds(schema.order, lower, lower(name));
  }

  lemma RealTableIsTable(schema: Schema, lower: Fold, name: string)
    requires schema.Valid() && RealTable(schema, lower, name).Some?
    ensures RealTable(schema, lower, name).value in schema.tables
    ensures lower(RealTable(schema, lower, name).value) == lower(name)
  {
    ByLowerFinds(schema.order, lower, lower(name));
  }

  lemma MissedAreTables(schema: Schema, lower: Fold, tables: seq<string>, named: set<string>)
    requires schema.Valid()
    ensures Missed(schema, lower, tables, named) <= schema.tables.Keys
    ensures forall t :: t in Missed(schema, lower, tables, named) ==> !Shown(tables, t, lower)
  {
    forall name | name in named && RealTable(schema, lower, name).Some?
      ensures RealTable(schema, lower, name).value in schema.tables
      ensures lower(RealTable(schema, lower, name).value) == lower(name)
    {
      RealTableIsTable(schema, lower, name);
    }
  }

  ghost predicate FoldedDistinct(added: seq<string>, lower: Fold) {
    forall i, j :: 0 <= i < j < |added| ==> lower(added[i]) != lower(added[j])
  }

  /** The set `have` of lower-cased names is kept in step with the two lists. */
  ghost predicate InStep(have: set<string>, tables: seq<string>, added: seq<string>, lower: Fold) {
    forall k :: k in have <==> exists t :: t in tables + added && lower(t) == k
  }

  lemma StepsOn(have: set<string>, tables: seq<string>, added: seq<string>, lower: Fold, t: string)
    requires InStep(have, tables, added, lower) && FoldedDistinct(added, lower) && lower(t) !in have
    ensures InStep(have + {lower(t)}, tables, added + [t], lower) && FoldedDistinct(added + [t], lower)
    ensures !Shown(tables, t, lower)
  {
    forall i | 0 <= i < |added| ensures lower(added[i]) != lower(t) {
      assert added[i] in tables + added;
    }
    forall k ensures k in have + {lower(t)} <==> exists u :: u in tables + (added + [t]) && lower(u) == k {
      if k == lower(t) {
        assert t in tables + (added + [t]);
      }
      if k in have {
        var u :| u in tables + added && lower(u) == k;
        assert u in tables + (added + [t]);
      }
    }
    forall u | u in tables ensures lower(u) != lower(t) {
      assert u in tables + added;
    }
  }

  /** The loop over the names the statement referenced, in whatever order the set yields them. */
  method AddMissed(schema: Schema, lower: Fold, tables: seq<string>, named: set<string>, have0: set<string>)
    returns (added: seq<string>, have: set<string>)
    requires schema.Valid() && InStep(have0, tables, [], lower)
    ensures InStep(have, tables, added, lower) && FoldedDistinct(added, lower)
    ensures Members(added) == Missed(schema, lower, tables, named)
  {
    var byLower := ByLower(schema.order, lower);
    added, have := [], have0;
    var left := named;
    while left != {}
      invariant left <= named
      invariant InStep(have, tables, added, lower) && FoldedDistinct(added, lower)
      invariant forall t :: t in added <==> t in Missed(schema, lower, tables, named - left)
      decreases left
    {
      var name := Pick(left);
      left := left - {name};
      OneMoreName(schema, lower, tables, named - left - {name}, name);
      assert named - left == (named - left - {name}) + {name};
      if lower(name) in byLower {
        var table := byLower[lower(name)];
        if table != "" {
          RealTableIsTable(schema, lower, name);
          AlreadyThere(schema, lower, tables, named - left - {name}, name, added, have);
          if lower(table) !in have {
            StepsOn(have, tables, added, lower, table);
            added, have := added + [table], have + {lower(table)};
          }
        }
      }
    }
    assert named - left == named;
    SameMembers(Members(added), Missed(schema, lower, tables, named));
  }

  lemma OneMoreName(schema: Schema, lower: Fold, tables: seq<string>, named: set<string>, name: string)
    ensures Missed(schema, lower, tables, named + {name}) ==
      if RealTable(schema, lower, name).Some? && !Shown(tables, name, lower)
      then Missed(schema, lower, tables, named) + {RealTable(schema, lower, name).value}
      else Missed(schema, lower, tables, named)
  {
  }

  /** A real table whose lower-cased name is already held was shown or has been added. */
  lemma AlreadyThere(schema: Schema, lower: Fold, tables: seq<string>, named: set<string>, name: string,
    added: seq<string>, have: set<string>)
    requires schema.Valid() && RealTable(schema, lower, name).Some?
    requires InStep(have, tables, added, lower)
    requires forall t :: t in added <==> t in Missed(schema, lower, tables, named)
    ensures var table := RealTable(schema, lower, name).value;
      lower(table) in have <==> Shown(tables, name, lower) || table in added
  {
    var table := RealTable(schema, lower, name).value;
    RealTableIsTable(schema, lower, name);
    if lower(table) in have {
      var u :| u in tables + added && lower(u) == lower(table);
      if u !in tables {
        var other :| other in named && RealTable(schema, lower, other).Some? && RealTable(schema, lower, other).value == u;
        RealTableIsTable(schema, lower, other);
      }
    }
    if Shown(tables, name, lower) {
      var u :| u in tables && lower(u) == lower(name);
      assert u in tables + added;
    }
    if table in added {
      assert table in tables + added;
    }
  }

  /** The loop over one added table's ancestors, in whatever order the set yields them. */
  method AddParents(lower: Fold, tables: seq<string>, added0: seq<string>, have0: set<string>, parents: set<string>)
    returns (added: seq<string>, have: set<string>)
    requires InStep(have0, tables, added0, lower) && FoldedDistinct(added0, lower)
    ensures InStep(have, tables, added, lower) && FoldedDistinct(added, lower) && added0 <= added
    ensures forall t :: t in added[|added0|..] ==> t in parents && !Shown(tables, t, lower)
    ensures have == have0 + Folded(parents, lower)
  {
    added, have := added0, have0;
    var left := parents;
    while left != {}
      invariant left <= parents && added0 <= added
      invariant InStep(have, tables, added, lower) && FoldedDistinct(added, lower)
      invariant forall t :: t in added[|added0|..] ==> t in parents && !Shown(tables, t, lower)
      invariant have == have0 + Folded(parents - left, lower)
      decreases left
    {
      var t := Pick(left);
      left := left - {t};
      assert parents - left == (parents - left - {t}) + {t};
      if lower(t) !in have {
        StepsOn(have, tables, added, lower, t);
        assert (added + [t])[|added0|..] == added[|added0|..] + [t];
        added, have := added + [t], have + {lower(t)};
      }
    }
    assert parents - left == parents;
  }

  /** The loop over the tables added for their names. */
  method AddAllParents(schema: Schema, lower: Fold, tables: seq<string>, first: seq<string>, have0: set<string>)
    returns (added: seq<string>)
    requires InStep(have0, tables, first, lower) && FoldedDistinct(first, lower)
    ensures first <= added && FoldedDistinct(added, lower)
    ensures forall t :: t in added[|first|..] ==>
      t in WithAncestors(schema, Members(first)) && !Shown(tables, t, lower)
    ensures forall t :: t in WithAncestors(schema, Members(first)) ==> Shown(tables + added, t, lower)
  {
    var have := have0;
    added := first;
    assert Members(first[..0]) == {} && WithAncestors(schema, {}) == {};
    for i := 0 to |first|
      invariant first <= added
      invariant InStep(have, tables, added, lower) && FoldedDistinct(added, lower)
      invariant forall t :: t in added[|first|..] ==>
        t in WithAncestors(schema, Members(first)) && !Shown(tables, t, lower)
      invariant forall t :: t in WithAncestors(schema, Members(first[..i])) ==> lower(t) in have
    {
      var t := first[i];
      var parents := FkAncestors(schema, t);
      ghost var before := added;
      assert t in tables + added;
      added, have := AddParents(lower, tables, added, have, parents);
      assert added[|first|..] == before[|first|..] + added[|before|..];
      ParentsWanted(schema, first, i);
    }
    assert first[..|first|] == first;
  }

  lemma ParentsWanted(schema: Schema, first: seq<string>, i: nat)
    requires i < |first|
    ensures Ancestors(schema, first[i]) <= WithAncestors(schema, Members(first))
    ensures WithAncestors(schema, Members(first[..i + 1])) ==
      WithAncestors(schema, Members(first[..i])) + {first[i]} + Ancestors(schema, first[i])
  {
    assert first[i] in Members(first);
    assert first[..i + 1] == first[..i] + [first[i]];
    assert Members(first[..i + 1]) == Members(first[..i]) + {first[i]};
    OneMoreSeed(schema, Members(first[..i]), first[i]);
  }

  lemma MembersCount(s: seq<string>)
    requires Distinct(s)
    ensures |Members(s)| == |s|
  {
    PrefixSize(s, |s|);
    assert Members(s) == set i | 0 <= i < |s| :: s[i];
  }

  lemma WidensInParts(schema: Schema, lower: Fold, tables: seq<string>, named: set<string>, first: seq<string>,
    added: seq<string>)
    requires schema.Valid() && Members(first) == Missed(schema, lower, tables, named)
    requires first <= added && FoldedDistinct(added, lower)
    requires forall t :: t in added[|first|..] ==>
      t in WithAncestors(schema, Members(first)) && !Shown(tables, t, lower)
    requires forall t :: t in WithAncestors(schema, Members(first)) ==> Shown(tables + added, t, lower)
    ensures Widens(schema, lower, tables, named, added)
  {
    MissedAreTables(schema, lower, tables, named);
    assert added == first + added[|first|..];
    forall t | t in added ensures t in Wanted(schema, lower, tables, named) && !Shown(tables, t, lower) {
      assert t in first ==> t in Members(first);
    }
  }

  /** expand_linked_tables: the missed tables first, then what their foreign keys lead to. */
  method ExpandLinkedTables(schema: Schema, lower: Fold, tables: seq<string>, named: set<string>)
    returns (added: seq<string>)
    requires schema.Valid()
    ensures Widens(schema, lower, tables, named, added)
    ensures var missed := Missed(schema, lower, tables, named);
      |missed| <= |added| && Members(added[..|missed|]) == missed
  {
    assert tables + [] == tables;
    var first, have := AddMissed(schema, lower, tables, named, Folded(Members(tables), lower));
    added := AddAllParents(schema, lower, tables, first, have);
    WidensInParts(schema, lower, tables, named, first, added);
    MembersCount(first);
    assert added[..|first|] == first;
  }

  // ── What widening means for the next attempt ───────────────────────

  /** Every real table the statement named is shown next, and so are its ancestors if it
      was missed. */
  lemma NamedTablesShown(schema: Schema, lower: Fold, tables: seq<string>, named: set<string>,
    added: seq<string>, name: string)
    requires schema.Valid() && Widens(schema, lower, tables, named, added)
    requires name in named && RealTable(schema, lower, name).Some?
    ensures var table := RealTable(schema, lower, name).value;
      && Shown(tables + added, table, lower)
      && (Shown(tables, name, lower) || forall a :: a in Ancestors(schema, table) ==> Shown(tables + added, a, lower))
  {
    var table := RealTable(schema, lower, name).value;
    RealTableIsTable(schema, lower, name);
    if Shown(tables, name, lower) {
      var t :| t in tables && lower(t) == lower(name);
      assert t in tables + added;
    } else {
      assert table in Missed(schema, lower, tables, named);
      assert Ancestors(schema, table) <= Wanted(schema, lower, tables, named);
    }
  }

  /** Nothing is added exactly when the statement named no real table that was not shown. */
  lemma NothingAddedExactly(schema: Schema, lower: Fold, tables: seq<string>, named: set<string>, added: seq<string>)
    requires schema.Valid() && Widens(schema, lower, tables, named, added)
    ensures added == [] <==> Missed(schema, lower, tables, named) == {}
  {
    MissedAreTables(schema, lower, tables, named);
    if added == [] {
      assert tables + added == tables;
      assert Missed(schema, lower, tables, named) <= Wanted(schema, lower, tables, named);
    } else {
      assert added[0] in added;
    }
  }

  /** Where names differ in more than case, the tables shown next are those shown before,
      the missed ones and the ancestors of those, and no others. */
  lemma WidenedExactly(schema: Schema, lower: Fold, tables: seq<string>, named: set<string>, added: seq<string>)
    requires schema.Valid() && NamesDistinctIgnoringCase(schema, lower)
    requires Widens(schema, lower, tables, named, added) && forall t :: t in tables ==> t in schema.tables
    ensures Members(tables + added) == Members(tables) + Wanted(schema, lower, tables, named)
  {
    var wanted := Wanted(schema, lower, tables, named);
    MissedAreTables(schema, lower, tables, named);
    assert wanted <= schema.tables.Keys;
    forall t ensures t in Members(tables + added) <==> t in Members(tables) + wanted {
      if t in wanted {
        var u :| u in tables + added && lower(u) == lower(t);
        assert u in schema.tables;
      }
    }
    SameMembers(Members(tables + added), Members(tables) + wanted);
  }

  /** A widened list is still made of schema tables, each once. */
  lemma WidenedIsDistinct(schema: Schema, lower: Fold, tables: seq<string>, named: set<string>, added: seq<string>)
    requires schema.Valid() && Widens(schema, lower, tables, named, added)
    requires Distinct(tables) && forall t :: t in tables ==> t in schema.tables
    ensures Distinct(tables + added) && forall t :: t in tables + added ==> t in schema.tables
  {
    MissedAreTables(schema, lower, tables, named);
    forall i | 0 <= i < |added| ensures added[i] !in tables {
      assert added[i] in added;
    }
  }
}
