/** Tables and the foreign keys between them: the depth-first walk that collects a
    table's ancestors while every branch shares one visited set. */
module SchemaGraph {
  import opened Wrappers
  import opened Text

  datatype Column = Column(name: string, primaryKey: bool)

  /** A foreign key: its column, "" when absent, and its "table.column" target. */
  datatype ForeignKey = ForeignKey(column: string, references: string)

  /** What the linker reads of a table; `values` are the known cell values of all columns. */
  datatype Table = Table(columns: seq<Column>, foreignKeys: seq<ForeignKey>, values: seq<string>, rowCount: nat)

  /** The schema dict: its keys in insertion order, and their tables. */
  datatype Schema = Schema(order: seq<string>, tables: map<string, Table>) {
    ghost predicate Valid() {
      && (forall i, j :: 0 <= i < j < |order| ==> order[i] != order[j])
      && (forall t :: t in order <==> t in tables)
    }
  }

  function Target(fk: ForeignKey): string {
    SplitOn(fk.references, '.')[0]
  }

  /** A foreign key of `from` points at the schema table `to`. */
  predicate PointsAt(schema: Schema, from: string, to: string) {
    && from in schema.tables && to != "" && to in schema.tables
    && exists fk :: fk in schema.tables[from].foreignKeys && Target(fk) == to
  }

  /** The text refers to the table: it is the table's name, alone or with a column after a dot. */
  predicate RefersTo(references: string, table: string) {
    && '.' !in table && |table| <= |references| && references[..|table|] == table
    && (|table| == |references| || references[|table|] == '.')
  }

  lemma TargetIsReferred(fk: ForeignKey, table: string)
    ensures Target(fk) == table <==> RefersTo(fk.references, table)
  {
    var text := fk.references;
    var n := DotOrEnd(text);
    if n == |text| {
      SplitWithout(text, '.');
      assert text[..n] == text;
    } else {
      assert text == text[..n] + ['.'] + text[n + 1..];
      SplitAround(text[..n], '.', text[n + 1..]);
    }
    assert Target(fk) == text[..n];
    if RefersTo(text, table) {
      FirstDotUnique(text, |table|, n);
    }
  }

  lemma FirstDotUnique(text: string, m: nat, n: nat)
    requires m <= |text| && '.' !in text[..m] && (m < |text| ==> text[m] == '.')
    requires n <= |text| && '.' !in text[..n] && (n < |text| ==> text[n] == '.')
    ensures m == n
  {
  }

  /** Where the first dot stands, or the length when there is none. */
  function DotOrEnd(text: string): (n: nat)
    ensures n <= |text| && '.' !in text[..n] && (n < |text| ==> text[n] == '.')
  {
    if text == "" || text[0] == '.' then 0
    else
      var n := 1 + DotOrEnd(text[1..]);
      assert text[..n] == [text[0]] + text[1..][..n - 1];
      n
  }

  /** A table's foreign keys point at exactly the schema tables they refer to. */
  lemma PointsWhereReferred(schema: Schema, from: string, to: string)
    ensures PointsAt(schema, from, to) <==>
      && from in schema.tables && to != "" && to in schema.tables
      && exists fk :: fk in schema.tables[from].foreignKeys && RefersTo(fk.references, to)
  {
    if from in schema.tables {
      forall fk | fk in schema.tables[from].foreignKeys ensures Target(fk) == to <==> RefersTo(fk.references, to) {
        TargetIsReferred(fk, to);
      }
    }
  }

  /** A foreign key written "table.column" makes that table an ancestor, and refers to no other. */
  lemma ReferredIsAncestor(schema: Schema, from: string, column: string, table: string, referred: string)
    requires from in schema.tables && table in schema.tables && table != from && table != "" && '.' !in table
    requires ForeignKey(column, table + "." + referred) in schema.tables[from].foreignKeys
    ensures PointsAt(schema, from, table) && table in Ancestors(schema, from)
    ensures forall other :: RefersTo(table + "." + referred, other) <==> other == table
  {
    var references := table + "." + referred;
    assert references[..|table|] == table && references[|table|] == '.';
    assert RefersTo(references, table);
    PointsWhereReferred(schema, from, table);
    ReachesSelf(schema, table, {});
    ReachesFurther(schema, from, table, table, {}, {});
    var fk := ForeignKey(column, references);
    forall other ensures RefersTo(references, other) <==> other == table {
      TargetIsReferred(fk, other);
      TargetIsReferred(fk, table);
    }
  }

  /** A chain of foreign keys that stays off the tables in `avoid`. */
  ghost predicate IsChain(schema: Schema, chain: seq<string>, avoid: set<string>) {
    && (forall i :: 0 <= i < |chain| ==> chain[i] !in avoid)
    && (forall i :: 0 < i < |chain| ==> PointsAt(schema, chain[i - 1], chain[i]))
  }

  ghost predicate Connects(schema: Schema, chain: seq<string>, from: string, to: string, avoid: set<string>) {
    |chain| > 0 && chain[0] == from && chain[|chain| - 1] == to && IsChain(schema, chain, avoid)
  }

  ghost predicate Reaches(schema: Schema, from: string, to: string, avoid: set<string>) {
    exists chain :: Connects(schema, chain, from, to, avoid)
  }

  /** The schema tables one or more foreign keys away from a table, other than itself. */
  ghost function Ancestors(schema: Schema, table: string): set<string> {
    set t | t in schema.tables && t != table && Reaches(schema, table, t, {})
  }

  lemma ReachesSelf(schema: Schema, table: string, avoid: set<string>)
    requires table !in avoid
    ensures Reaches(schema, table, table, avoid)
  {
    assert Connects(schema, [table], table, table, avoid);
  }

  /** One more foreign key in front of a chain, which may have avoided more. */
  lemma ReachesFurther(schema: Schema, from: string, via: string, to: string, avoid: set<string>, more: set<string>)
    requires PointsAt(schema, from, via) && Reaches(schema, via, to, more)
    requires from !in avoid && avoid <= more
    ensures Reaches(schema, from, to, avoid)
  {
    var chain :| Connects(schema, chain, via, to, more);
    assert Connects(schema, [from] + chain, from, to, avoid);
  }

  /** Every foreign key of these tables leads into `seen`. */
  ghost predicate ClosedUnder(schema: Schema, tables: set<string>, seen: set<string>) {
    forall from, to :: from in tables && PointsAt(schema, from, to) ==> to in seen
  }

  /** What is reached without entering `avoid` lies inside a set closed except for `avoid`. */
  lemma {:induction false} ClosedContainsReached(schema: Schema, chain: seq<string>, from: string, to: string,
    avoid: set<string>, seen: set<string>)
    requires Connects(schema, chain, from, to, avoid)
    requires from in seen && ClosedUnder(schema, seen - avoid, seen)
    ensures to in seen
    decreases |chain|
  {
    if |chain| > 1 {
      assert PointsAt(schema, chain[0], chain[1]);
      ClosedContainsReached(schema, chain[1..], chain[1], to, avoid, seen);
    }
  }

  /** Reaching is transitive. */
  lemma {:induction false} ReachesTransitive(schema: Schema, chain: seq<string>, from: string, via: string, to: string)
    requires Connects(schema, chain, from, via, {}) && Reaches(schema, via, to, {})
    ensures Reaches(schema, from, to, {})
    decreases |chain|
  {
    if |chain| > 1 {
      assert PointsAt(schema, chain[0], chain[1]);
      ReachesTransitive(schema, chain[1..], chain[1], via, to);
      ReachesFurther(schema, from, chain[1], to, {}, {});
    }
  }

  /** A table together with its ancestors is closed under foreign keys. */
  lemma AncestorsClosed(schema: Schema, table: string)
    ensures ClosedUnder(schema, {table} + Ancestors(schema, table), {table} + Ancestors(schema, table))
  {
    forall from, to | from in {table} + Ancestors(schema, table) && PointsAt(schema, from, to)
      ensures to in {table} + Ancestors(schema, table)
    {
      ReachesSelf(schema, to, {});
      ReachesFurther(schema, from, to, to, {}, {});
      if from != table {
        var chain :| Connects(schema, chain, table, from, {});
        ReachesTransitive(schema, chain, table, from, to);
      }
    }
  }

  /** The visited set that all branches of one walk share. */
  class Visited {
    var tables: set<string>

    constructor ()
      ensures tables == {}
    {
      tables := {};
    }
  }

  /** _fk_parents with a visited set: it marks and, the start apart, returns exactly the
      tables reachable without passing through one visited before. */
  method FkParents(schema: Schema, table: string, seen: Visited) returns (parents: set<string>)
    modifies seen
    ensures old(table in seen.tables) ==> parents == {} && seen.tables == old(seen.tables)
    ensures old(seen.tables) <= seen.tables
    ensures parents == seen.tables - old(seen.tables) - {table}
    ensures forall t :: t in seen.tables - old(seen.tables) <==> Reaches(schema, table, t, old(seen.tables))
    ensures ClosedUnder(schema, seen.tables - old(seen.tables), seen.tables)
    decreases schema.tables.Keys - seen.tables
  {
    ghost var before := seen.tables;
    if table in seen.tables {
      return {};
    }
    seen.tables := seen.tables + {table};
    parents := {};
    ReachesSelf(schema, table, before);
    if table in schema.tables {
      var keys := schema.tables[table].foreignKeys;
      for i := 0 to |keys|
        invariant before + {table} <= seen.tables
        invariant parents == seen.tables - before - {table}
        invariant forall t :: t in seen.tables - before ==> Reaches(schema, table, t, before)
        invariant ClosedUnder(schema, seen.tables - before - {table}, seen.tables)
        invariant forall j :: 0 <= j < i ==>
          Target(keys[j]) != "" && Target(keys[j]) in schema.tables ==> Target(keys[j]) in seen.tables
      {
        var ref := Target(keys[i]);
        if ref != "" && ref in schema.tables && ref !in seen.tables {
          ghost var visited := seen.tables;
          ReachesSelf(schema, ref, visited);
          var further := FkParents(schema, ref, seen);
          parents := parents + {ref} + further;
          forall t | t in seen.tables - visited ensures Reaches(schema, table, t, before) {
            ReachesFurther(schema, table, ref, t, before, visited);
          }
        }
      }
    }
    forall t | Reaches(schema, table, t, before) ensures t in seen.tables - before {
      var chain :| Connects(schema, chain, table, t, before);
      ClosedContainsReached(schema, chain, table, t, before, seen.tables);
      assert chain[|chain| - 1] !in before;
    }
  }

  lemma ReachedIsTable(schema: Schema, from: string, to: string)
    requires Reaches(schema, from, to, {}) && from != to
    ensures to in schema.tables
  {
    var chain :| Connects(schema, chain, from, to, {});
    assert PointsAt(schema, chain[|chain| - 2], chain[|chain| - 1]);
  }

  /** _fk_parents as callers use it, with no visited set: it ends on every schema, cycles
      included, with exactly the ancestors. */
  method FkAncestors(schema: Schema, table: string) returns (parents: set<string>)
    ensures parents == Ancestors(schema, table)
  {
    var seen := new Visited();
    parents := FkParents(schema, table, seen);
    forall t ensures t in parents <==> t in Ancestors(schema, table) {
      if t in parents {
        ReachedIsTable(schema, table, t);
      }
    }
    SameMembers(parents, Ancestors(schema, table));
  }
}
