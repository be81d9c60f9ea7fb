/** Schemas and signals on which the selection falls short: a junction without one of its
    ancestors, an ancestor past the cut-off, and a seed lost by being shortlisted. */
module SchemaLinkGaps {
  import opened Wrappers
  import opened Text
  import opened SchemaGraph
  import opened TableScore
  import opened Ranking
  import opened SchemaLink

  function Plain(rowCount: nat): Table {
    Table([], [], [], rowCount)
  }

  function KeyTo(table: string): ForeignKey {
    ForeignKey(table + "_id", table + ".id")
  }

  /** A question that shares no word with anything, with some tables verified before. */
  function OnlyVerified(verified: set<string>, stems: Stems, lower: string -> string): Signals {
    Signals({}, stems, lower, verified, {}, {}, {})
  }

  lemma VerifiedScores(schema: Schema, verified: set<string>, stems: Stems, lower: string -> string, t: string)
    requires t in schema.tables
    ensures Scores(schema, OnlyVerified(verified, stems, lower))[t] == if t in verified then VERIFIED else 0.0
  {
    PointsZero(t, schema.tables[t], {}, stems);
  }

  /** The scores of such a question, as a map. */
  ghost predicate ScoredBy(scores: map<string, real>, verified: set<string>) {
    forall t :: t in scores ==> scores[t] == if t in verified then VERIFIED else 0.0
  }

  lemma OutscoresByVerified(scores: map<string, real>, verified: set<string>, u: string, t: string)
    requires ScoredBy(scores, verified) && u in scores && t in scores
    ensures u in verified && t !in verified ==> Outscores(scores, u, t)
    ensures Outscores(scores, u, t) ==> u in verified || t !in verified
    ensures !Outscores(scores, t, t)
  {
    TextTotal(t, t);
  }

  lemma ScoresAreVerified(schema: Schema, verified: set<string>, stems: Stems, lower: string -> string)
    ensures ScoredBy(Scores(schema, OnlyVerified(verified, stems, lower)), verified)
  {
    forall t | t in schema.tables
      ensures Scores(schema, OnlyVerified(verified, stems, lower))[t] == if t in verified then VERIFIED else 0.0
    {
      VerifiedScores(schema, verified, stems, lower, t);
    }
  }

  lemma VerifiedAreAhead(schema: Schema, scores: map<string, real>, verified: set<string>, t: string)
    requires schema.Valid() && scores.Keys == schema.tables.Keys && ScoredBy(scores, verified)
    requires {} < verified <= schema.tables.Keys && t in schema.tables
    ensures var ahead := Ahead(t, schema.order, RankOrder(schema, scores));
      if t in verified then |ahead| < |verified| else |ahead| >= |verified|
  {
    var v :| v in verified;
    assert scores[v] != 0.0;
    var ahead := Ahead(t, schema.order, RankOrder(schema, scores));
    forall u | u in schema.tables ensures
      && (u in verified && t !in verified ==> u in ahead)
      && (u in ahead ==> u in verified || t !in verified)
      && t !in ahead
    {
      OutscoresByVerified(scores, verified, u, t);
    }
    if t in verified {
      SubsetSize(ahead, verified - {t});
    } else {
      SubsetSize(verified, ahead);
    }
  }

  lemma SeedIsVerified(schema: Schema, verified: set<string>, stems: Stems, lower: string -> string, t: string)
    requires schema.Valid() && {} < verified <= schema.tables.Keys && |schema.order| > |verified| && t in schema.tables
    ensures t in Seeds(schema, OnlyVerified(verified, stems, lower), |verified|) <==> t in verified
  {
    var signals := OnlyVerified(verified, stems, lower);
    ScoresAreVerified(schema, verified, stems, lower);
    AmongSeeds(schema, signals, |verified|, t);
    VerifiedAreAhead(schema, Scores(schema, signals), verified, t);
  }

  /** With nothing else to go by, as many verified tables as there are seeds are the seeds. */
  lemma SeedsAreVerified(schema: Schema, verified: set<string>, stems: Stems, lower: string -> string)
    requires schema.Valid() && {} < verified <= schema.tables.Keys && |schema.order| > |verified|
    ensures Seeds(schema, OnlyVerified(verified, stems, lower), |verified|) == verified
  {
    var seeds := Seeds(schema, OnlyVerified(verified, stems, lower), |verified|);
    SeedsAreTables(schema, OnlyVerified(verified, stems, lower), |verified|);
    forall t ensures t in seeds <==> t in verified {
      if t in schema.tables {
        SeedIsVerified(schema, verified, stems, lower, t);
      }
    }
    SameMembers(seeds, verified);
  }

  lemma AncestorNeedsKey(schema: Schema, t: string, u: string)
    requires u in Ancestors(schema, t)
    ensures t in schema.tables && schema.tables[t].foreignKeys != []
  {
    var chain :| Connects(schema, chain, t, u, {});
    assert PointsAt(schema, chain[0], chain[1]);
  }

  lemma NoKeysNoAncestors(schema: Schema, t: string)
    requires t in schema.tables ==> schema.tables[t].foreignKeys == []
    ensures Ancestors(schema, t) == {}
  {
    if u :| u in Ancestors(schema, t) {
      AncestorNeedsKey(schema, t, u);
    }
  }

  /** Seeds without foreign keys bring nothing along. */
  lemma KeylessSeeds(schema: Schema, seeds: set<string>)
    requires forall t :: t in seeds && t in schema.tables ==> schema.tables[t].foreignKeys == []
    ensures WithAncestors(schema, seeds) == seeds
  {
    forall s | s in seeds ensures Ancestors(schema, s) == {} {
      NoKeysNoAncestors(schema, s);
    }
  }

  /** A foreign key in the list points at its table. */
  lemma KeyPoints(schema: Schema, t: string, u: string)
    requires t in schema.tables && u in schema.tables && u != "" && '.' !in u && u != t
    requires KeyTo(u) in schema.tables[t].foreignKeys
    ensures PointsAt(schema, t, u) && u in Ancestors(schema, t)
  {
    assert u + "." + "id" == u + ".id";
    ReferredIsAncestor(schema, t, u + "_id", u, "id");
  }

  // ── A junction's third foreign key ─────────────────────────────────

  /** Only one table has foreign keys, and it points at all the seeds and one table more. */
  ghost predicate LoneJunction(schema: Schema, seeds: set<string>, j: string, c: string) {
    && schema.Valid() && |seeds| >= 2 && seeds <= schema.tables.Keys && j !in seeds && c !in seeds && j != c
    && (forall s :: s in seeds ==> PointsAt(schema, j, s)) && PointsAt(schema, j, c)
    && forall t :: t in schema.tables && t != j ==> schema.tables[t].foreignKeys == []
  }

  function JunctionSchema(a: string, b: string, j: string, c: string): Schema {
    Schema([a, b, j, c],
           map[a := Plain(0), b := Plain(0), j := Table([], [KeyTo(a), KeyTo(b), KeyTo(c)], [], 0), c := Plain(0)])
  }

  lemma JunctionSchemaValid(a: string, b: string, j: string, c: string)
    requires a != b && a != j && a != c && b != j && b != c && j != c
    ensures var schema := JunctionSchema(a, b, j, c); schema.Valid() && schema.tables.Keys == {a, b, j, c}
  {
  }

  /** There are such schemas. */
  lemma LoneJunctionExists(a: string, b: string, j: string, c: string)
    requires a != b && a != j && a != c && b != j && b != c && j != c
    requires a != "" && b != "" && c != "" && '.' !in a && '.' !in b && '.' !in c
    ensures LoneJunction(JunctionSchema(a, b, j, c), {a, b}, j, c)
  {
    var schema := JunctionSchema(a, b, j, c);
    JunctionSchemaValid(a, b, j, c);
    assert schema.tables[j].foreignKeys == [KeyTo(a), KeyTo(b), KeyTo(c)];
    KeyPoints(schema, j, a);
    KeyPoints(schema, j, b);
    KeyPoints(schema, j, c);
    assert |{a, b}| == 2;
  }

  lemma {:induction false} MembersAtMost(s: seq<string>)
    ensures |Members(s)| <= |s|
    decreases |s|
  {
    if s != [] {
      MembersAtMost(s[1..]);
      assert s == [s[0]] + s[1..];
      assert Members(s) == {s[0]} + Members(s[1..]);
    }
  }

  /** A schema has more tables than a set of tables that leaves one out. */
  lemma MoreTables(schema: Schema, seeds: set<string>, j: string)
    requires schema.Valid() && seeds <= schema.tables.Keys && j in schema.tables && j !in seeds
    ensures |schema.order| > |seeds|
  {
    MembersAtMost(schema.order);
    SubsetSize(seeds + {j}, Members(schema.order));
  }

  lemma JunctionBridges(schema: Schema, seeds: set<string>, j: string, c: string)
    requires LoneJunction(schema, seeds, j, c)
    ensures Bridges(schema, j, seeds)
  {
    forall s | s in seeds ensures s in Ancestors(schema, j) {
      PointedAtIsAncestor(schema, j, s);
    }
    SubsetSize(seeds, Ancestors(schema, j) * seeds);
  }

  lemma JunctionJoined(schema: Schema, seeds: set<string>, j: string, c: string, stems: Stems, lower: string -> string)
    requires LoneJunction(schema, seeds, j, c)
    ensures Joined(schema, OnlyVerified(seeds, stems, lower), |seeds|) == seeds + {j}
  {
    MoreTables(schema, seeds, j);
    SeedsAreVerified(schema, seeds, stems, lower);
    KeylessSeeds(schema, seeds);
    JunctionBridges(schema, seeds, j, c);
    var joined := Joined(schema, OnlyVerified(seeds, stems, lower), |seeds|);
    forall t ensures t in joined <==> t in seeds + {j} {
      if t != j {
        NoKeysNoAncestors(schema, t);
      }
    }
    SameMembers(joined, seeds + {j});
  }

  /** A junction between the seeds that also points at another table is shown without that
      table, with room to spare. */
  lemma JunctionLosesTable(schema: Schema, seeds: set<string>, j: string, c: string, stems: Stems, lower: string -> string)
    requires LoneJunction(schema, seeds, j, c)
    ensures var signals := OnlyVerified(seeds, stems, lower);
      var shown := LinkedSet(schema, signals, |seeds|);
      && |schema.order| > |seeds| && |shown| == |seeds| + 1
      && j in shown && PointsAt(schema, j, c) && c !in shown
  {
    MoreTables(schema, seeds, j);
    JunctionJoined(schema, seeds, j, c, stems, lower);
    assert |seeds + {j}| == |seeds| + 1;
    ShownClosedWithRoom(schema, OnlyVerified(seeds, stems, lower), |seeds|);
  }

  // ── A junction by one foreign key ──────────────────────────────────

  /** The tables a table's own foreign keys name. */
  ghost function Targets(schema: Schema, t: string): set<string> {
    set u | u in schema.tables && u != t && PointsAt(schema, t, u)
  }

  lemma TargetsAreAncestors(schema: Schema, t: string)
    ensures Targets(schema, t) <= Ancestors(schema, t)
  {
    forall u | u in Targets(schema, t) ensures u in Ancestors(schema, t) {
      PointedAtIsAncestor(schema, t, u);
    }
  }

  /** Counting everything a table's foreign keys lead to differs from counting its own
      foreign keys' targets exactly when the targets among the selected tables are fewer
      than two and further selected ancestors make up the difference. */
  lemma CountsDifferExactly(schema: Schema, t: string, selected: set<string>)
    ensures var own, further := Targets(schema, t) * selected, (Ancestors(schema, t) - Targets(schema, t)) * selected;
      (Bridges(schema, t, selected) <==> |own| >= 2) <==> !(|own| < 2 <= |own| + |further|)
  {
    TargetsAreAncestors(schema, t);
    var own, further := Targets(schema, t) * selected, (Ancestors(schema, t) - Targets(schema, t)) * selected;
    assert Ancestors(schema, t) * selected == own + further;
    assert |own + further| == |own| + |further|;
  }

  lemma AncestorThroughKey(schema: Schema, t: string, d: string, a: string)
    requires PointsAt(schema, t, d) && a in Ancestors(schema, d) && a != t
    ensures a in Ancestors(schema, t)
  {
    var chain :| Connects(schema, chain, d, a, {});
    ReachesFurther(schema, t, d, a, {}, {});
  }

  /** A foreign key to one of the tables leads to two of them when that one has an ancestor
      among them. */
  lemma OneKeyReachesTwo(schema: Schema, tables: set<string>, t: string, d: string, a: string)
    requires t !in tables && d in tables && PointsAt(schema, t, d)
    requires a in Ancestors(schema, d) && a in tables && a != d
    ensures Bridges(schema, t, tables)
  {
    PointedAtIsAncestor(schema, t, d);
    AncestorThroughKey(schema, t, d, a);
    var two := {d, a};
    assert |two| == 2;
    SubsetSize(two, Ancestors(schema, t) * tables);
  }

  /** A single foreign key is enough: every table that points at a table of the core which
      itself has an ancestor counts as a junction. */
  lemma OneKeyBridges(schema: Schema, signals: Signals, maxTables: nat, t: string, d: string, a: string)
    requires schema.Valid() && t !in Core(schema, signals, maxTables)
    requires d in Core(schema, signals, maxTables) && PointsAt(schema, t, d) && a in Ancestors(schema, d)
    ensures Bridges(schema, t, Core(schema, signals, maxTables)) && t in Joined(schema, signals, maxTables)
  {
    var core := Core(schema, signals, maxTables);
    SeedsJoinable(schema, Seeds(schema, signals, maxTables));
    ClosedHoldsAncestors(schema, core);
    OneKeyReachesTwo(schema, core, t, d, a);
  }

  /** For every number of seeds: a table with a single foreign key into the core, to a seed
      that has an ancestor, is taken for a junction. */
  lemma ChildTakenForJunction(schema: Schema, seeds: set<string>, d: string, a: string, t: string, stems: Stems,
    lower: string -> string)
    requires schema.Valid() && seeds <= schema.tables.Keys && t in schema.tables && t !in WithAncestors(schema, seeds)
    requires d in seeds && a in Ancestors(schema, d) && PointsAt(schema, t, d)
    requires |Targets(schema, t) * WithAncestors(schema, seeds)| == 1
    ensures var signals := OnlyVerified(seeds, stems, lower); var core := Core(schema, signals, |seeds|);
      && |schema.order| > |seeds| && Seeds(schema, signals, |seeds|) == seeds
      && t in Selected(schema, signals, |seeds|) && t !in core && |Targets(schema, t) * core| == 1
  {
    var signals := OnlyVerified(seeds, stems, lower);
    MoreTables(schema, seeds, t);
    SeedsAreVerified(schema, seeds, stems, lower);
    OneKeyBridges(schema, signals, |seeds|, t, d, a);
    SelectedExactly(schema, signals, |seeds|);
  }

  // ── An ancestor past the cut-off ───────────────────────────────────

  lemma SeedsAreShown(schema: Schema, signals: Signals, maxTables: nat)
    requires schema.Valid() && |schema.order| > maxTables
    ensures Seeds(schema, signals, maxTables) <= LinkedSet(schema, signals, maxTables)
  {
    LinkedStartsWithSeeds(schema, signals, maxTables);
    var ranked, linked := RankedTables(schema, signals), Linked(schema, signals, maxTables);
    forall t | t in ranked[..maxTables] ensures t in linked {
      var i :| 0 <= i < maxTables && ranked[..maxTables][i] == t;
      assert linked[i] == linked[..maxTables][i];
    }
  }

  /** Among more further tables than the cut-off leaves room for, one is not shown. */
  lemma OneTooMany(schema: Schema, signals: Signals, seeds: set<string>, further: set<string>) returns (p: string)
    requires schema.Valid() && |schema.order| > |seeds| && seeds <= LinkedSet(schema, signals, |seeds|)
    requires further !! seeds && |further| > FK_EXTRA_SLOTS
    ensures p in further && p !in LinkedSet(schema, signals, |seeds|)
  {
    var shown := LinkedSet(schema, signals, |seeds|);
    LinkedAreTables(schema, signals, |seeds|);
    MembersAtMost(Linked(schema, signals, |seeds|));
    if further <= shown {
      SubsetSize(seeds + further, shown);
      assert false;
    }
    p :| p in further && p !in shown;
  }

  /** For every number of seeds: a seed with five parents or more among the other tables is
      shown without one of them. */
  lemma CutOffLosesParent(schema: Schema, seeds: set<string>, s: string, parents: set<string>, stems: Stems,
    lower: string -> string) returns (p: string)
    requires schema.Valid() && seeds <= schema.tables.Keys && s in seeds && parents !! seeds
    requires |parents| > FK_EXTRA_SLOTS && forall q :: q in parents ==> PointsAt(schema, s, q)
    ensures var signals := OnlyVerified(seeds, stems, lower);
      var shown := LinkedSet(schema, signals, |seeds|);
      && |schema.order| > |seeds| && Seeds(schema, signals, |seeds|) == seeds && s in shown
      && p in parents && PointsAt(schema, s, p) && p in Core(schema, signals, |seeds|) && p !in shown
  {
    var signals := OnlyVerified(seeds, stems, lower);
    var some :| some in parents;
    MoreTables(schema, seeds, some);
    SeedsAreVerified(schema, seeds, stems, lower);
    SeedsAreShown(schema, signals, |seeds|);
    p := OneTooMany(schema, signals, seeds, parents);
    PointedAtIsAncestor(schema, s, p);
  }

  // ── A seed lost by being shortlisted ───────────────────────────────

  /** A table with a row, and empty ones. */
  function RivalSchema(t: string, rivals: seq<string>): Schema {
    Schema([t] + rivals, (map r | r in rivals :: Plain(0))[t := Plain(1)])
  }

  /** Nothing matches and the largest table is a seed; shortlisting it gives the same
      bonus to as many tables as there are seeds, whose names differ from its name only in
      case and sort before it, and it is a seed no longer. */
  lemma ShortlistDropsSeed(t: string, rivals: seq<string>, stems: Stems, lower: string -> string)
    requires Distinct(rivals) && rivals != [] && t !in rivals
    requires forall r :: r in rivals ==> lower(r) == lower(t) && TextBefore(r, t)
    ensures var schema, signals := RivalSchema(t, rivals), OnlyVerified({}, stems, lower);
      && schema.Valid() && NothingMatched(Scores(schema, signals))
      && t in Seeds(schema, signals, |rivals|)
      && t !in Seeds(schema, WithShortlisted(signals, t), |rivals|)
  {
    var schema, signals := RivalSchema(t, rivals), OnlyVerified({}, stems, lower);
    var order := schema.order;
    assert order[0] == t && forall i :: 0 < i < |order| ==> order[i] == rivals[i - 1];
    forall u | u in schema.tables ensures Scores(schema, signals)[u] == 0.0 {
      VerifiedScores(schema, {}, stems, lower, u);
    }
    assert Ahead(t, order, RankOrder(schema, Scores(schema, signals))) == {};
    AmongSeeds(schema, signals, |rivals|, t);
    TextTotal(t, t);
    forall u ensures u in CaseRivals(schema, signals, t) <==> u in Members(rivals) {
    }
    SameMembers(CaseRivals(schema, signals, t), Members(rivals));
    PrefixSize(rivals, |rivals|);
    assert Members(rivals) == set i | 0 <= i < |rivals| :: rivals[i];
    ShortlistKeepsSeed(schema, signals, |rivals|, t);
  }
}
