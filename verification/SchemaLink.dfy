/** Which tables the model is shown for a question: the best scorers, what their foreign
    keys lead to, and the junction tables between them. */
module SchemaLink {
  import opened Wrappers
  import opened SchemaGraph
  import opened TableScore
  import opened Ranking

  const VERIFIED := 5.0
  const CONTEXT := 8.0
  const CATALOG := 6.0
  const SHORTLIST := 6.0
  const FK_EXTRA_SLOTS: nat := 4

  /** What a question brings besides the schema. `lower` is str.lower(). */
  datatype Signals = Signals(question: set<string>, stems: Stems, lower: string -> string,
    verified: set<string>, context: set<string>, catalog: set<string>, shortlist: set<string>)

  function Folded(names: set<string>, lower: string -> string): set<string> {
    set name | name in names :: lower(name)
  }

  /** The points of a table with the bonuses of the question's other signals. */
  function Score(name: string, info: Table, signals: Signals): real {
    Points(name, info, signals.question, signals.stems)
      + (if name in signals.verified then VERIFIED else 0.0)
      + (if signals.lower(name) in Folded(signals.context, signals.lower) then CONTEXT else 0.0)
      + (if name in signals.catalog then CATALOG else 0.0)
      + (if signals.lower(name) in Folded(signals.shortlist, signals.lower) then SHORTLIST else 0.0)
  }

  function Scores(schema: Schema, signals: Signals): map<string, real> {
    map t | t in schema.tables :: Score(t, schema.tables[t], signals)
  }

  predicate NothingMatched(scores: map<string, real>) {
    forall t :: t in scores ==> scores[t] == 0.0
  }

  function Position(order: seq<string>, t: string): nat {
    if order == [] || order[0] == t then 0 else 1 + Position(order[1..], t)
  }

  predicate Outscores(scores: map<string, real>, a: string, b: string) {
    a in scores && b in scores && (scores[a] > scores[b] || (scores[a] == scores[b] && TextBefore(a, b)))
  }

  /** The fallback's order: more rows first, ties in schema order since sorted() is stable. */
  predicate Outsizes(schema: Schema, a: string, b: string) {
    && a in schema.tables && b in schema.tables
    && (schema.tables[a].rowCount > schema.tables[b].rowCount
        || (schema.tables[a].rowCount == schema.tables[b].rowCount
            && Position(schema.order, a) < Position(schema.order, b)))
  }

  function RankOrder(schema: Schema, scores: map<string, real>): Order {
    if NothingMatched(scores) then (a, b) => Outsizes(schema, a, b) else (a, b) => Outscores(scores, a, b)
  }

  lemma {:induction false} PositionFinds(order: seq<string>, t: string)
    requires t in order
    ensures Position(order, t) < |order| && order[Position(order, t)] == t
    decreases |order|
  {
    if order[0] != t {
      PositionFinds(order[1..], t);
    }
  }

  lemma RankOrderOrders(schema: Schema, scores: map<string, real>)
    requires schema.Valid() && scores.Keys == schema.tables.Keys
    ensures Orders(RankOrder(schema, scores), schema.order)
  {
    if NothingMatched(scores) {
      SizesOrder(schema);
    } else {
      ScoresOrder(schema.order, scores);
    }
  }

  lemma ScoresOrder(items: seq<string>, scores: map<string, real>)
    requires forall t :: t in items ==> t in scores
    ensures Orders((a, b) => Outscores(scores, a, b), items)
  {
    forall a, b | a in items && b in items ensures Outscores(scores, a, b) <==> a != b && !Outscores(scores, b, a) {
      TextTotal(a, b);
    }
    forall a, b, c | a in items && b in items && c in items && Outscores(scores, a, b) && Outscores(scores, b, c)
      ensures Outscores(scores, a, c)
    {
      if TextBefore(a, b) && TextBefore(b, c) {
        TextTransitive(a, b, c);
      }
    }
  }

  lemma SizesOrder(schema: Schema)
    requires schema.Valid()
    ensures Orders((a, b) => Outsizes(schema, a, b), schema.order)
  {
    forall a, b | a in schema.order && b in schema.order
      ensures Outsizes(schema, a, b) <==> a != b && !Outsizes(schema, b, a)
    {
      PositionFinds(schema.order, a);
      PositionFinds(schema.order, b);
    }
  }

  // ── Connecting the seeds ───────────────────────────────────────────

  /** The tables together with everything their foreign keys lead to. */
  ghost function WithAncestors(schema: Schema, seeds: set<string>): set<string> {
    seeds + set t | t in schema.tables && exists s :: s in seeds && t in Ancestors(schema, s)
  }

  /** A table whose foreign keys lead to two or more of the selected tables. */
  ghost predicate Bridges(schema: Schema, t: string, selected: set<string>) {
    |Ancestors(schema, t) * selected| >= 2
  }

  /** The selection after one pass over `order` that adds junction tables as it goes. */
  ghost function WithJunctions(schema: Schema, order: seq<string>, selected: set<string>): (r: set<string>)
    ensures selected <= r
  {
    if order == [] then selected
    else
      var before := WithJunctions(schema, order[..|order| - 1], selected);
      var t := order[|order| - 1];
      if t !in before && Bridges(schema, t, before) then before + {t} else before
  }

  lemma JunctionStep(schema: Schema, order: seq<string>, i: nat, selected: set<string>)
    requires i < |order|
    ensures var before := WithJunctions(schema, order[..i], selected);
      WithJunctions(schema, order[..i + 1], selected) ==
        if order[i] !in before && Bridges(schema, order[i], before) then before + {order[i]} else before
  {
    assert order[..i + 1][..i] == order[..i];
  }

  lemma BridgesMore(schema: Schema, t: string, less: set<string>, more: set<string>)
    requires less <= more && Bridges(schema, t, less)
    ensures Bridges(schema, t, more)
  {
    SubsetSize(Ancestors(schema, t) * less, Ancestors(schema, t) * more);
  }

  /** The ancestors of an unselected ancestor count for the table too, so what bridges
      through added junctions bridges without them. */
  lemma BridgesThroughAdded(schema: Schema, t: string, less: set<string>, more: set<string>)
    requires t !in less && less <= more && Bridges(schema, t, more)
    requires forall k :: k in more && k !in less ==> Bridges(schema, k, less)
    ensures Bridges(schema, t, less)
  {
    if k :| k in Ancestors(schema, t) && k in more && k !in less {
      forall a | a in Ancestors(schema, k) && a in less ensures a in Ancestors(schema, t) {
        var chain :| Connects(schema, chain, t, k, {});
        ReachesTransitive(schema, chain, t, k, a);
      }
      SubsetSize(Ancestors(schema, k) * less, Ancestors(schema, t) * less);
    } else {
      SubsetSize(Ancestors(schema, t) * more, Ancestors(schema, t) * less);
    }
  }

  /** The pass adds exactly the tables that bridge the selection it starts from, although
      it goes by what is selected so far. */
  lemma {:induction false} JunctionsExactly(schema: Schema, order: seq<string>, selected: set<string>)
    ensures forall t :: t in WithJunctions(schema, order, selected) <==>
      t in selected || (t in order && Bridges(schema, t, selected))
    decreases |order|
  {
    if order != [] {
      var front, last := order[..|order| - 1], order[|order| - 1];
      var before := WithJunctions(schema, front, selected);
      JunctionsExactly(schema, front, selected);
      assert order == front + [last];
      if last !in before {
        if Bridges(schema, last, before) {
          BridgesThroughAdded(schema, last, selected, before);
        }
        if Bridges(schema, last, selected) {
          BridgesMore(schema, last, selected, before);
        }
      }
    }
  }

  /** So the order of the tables does not matter. */
  lemma JunctionsIgnoreOrder(schema: Schema, order: seq<string>, other: seq<string>, selected: set<string>)
    requires SameTables(order, other)
    ensures WithJunctions(schema, order, selected) == WithJunctions(schema, other, selected)
  {
    JunctionsExactly(schema, order, selected);
    JunctionsExactly(schema, other, selected);
    SameMembers(WithJunctions(schema, order, selected), WithJunctions(schema, other, selected));
  }

  function Kept(ranked: seq<string>, selected: set<string>): seq<string> {
    if ranked == [] then []
    else if ranked[0] in selected then [ranked[0]] + Kept(ranked[1..], selected)
    else Kept(ranked[1..], selected)
  }

  lemma {:induction false} KeptMembers(ranked: seq<string>, selected: set<string>)
    ensures forall t :: t in Kept(ranked, selected) <==> t in ranked && t in selected
    decreases |ranked|
  {
    if ranked != [] {
      KeptMembers(ranked[1..], selected);
      assert ranked == [ranked[0]] + ranked[1..];
    }
  }

  lemma {:induction false} KeptDistinct(ranked: seq<string>, selected: set<string>)
    requires Distinct(ranked)
    ensures Distinct(Kept(ranked, selected))
    decreases |ranked|
  {
    if ranked != [] {
      KeptDistinct(ranked[1..], selected);
      KeptMembers(ranked[1..], selected);
    }
  }

  lemma {:induction false} KeptDescends(ranked: seq<string>, selected: set<string>, outranks: Order)
    requires Descends(ranked, outranks)
    ensures Descends(Kept(ranked, selected), outranks)
    decreases |ranked|
  {
    if ranked != [] {
      var rest := ranked[1..];
      KeptDescends(rest, selected, outranks);
      KeptMembers(rest, selected);
      forall u | u in Kept(rest, selected) ensures outranks(ranked[0], u) {
        var i :| 0 <= i < |rest| && rest[i] == u;
        assert ranked[i + 1] == u;
      }
      PutFirst(ranked[0], Kept(rest, selected), outranks);
    }
  }

  /** Filtering keeps a prefix that is wholly selected. */
  lemma {:induction false} KeptPrefix(ranked: seq<string>, selected: set<string>, k: nat)
    requires k <= |ranked| && forall i :: 0 <= i < k ==> ranked[i] in selected
    ensures k <= |Kept(ranked, selected)| && Kept(ranked, selected)[..k] == ranked[..k]
    decreases k
  {
    if k > 0 {
      KeptPrefix(ranked[1..], selected, k - 1);
      assert ranked[..k] == [ranked[0]] + ranked[1..][..k - 1];
    }
  }

  function Cut(s: seq<string>, n: nat): (r: seq<string>)
    ensures |r| <= n && r <= s
  {
    if |s| <= n then s else s[..n]
  }

  lemma CutDistinct(s: seq<string>, n: nat)
    requires Distinct(s)
    ensures Distinct(Cut(s, n))
  {
  }

  lemma CutDescends(s: seq<string>, n: nat, outranks: Order)
    requires Descends(s, outranks)
    ensures Descends(Cut(s, n), outranks)
  {
  }

  lemma CutPrefix(s: seq<string>, n: nat, k: nat)
    requires k <= |s| && k <= n
    ensures k <= |Cut(s, n)| && Cut(s, n)[..k] == s[..k]
  {
  }

  function Members(s: seq<string>): set<string> {
    set t | t in s
  }

  // ── The selection ──────────────────────────────────────────────────

  function RankedTables(schema: Schema, signals: Signals): seq<string> {
    Ranked(schema.order, RankOrder(schema, Scores(schema, signals)))
  }

  function Seeds(schema: Schema, signals: Signals, maxTables: nat): set<string> {
    var ranked := RankedTables(schema, signals);
    if maxTables <= |ranked| then Members(ranked[..maxTables]) else Members(ranked)
  }

  ghost function Selected(schema: Schema, signals: Signals, maxTables: nat): set<string> {
    WithJunctions(schema, schema.order, WithAncestors(schema, Seeds(schema, signals, maxTables)))
  }

  ghost function RankedSelection(schema: Schema, signals: Signals, maxTables: nat): seq<string> {
    Kept(RankedTables(schema, signals), Selected(schema, signals, maxTables))
  }

  /** The tables a question is answered with. */
  ghost function Linked(schema: Schema, signals: Signals, maxTables: nat): seq<string> {
    if |schema.order| <= maxTables then schema.order
    else
      Cut(RankedSelection(schema, signals, maxTables), maxTables + FK_EXTRA_SLOTS)
  }

  lemma RankedTablesRank(schema: Schema, signals: Signals)
    requires schema.Valid()
    ensures Orders(RankOrder(schema, Scores(schema, signals)), schema.order)
    ensures IsRanking(RankedTables(schema, signals), schema.order, RankOrder(schema, Scores(schema, signals)))
  {
    RankOrderOrders(schema, Scores(schema, signals));
    RankedRanks(schema.order, RankOrder(schema, Scores(schema, signals)));
  }

  /** One turn of the scoring loop. */
  method TotalScore(name: string, info: Table, signals: Signals, context: set<string>,
    shortlist: set<string>) returns (s: real)
    requires context == Folded(signals.context, signals.lower) && shortlist == Folded(signals.shortlist, signals.lower)
    ensures s == Score(name, info, signals)
  {
    s := ScoreTable(name, info, signals.question, signals.stems);
    if name in signals.verified {
      s := s + VERIFIED;
    }
    if signals.lower(name) in context {
      s := s + CONTEXT;
    }
    if name in signals.catalog {
      s := s + CATALOG;
    }
    if signals.lower(name) in shortlist {
      s := s + SHORTLIST;
    }
  }

  ghost predicate Scored(schema: Schema, signals: Signals, scores: map<string, real>, t: string) {
    t in schema.tables && t in scores && scores[t] == Score(t, schema.tables[t], signals)
  }

  lemma ScoredAll(schema: Schema, signals: Signals, scores: map<string, real>)
    requires schema.Valid() && scores.Keys == schema.tables.Keys
    requires forall t :: t in scores ==> Scored(schema, signals, scores, t)
    ensures scores == Scores(schema, signals)
  {
    forall t | t in scores ensures scores[t] == Scores(schema, signals)[t] {
      assert Scored(schema, signals, scores, t);
    }
  }

  lemma ScoredMore(schema: Schema, signals: Signals, scores: map<string, real>, t: string, more: map<string, real>)
    requires t in schema.tables && more == scores[t := Score(t, schema.tables[t], signals)]
    requires forall u :: u in scores ==> Scored(schema, signals, scores, u)
    ensures forall u :: u in more ==> Scored(schema, signals, more, u)
  {
    forall u | u in more ensures Scored(schema, signals, more, u) {
      assert u in scores ==> Scored(schema, signals, scores, u);
    }
  }

  /** The scoring loop. */
  method ScoreTables(schema: Schema, signals: Signals) returns (scores: map<string, real>)
    requires schema.Valid()
    ensures scores == Scores(schema, signals)
  {
    var context := Folded(signals.context, signals.lower);
    var shortlist := Folded(signals.shortlist, signals.lower);
    scores := map[];
    for i := 0 to |schema.order|
      invariant forall t :: t in scores <==> t in schema.order[..i]
      invariant forall t :: t in scores ==> Scored(schema, signals, scores, t)
    {
      var t := schema.order[i];
      var s := TotalScore(t, schema.tables[t], signals, context, shortlist);
      ghost var before := scores;
      scores := scores[t := s];
      ScoredMore(schema, signals, before, t, scores);
    }
    assert schema.order[..|schema.order|] == schema.order;
    ScoredAll(schema, signals, scores);
  }

  /** The loop over the seeds, in whatever order the set yields them. */
  method AddAncestors(schema: Schema, seeds: set<string>) returns (selected: set<string>)
    ensures selected == WithAncestors(schema, seeds)
  {
    selected := seeds;
    var left := seeds;
    while left != {}
      invariant left <= seeds && selected == seeds + (WithAncestors(schema, seeds - left))
      decreases left
    {
      var t := Pick(left);
      var parents := FkAncestors(schema, t);
      selected := selected + parents;
      left := left - {t};
      OneMoreSeed(schema, seeds - left - {t}, t);
      assert seeds - left == (seeds - left - {t}) + {t};
    }
    assert seeds - left == seeds;
  }

  lemma OneMoreSeed(schema: Schema, seeds: set<string>, t: string)
    ensures WithAncestors(schema, seeds + {t}) == WithAncestors(schema, seeds) + {t} + Ancestors(schema, t)
  {
  }

  method AddJunctions(schema: Schema, start: set<string>) returns (selected: set<string>)
    ensures selected == WithJunctions(schema, schema.order, start)
  {
    selected := start;
    for i := 0 to |schema.order|
      invariant selected == WithJunctions(schema, schema.order[..i], start)
    {
      var t := schema.order[i];
      JunctionStep(schema, schema.order, i, start);
      if t in selected {
        continue;
      }
      var parents := FkAncestors(schema, t);
      if |parents * selected| >= 2 {
        selected := selected + {t};
      }
    }
    assert schema.order[..|schema.order|] == schema.order;
  }

  /** link_relevant_tables: a small schema is taken whole; otherwise the selection in rank
      order, cut off at `maxTables` + 4. */
  method LinkRelevantTables(schema: Schema, signals: Signals, maxTables: nat) returns (linked: seq<string>)
    requires schema.Valid()
    ensures linked == Linked(schema, signals, maxTables)
  {
    if |schema.order| <= maxTables {
      return schema.order;
    }
    var scores := ScoreTables(schema, signals);
    RankedTablesRank(schema, signals);
    var ranked := Ranked(schema.order, (a, b) => Outscores(scores, a, b));
    if forall t :: t in schema.order ==> scores[t] == 0.0 {
      ranked := Ranked(schema.order, (a, b) => Outsizes(schema, a, b));
    }
    assert ranked == RankedTables(schema, signals);
    var selected := AddAncestors(schema, Members(ranked[..maxTables]));
    selected := AddJunctions(schema, selected);
    var ordered := Kept(ranked, selected);
    linked := Cut(ordered, maxTables + FK_EXTRA_SLOTS);
  }

  // ── What the selection promises ────────────────────────────────────

  lemma RankedSelectionRanks(schema: Schema, signals: Signals, maxTables: nat)
    requires schema.Valid()
    ensures var kept, outranks := RankedSelection(schema, signals, maxTables), RankOrder(schema, Scores(schema, signals));
      && IsRanking(kept, kept, outranks) && Orders(outranks, kept)
      && forall t :: t in kept <==> t in schema.tables && t in Selected(schema, signals, maxTables)
  {
    var ranked, selected := RankedTables(schema, signals), Selected(schema, signals, maxTables);
    RankedTablesRank(schema, signals);
    KeptMembers(ranked, selected);
    KeptDistinct(ranked, selected);
    KeptDescends(ranked, selected, RankOrder(schema, Scores(schema, signals)));
  }

  /** Distinct schema tables, bounded in number. */
  lemma LinkedAreTables(schema: Schema, signals: Signals, maxTables: nat)
    requires schema.Valid()
    ensures var linked := Linked(schema, signals, maxTables);
      Distinct(linked) && |linked| <= maxTables + 4 && forall t :: t in linked ==> t in schema.tables
  {
    if |schema.order| > maxTables {
      RankedSelectionRanks(schema, signals, maxTables);
      CutDistinct(RankedSelection(schema, signals, maxTables), maxTables + FK_EXTRA_SLOTS);
    }
  }

  /** The best `maxTables` come first. */
  lemma LinkedStartsWithSeeds(schema: Schema, signals: Signals, maxTables: nat)
    requires schema.Valid() && |schema.order| > maxTables
    ensures var linked := Linked(schema, signals, maxTables);
      maxTables <= |linked| && linked[..maxTables] == RankedTables(schema, signals)[..maxTables]
  {
    var ranked, kept := RankedTables(schema, signals), RankedSelection(schema, signals, maxTables);
    assert forall i :: 0 <= i < maxTables ==> ranked[i] in ranked[..maxTables];
    KeptPrefix(ranked, Selected(schema, signals, maxTables), maxTables);
    CutPrefix(kept, maxTables + FK_EXTRA_SLOTS, maxTables);
  }

  /** The whole selection is in rank order. */
  lemma LinkedInRankOrder(schema: Schema, signals: Signals, maxTables: nat)
    requires schema.Valid() && |schema.order| > maxTables
    ensures Descends(Linked(schema, signals, maxTables), RankOrder(schema, Scores(schema, signals)))
  {
    RankedSelectionRanks(schema, signals, maxTables);
    CutDescends(RankedSelection(schema, signals, maxTables), maxTables + FK_EXTRA_SLOTS,
      RankOrder(schema, Scores(schema, signals)));
  }

  /** The seeds with their ancestors: what the junction pass starts from. */
  ghost function Core(schema: Schema, signals: Signals, maxTables: nat): set<string> {
    WithAncestors(schema, Seeds(schema, signals, maxTables))
  }

  /** The core and the tables whose foreign keys lead to two or more of its tables. */
  ghost function Joined(schema: Schema, signals: Signals, maxTables: nat): set<string> {
    set t | t in schema.tables && (t in Core(schema, signals, maxTables) || Bridges(schema, t, Core(schema, signals, maxTables)))
  }

  lemma SeedsAreTables(schema: Schema, signals: Signals, maxTables: nat)
    requires schema.Valid()
    ensures Seeds(schema, signals, maxTables) <= schema.tables.Keys
  {
    RankedTablesRank(schema, signals);
  }

  /** Before the cut-off, the selection is the core and what bridges it. */
  lemma SelectedExactly(schema: Schema, signals: Signals, maxTables: nat)
    requires schema.Valid()
    ensures Selected(schema, signals, maxTables) == Joined(schema, signals, maxTables)
  {
    var selected, joined := Selected(schema, signals, maxTables), Joined(schema, signals, maxTables);
    SeedsAreTables(schema, signals, maxTables);
    JunctionsExactly(schema, schema.order, Core(schema, signals, maxTables));
    forall t ensures t in selected <==> t in joined {
      assert t in Core(schema, signals, maxTables) ==> t in schema.tables;
    }
    SameMembers(selected, joined);
  }

  /** A table beyond the seeds is an ancestor of a seed or a junction of two of the seeds
      and their ancestors. */
  lemma ExtrasConnect(schema: Schema, signals: Signals, maxTables: nat, t: string)
    requires schema.Valid() && |schema.order| > maxTables && t in Linked(schema, signals, maxTables)
    ensures var seeds := Seeds(schema, signals, maxTables);
      || t in seeds
      || (exists s :: s in seeds && t in Ancestors(schema, s))
      || Bridges(schema, t, WithAncestors(schema, seeds))
  {
    RankedSelectionRanks(schema, signals, maxTables);
    SelectedExactly(schema, signals, maxTables);
    assert t in Joined(schema, signals, maxTables);
  }

  /** The tables of the core, or bridging it, that come before a table in rank order. */
  ghost function JoinedAhead(schema: Schema, signals: Signals, maxTables: nat, t: string): set<string> {
    set u | u in Joined(schema, signals, maxTables) && RankOrder(schema, Scores(schema, signals))(u, t)
  }

  /** There is room for a table when few enough of those outrank it. */
  ghost predicate HasRoom(schema: Schema, signals: Signals, maxTables: nat, t: string) {
    |JoinedAhead(schema, signals, maxTables, t)| < maxTables + 4
  }

  /** A table is shown exactly when it is in the core or bridges it, and fewer such tables
      outrank it than there is room for. */
  lemma ShownExactly(schema: Schema, signals: Signals, maxTables: nat, t: string)
    requires schema.Valid() && |schema.order| > maxTables
    ensures t in Linked(schema, signals, maxTables) <==>
      t in Joined(schema, signals, maxTables) && HasRoom(schema, signals, maxTables, t)
  {
    var kept, outranks := RankedSelection(schema, signals, maxTables), RankOrder(schema, Scores(schema, signals));
    SelectedExactly(schema, signals, maxTables);
    RankedSelectionRanks(schema, signals, maxTables);
    if t in kept {
      KeptPlace(kept, outranks, maxTables + FK_EXTRA_SLOTS, t);
      forall u ensures u in Ahead(t, kept, outranks) <==> u in JoinedAhead(schema, signals, maxTables, t) {
        assert u in kept <==> u in Joined(schema, signals, maxTables);
      }
      SameMembers(Ahead(t, kept, outranks), JoinedAhead(schema, signals, maxTables, t));
    } else {
      assert t !in Joined(schema, signals, maxTables);
    }
  }

  lemma KeptPlace(kept: seq<string>, outranks: Order, room: nat, t: string)
    requires IsRanking(kept, kept, outranks) && Orders(outranks, kept) && t in kept
    ensures t in Cut(kept, room) <==> |Ahead(t, kept, outranks)| < room
  {
    if |kept| <= room {
      AmongFirst(kept, kept, outranks, |kept|, t);
      assert kept[..|kept|] == kept;
    } else {
      AmongFirst(kept, kept, outranks, room, t);
    }
  }

  /** The seeds and their ancestors can be joined along every foreign key they have. */
  lemma SeedsJoinable(schema: Schema, seeds: set<string>)
    ensures ClosedUnder(schema, WithAncestors(schema, seeds), WithAncestors(schema, seeds))
  {
    forall from, to | from in WithAncestors(schema, seeds) && PointsAt(schema, from, to)
      ensures to in WithAncestors(schema, seeds)
    {
      var s :| s in seeds && (from == s || from in Ancestors(schema, s));
      AncestorsClosed(schema, s);
      assert to in {s} + Ancestors(schema, s);
    }
  }

  // ── Whether the shown tables can be joined ─────────────────────────

  ghost function LinkedSet(schema: Schema, signals: Signals, maxTables: nat): set<string> {
    Members(Linked(schema, signals, maxTables))
  }

  /** A set of tables closed under foreign keys holds the ancestors of its tables. */
  lemma ClosedHoldsAncestors(schema: Schema, tables: set<string>)
    ensures ClosedUnder(schema, tables, tables) <==> forall t :: t in tables ==> Ancestors(schema, t) <= tables
  {
    if ClosedUnder(schema, tables, tables) {
      forall t, u | t in tables && u in Ancestors(schema, t) ensures u in tables {
        var chain :| Connects(schema, chain, t, u, {});
        ClosedContainsReached(schema, chain, t, u, {}, tables);
      }
    }
    if forall t :: t in tables ==> Ancestors(schema, t) <= tables {
      forall t, u | t in tables && PointsAt(schema, t, u) ensures u in tables {
        PointedAtIsAncestor(schema, t, u);
      }
    }
  }

  lemma PointedAtIsAncestor(schema: Schema, t: string, u: string)
    requires PointsAt(schema, t, u)
    ensures u == t || u in Ancestors(schema, t)
  {
    ReachesSelf(schema, u, {});
    ReachesFurther(schema, t, u, u, {}, {});
  }

  /** Every ancestor of a junction outside the core is in the core or bridges it too. */
  ghost predicate JunctionsComplete(schema: Schema, signals: Signals, maxTables: nat, junctions: set<string>) {
    forall j :: j in junctions && j !in Core(schema, signals, maxTables) ==>
      Ancestors(schema, j) <= Joined(schema, signals, maxTables)
  }

  lemma CoreIsClosed(schema: Schema, signals: Signals, maxTables: nat, t: string)
    requires schema.Valid() && t in Core(schema, signals, maxTables)
    ensures Ancestors(schema, t) <= Joined(schema, signals, maxTables)
  {
    var core := Core(schema, signals, maxTables);
    SeedsJoinable(schema, Seeds(schema, signals, maxTables));
    ClosedHoldsAncestors(schema, core);
  }

  /** Before the cut-off, no foreign key leads out of the selection exactly when each
      ancestor of each table that bridges the core is in the core or bridges it. */
  lemma SelectionClosedExactly(schema: Schema, signals: Signals, maxTables: nat)
    requires schema.Valid()
    ensures ClosedUnder(schema, Selected(schema, signals, maxTables), Selected(schema, signals, maxTables)) <==>
      JunctionsComplete(schema, signals, maxTables, Joined(schema, signals, maxTables))
  {
    var joined := Joined(schema, signals, maxTables);
    SelectedExactly(schema, signals, maxTables);
    ClosedHoldsAncestors(schema, joined);
    forall t | t in Core(schema, signals, maxTables) ensures Ancestors(schema, t) <= joined {
      CoreIsClosed(schema, signals, maxTables, t);
    }
  }

  /** The tables in the core, or bridging it, that there is room for. */
  ghost function Fitting(schema: Schema, signals: Signals, maxTables: nat): set<string> {
    set t | t in Joined(schema, signals, maxTables) && HasRoom(schema, signals, maxTables, t)
  }

  lemma ShownIsFitting(schema: Schema, signals: Signals, maxTables: nat)
    requires schema.Valid() && |schema.order| > maxTables
    ensures LinkedSet(schema, signals, maxTables) == Fitting(schema, signals, maxTables)
  {
    forall t ensures t in LinkedSet(schema, signals, maxTables) <==> t in Fitting(schema, signals, maxTables) {
      ShownExactly(schema, signals, maxTables, t);
    }
    SameMembers(LinkedSet(schema, signals, maxTables), Fitting(schema, signals, maxTables));
  }

  /** No foreign key leads out of the tables shown exactly when, among the tables there is
      room for, each junction's ancestors are in the core or bridge it, and there is room
      for each such ancestor of each of them. */
  lemma ShownClosedExactly(schema: Schema, signals: Signals, maxTables: nat)
    requires schema.Valid() && |schema.order| > maxTables
    ensures var shown, fitting := LinkedSet(schema, signals, maxTables), Fitting(schema, signals, maxTables);
      ClosedUnder(schema, shown, shown) <==>
        && JunctionsComplete(schema, signals, maxTables, fitting)
        && forall t, u :: t in fitting && u in Ancestors(schema, t) && u in Joined(schema, signals, maxTables) ==>
          HasRoom(schema, signals, maxTables, u)
  {
    var fitting := Fitting(schema, signals, maxTables);
    ShownIsFitting(schema, signals, maxTables);
    ClosedHoldsAncestors(schema, fitting);
    forall t | t in Core(schema, signals, maxTables) ensures Ancestors(schema, t) <= Joined(schema, signals, maxTables) {
      CoreIsClosed(schema, signals, maxTables, t);
    }
  }

  lemma AllHaveRoom(schema: Schema, signals: Signals, maxTables: nat, t: string)
    requires schema.Valid() && t in Joined(schema, signals, maxTables)
    requires |Joined(schema, signals, maxTables)| <= maxTables + FK_EXTRA_SLOTS
    ensures HasRoom(schema, signals, maxTables, t)
  {
    var ahead, joined := JoinedAhead(schema, signals, maxTables, t), Joined(schema, signals, maxTables);
    RankOrderOrders(schema, Scores(schema, signals));
    assert t in schema.order && t !in ahead;
    SubsetSize(ahead, joined - {t});
  }

  /** With room for the core and all its junctions nothing is dropped, so only the
      junctions' further foreign keys count. */
  lemma ShownClosedWithRoom(schema: Schema, signals: Signals, maxTables: nat)
    requires schema.Valid() && |schema.order| > maxTables
    requires |Joined(schema, signals, maxTables)| <= maxTables + FK_EXTRA_SLOTS
    ensures LinkedSet(schema, signals, maxTables) == Joined(schema, signals, maxTables)
    ensures ClosedUnder(schema, LinkedSet(schema, signals, maxTables), LinkedSet(schema, signals, maxTables)) <==>
      JunctionsComplete(schema, signals, maxTables, Joined(schema, signals, maxTables))
  {
    var fitting, joined := Fitting(schema, signals, maxTables), Joined(schema, signals, maxTables);
    forall t ensures t in fitting <==> t in joined {
      if t in joined {
        AllHaveRoom(schema, signals, maxTables, t);
      }
    }
    SameMembers(fitting, joined);
    ShownIsFitting(schema, signals, maxTables);
    SelectedExactly(schema, signals, maxTables);
    SelectionClosedExactly(schema, signals, maxTables);
  }

  /** Where no table has more than two ancestors, every junction has both in the core. */
  lemma TwoAncestorsSuffice(schema: Schema, signals: Signals, maxTables: nat)
    requires schema.Valid() && forall t :: t in schema.tables ==> |Ancestors(schema, t)| <= 2
    ensures ClosedUnder(schema, Selected(schema, signals, maxTables), Selected(schema, signals, maxTables))
  {
    var joined, core := Joined(schema, signals, maxTables), Core(schema, signals, maxTables);
    forall j | j in joined && j !in core ensures Ancestors(schema, j) <= joined {
      var all := Ancestors(schema, j);
      if u :| u in all && u !in core {
        SubsetSize(all * core, all - {u});
        assert false;
      }
    }
    SelectionClosedExactly(schema, signals, maxTables);
  }

  // ── The order of the schema ────────────────────────────────────────

  lemma SameAncestors(schema: Schema, other: Schema, t: string)
    requires schema.tables == other.tables
    ensures Ancestors(schema, t) == Ancestors(other, t)
  {
    forall chain, to ensures Connects(schema, chain, t, to, {}) <==> Connects(other, chain, t, to, {}) {
    }
  }

  /** The same tables in another order, when something matched, have the same seeds. */
  lemma SameRanking(schema: Schema, other: Schema, signals: Signals)
    requires schema.Valid() && other.Valid() && schema.tables == other.tables
    requires !NothingMatched(Scores(schema, signals))
    ensures RankedTables(schema, signals) == RankedTables(other, signals)
  {
    RankedTablesRank(schema, signals);
    RankedTablesRank(other, signals);
    assert Scores(schema, signals) == Scores(other, signals);
    RankingUnique(RankedTables(schema, signals), RankedTables(other, signals), schema.order,
      RankOrder(schema, Scores(schema, signals)));
  }

  /** Whenever something matched, the order of the schema does not matter: the same tables
      are shown, in the same order. */
  lemma LinkedIgnoresOrder(schema: Schema, other: Schema, signals: Signals, maxTables: nat)
    requires schema.Valid() && other.Valid() && schema.tables == other.tables
    requires !NothingMatched(Scores(schema, signals)) && |schema.order| > maxTables && |other.order| > maxTables
    ensures Linked(schema, signals, maxTables) == Linked(other, signals, maxTables)
  {
    SameRanking(schema, other, signals);
    var core, otherCore := Core(schema, signals, maxTables), Core(other, signals, maxTables);
    forall t ensures Ancestors(schema, t) == Ancestors(other, t) {
      SameAncestors(schema, other, t);
    }
    assert core == otherCore;
    var joined, otherJoined := Joined(schema, signals, maxTables), Joined(other, signals, maxTables);
    forall t ensures t in joined <==> t in otherJoined {
      assert Bridges(schema, t, core) <==> Bridges(other, t, core);
    }
    SameMembers(joined, otherJoined);
    SelectedExactly(schema, signals, maxTables);
    SelectedExactly(other, signals, maxTables);
  }

  // ── Scores and ranks, as a caller sees them ────────────────────────

  ghost predicate HasFolded(names: set<string>, name: string, lower: string -> string) {
    exists other :: other in names && lower(other) == lower(name)
  }

  /** With no signals a table has its points alone. Each new signal adds its weight to the
      tables it names, of which context and shortlist are compared ignoring case, and
      nothing to any other. */
  lemma EachSignalAdds(name: string, info: Table, s: Signals, t: string)
    ensures Score(name, info, s.(verified := {}, context := {}, catalog := {}, shortlist := {})) ==
      Points(name, info, s.question, s.stems)
    ensures t !in s.verified ==>
      Score(name, info, s.(verified := s.verified + {t})) == Score(name, info, s) + if name == t then 5.0 else 0.0
    ensures t !in s.catalog ==>
      Score(name, info, s.(catalog := s.catalog + {t})) == Score(name, info, s) + if name == t then 6.0 else 0.0
    ensures !HasFolded(s.context, t, s.lower) ==>
      Score(name, info, s.(context := s.context + {t})) ==
        Score(name, info, s) + if s.lower(name) == s.lower(t) then 8.0 else 0.0
    ensures !HasFolded(s.shortlist, t, s.lower) ==>
      Score(name, info, s.(shortlist := s.shortlist + {t})) ==
        Score(name, info, s) + if s.lower(name) == s.lower(t) then 6.0 else 0.0
  {
    FoldedMore(s.context, t, s.lower);
    FoldedMore(s.shortlist, t, s.lower);
  }

  lemma FoldedMore(names: set<string>, t: string, lower: string -> string)
    ensures Folded(names + {t}, lower) == Folded(names, lower) + {lower(t)}
    ensures lower(t) in Folded(names, lower) <==> HasFolded(names, t, lower)
  {
  }


  /** The ranking is by score, equal scores by name; when nothing matched it is by number of
      rows, equal numbers in the order of the schema. */
  lemma RankedBestFirst(schema: Schema, signals: Signals, i: nat, j: nat)
    requires schema.Valid() && i < j < |schema.order|
    ensures var ranked, scores := RankedTables(schema, signals), Scores(schema, signals);
      && ranked[i] in schema.tables && ranked[j] in schema.tables
      && (if NothingMatched(scores) then
          var a, b := schema.tables[ranked[i]].rowCount, schema.tables[ranked[j]].rowCount;
          a > b || (a == b && exists p, q :: 0 <= p < q < |schema.order| && schema.order[p] == ranked[i] && schema.order[q] == ranked[j])
        else
          var a, b := scores[ranked[i]], scores[ranked[j]];
          a > b || (a == b && TextBefore(ranked[i], ranked[j])))
  {
    var ranked := RankedTables(schema, signals);
    RankedTablesRank(schema, signals);
    assert RankOrder(schema, Scores(schema, signals))(ranked[i], ranked[j]);
    assert ranked[i] in ranked && ranked[j] in ranked;
    PositionFinds(schema.order, ranked[i]);
    PositionFinds(schema.order, ranked[j]);
  }

  // ── The shortlist ──────────────────────────────────────────────────

  function WithShortlisted(signals: Signals, t: string): Signals {
    signals.(shortlist := signals.shortlist + {t})
  }

  /** The tables whose names differ from `t` only in case and sort before it. */
  function CaseRivals(schema: Schema, signals: Signals, t: string): set<string> {
    set u | u in schema.tables && signals.lower(u) == signals.lower(t) && TextBefore(u, t)
  }

  /** Shortlisting a table leaves other tables' scores alone and never lowers its own. */
  lemma ShortlistedScore(schema: Schema, signals: Signals, t: string, u: string)
    requires t in schema.tables && u in schema.tables
    ensures var before, after := Scores(schema, signals), Scores(schema, WithShortlisted(signals, t));
      && (signals.lower(u) != signals.lower(t) ==> after[u] == before[u])
      && (signals.lower(u) == signals.lower(t) ==> after[u] - before[u] == after[t] - before[t])
      && after[t] >= before[t] && after[t] >= SHORTLIST
  {
    var lower := signals.lower;
    assert forall n :: n in Folded(signals.shortlist + {t}, lower) <==> n in Folded(signals.shortlist, lower) || n == lower(t);
    PointsGrow(t, schema.tables[t], signals.question, signals.question, signals.stems);
  }

  lemma AheadAfterMatch(schema: Schema, signals: Signals, t: string)
    requires schema.Valid() && t in schema.tables && !NothingMatched(Scores(schema, signals))
    ensures var before, after := Scores(schema, signals), Scores(schema, WithShortlisted(signals, t));
      Ahead(t, schema.order, RankOrder(schema, after)) <= Ahead(t, schema.order, RankOrder(schema, before))
  {
    var before, after := Scores(schema, signals), Scores(schema, WithShortlisted(signals, t));
    ShortlistedScore(schema, signals, t, t);
    forall u | u in Ahead(t, schema.order, RankOrder(schema, after))
      ensures u in Ahead(t, schema.order, RankOrder(schema, before))
    {
      ShortlistedScore(schema, signals, t, u);
    }
  }

  lemma AheadAfterNoMatch(schema: Schema, signals: Signals, t: string)
    requires schema.Valid() && t in schema.tables && NothingMatched(Scores(schema, signals))
    ensures Ahead(t, schema.order, RankOrder(schema, Scores(schema, WithShortlisted(signals, t))))
      == CaseRivals(schema, signals, t)
  {
    var before, after := Scores(schema, signals), Scores(schema, WithShortlisted(signals, t));
    ShortlistedScore(schema, signals, t, t);
    var ahead, rivals := Ahead(t, schema.order, RankOrder(schema, after)), CaseRivals(schema, signals, t);
    forall u ensures u in ahead <==> u in rivals {
      if u in schema.tables {
        ShortlistedScore(schema, signals, t, u);
      }
    }
    SameMembers(ahead, rivals);
  }

  lemma AmongSeeds(schema: Schema, signals: Signals, maxTables: nat, t: string)
    requires schema.Valid() && t in schema.tables && |schema.order| > maxTables
    ensures t in Seeds(schema, signals, maxTables) <==>
      |Ahead(t, schema.order, RankOrder(schema, Scores(schema, signals)))| < maxTables
  {
    RankedTablesRank(schema, signals);
    AmongFirst(RankedTables(schema, signals), schema.order, RankOrder(schema, Scores(schema, signals)), maxTables, t);
  }

  /** Shortlisting a seed keeps it a seed, except when nothing matched before and as many
      tables as there are seeds share its name but for case and sort before it. */
  lemma ShortlistKeepsSeed(schema: Schema, signals: Signals, maxTables: nat, t: string)
    requires schema.Valid() && t in schema.tables && |schema.order| > maxTables
    requires t in Seeds(schema, signals, maxTables)
    ensures t in Seeds(schema, WithShortlisted(signals, t), maxTables) <==>
      !NothingMatched(Scores(schema, signals)) || |CaseRivals(schema, signals, t)| < maxTables
  {
    AmongSeeds(schema, signals, maxTables, t);
    AmongSeeds(schema, WithShortlisted(signals, t), maxTables, t);
    if NothingMatched(Scores(schema, signals)) {
      AheadAfterNoMatch(schema, signals, t);
    } else {
      AheadAfterMatch(schema, signals, t);
      SubsetSize(Ahead(t, schema.order, RankOrder(schema, Scores(schema, WithShortlisted(signals, t)))),
        Ahead(t, schema.order, RankOrder(schema, Scores(schema, signals))));
    }
  }

  /** No two table names are the same but for case. */
  ghost predicate NamesDistinctIgnoringCase(schema: Schema, lower: string -> string) {
    forall a, b :: a in schema.tables && b in schema.tables && lower(a) == lower(b) ==> a == b
  }

  /** Where names differ in more than case, shortlisting never drops a seed, and when
      nothing matched it makes any table a seed. */
  lemma ShortlistOnlyHelps(schema: Schema, signals: Signals, maxTables: nat, t: string)
    requires schema.Valid() && t in schema.tables && |schema.order| > maxTables >= 1
    requires NamesDistinctIgnoringCase(schema, signals.lower)
    requires t in Seeds(schema, signals, maxTables) || NothingMatched(Scores(schema, signals))
    ensures t in Seeds(schema, WithShortlisted(signals, t), maxTables)
  {
    TextTotal(t, t);
    assert CaseRivals(schema, signals, t) == {};
    if NothingMatched(Scores(schema, signals)) {
      AmongSeeds(schema, WithShortlisted(signals, t), maxTables, t);
      AheadAfterNoMatch(schema, signals, t);
    } else {
      ShortlistKeepsSeed(schema, signals, maxTables, t);
    }
  }
}
