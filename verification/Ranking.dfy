/** Sorting table names best first under a strict total order, and what a place in the
    ranking means. */
module Ranking {
  import opened Wrappers

  type Order = (string, string) -> bool

  /** Python's `<` on strings: code point by code point, a proper prefix first. */
  predicate TextBefore(a: string, b: string) {
    if b == "" then false
    else if a == "" then true
    else a[0] < b[0] || (a[0] == b[0] && TextBefore(a[1..], b[1..]))
  }

  /** The texts agree up to a place where the first ends or has the smaller character. */
  predicate FirstDiffer(a: string, b: string, n: nat) {
    n <= |a| && n < |b| && a[..n] == b[..n] && (n == |a| || a[n] < b[n])
  }

  lemma {:induction false} TextBeforeExactly(a: string, b: string)
    ensures TextBefore(a, b) <==> exists n: nat :: FirstDiffer(a, b, n)
    decreases |a|
  {
    if a == "" && b != "" {
      assert FirstDiffer(a, b, 0);
    } else if a != "" && b != "" {
      TextBeforeExactly(a[1..], b[1..]);
      if a[0] < b[0] {
        assert FirstDiffer(a, b, 0);
      }
      if n: nat :| FirstDiffer(a[1..], b[1..], n) && a[0] == b[0] {
        assert a[..n + 1] == [a[0]] + a[1..][..n] && b[..n + 1] == [b[0]] + b[1..][..n];
        assert FirstDiffer(a, b, n + 1);
      }
      if n: nat :| FirstDiffer(a, b, n) && n > 0 {
        assert a[..n][0] == b[..n][0];
        assert a[1..][..n - 1] == a[..n][1..] && b[1..][..n - 1] == b[..n][1..];
        assert FirstDiffer(a[1..], b[1..], n - 1);
      }
    }
  }

  lemma {:induction false} TextTotal(a: string, b: string)
    ensures a == b <==> !TextBefore(a, b) && !TextBefore(b, a)
    ensures !(TextBefore(a, b) && TextBefore(b, a))
    decreases |a|
  {
    if a != "" && b != "" {
      TextTotal(a[1..], b[1..]);
      assert a == [a[0]] + a[1..] && b == [b[0]] + b[1..];
    }
  }

  lemma {:induction false} TextTransitive(a: string, b: string, c: string)
    requires TextBefore(a, b) && TextBefore(b, c)
    ensures TextBefore(a, c)
    decreases |a|
  {
    if a != "" && a[0] == b[0] == c[0] {
      TextTransitive(a[1..], b[1..], c[1..]);
    }
  }

  ghost predicate Distinct<T(!new)>(s: seq<T>) {
    forall i, j :: 0 <= i < j < |s| ==> s[i] != s[j]
  }

  ghost predicate Orders(outranks: Order, items: seq<string>) {
    && (forall a, b :: a in items && b in items ==> (outranks(a, b) <==> a != b && !outranks(b, a)))
    && (forall a, b, c :: a in items && b in items && c in items && outranks(a, b) && outranks(b, c) ==> outranks(a, c))
  }

  ghost predicate Descends(ranked: seq<string>, outranks: Order) {
    forall i, j :: 0 <= i < j < |ranked| ==> outranks(ranked[i], ranked[j])
  }

  ghost predicate SameTables(a: seq<string>, b: seq<string>) {
    forall t :: t in a <==> t in b
  }

  ghost predicate IsRanking(ranked: seq<string>, items: seq<string>, outranks: Order) {
    Distinct(ranked) && SameTables(ranked, items) && Descends(ranked, outranks)
  }

  function Insert(t: string, ranked: seq<string>, outranks: Order): (r: seq<string>)
    ensures |r| == |ranked| + 1
  {
    if ranked == [] then [t]
    else if outranks(t, ranked[0]) then [t] + ranked
    else [ranked[0]] + Insert(t, ranked[1..], outranks)
  }

  /** sorted() by a key whose comparisons `outranks` gives. */
  function Ranked(items: seq<string>, outranks: Order): (r: seq<string>)
    ensures |r| == |items|
  {
    if items == [] then [] else Insert(items[0], Ranked(items[1..], outranks), outranks)
  }

  lemma {:induction false} InsertMembers(t: string, ranked: seq<string>, outranks: Order)
    ensures SameTables(Insert(t, ranked, outranks), [t] + ranked)
    decreases |ranked|
  {
    if ranked != [] && !outranks(t, ranked[0]) {
      InsertMembers(t, ranked[1..], outranks);
      assert ranked == [ranked[0]] + ranked[1..];
    }
  }

  lemma PutFirst(t: string, ranked: seq<string>, outranks: Order)
    requires Descends(ranked, outranks) && forall u :: u in ranked ==> outranks(t, u)
    ensures Descends([t] + ranked, outranks)
  {
  }

  lemma {:induction false} InsertDescends(t: string, ranked: seq<string>, outranks: Order)
    requires Descends(ranked, outranks) && t !in ranked && Orders(outranks, [t] + ranked)
    ensures Descends(Insert(t, ranked, outranks), outranks)
    decreases |ranked|
  {
    if ranked != [] {
      var rest := ranked[1..];
      assert ranked == [ranked[0]] + rest;
      forall u | u in rest ensures outranks(ranked[0], u) {
        var i :| 0 <= i < |rest| && rest[i] == u;
        assert ranked[i + 1] == u;
      }
      if outranks(t, ranked[0]) {
        PutFirst(t, ranked, outranks);
      } else {
        InsertDescends(t, rest, outranks);
        InsertMembers(t, rest, outranks);
        PutFirst(ranked[0], Insert(t, rest, outranks), outranks);
      }
    }
  }

  /** The sort returns the ranking of its items. */
  lemma {:induction false} RankedRanks(items: seq<string>, outranks: Order)
    requires Distinct(items) && Orders(outranks, items)
    ensures IsRanking(Ranked(items, outranks), items, outranks)
    decreases |items|
  {
    if items != [] {
      var rest := items[1..];
      assert items == [items[0]] + rest;
      RankedRanks(rest, outranks);
      var ranked := Ranked(rest, outranks);
      InsertMembers(items[0], ranked, outranks);
      assert Orders(outranks, [items[0]] + ranked) by {
        assert SameTables([items[0]] + ranked, items);
      }
      InsertDescends(items[0], ranked, outranks);
      DescendingDistinct(Ranked(items, outranks), items, outranks);
    }
  }

  lemma DescendingDistinct(ranked: seq<string>, items: seq<string>, outranks: Order)
    requires Descends(ranked, outranks) && SameTables(ranked, items) && Orders(outranks, items)
    ensures Distinct(ranked)
  {
    forall i, j | 0 <= i < j < |ranked| ensures ranked[i] != ranked[j] {
      assert ranked[i] in items && ranked[j] in items && outranks(ranked[i], ranked[j]);
    }
  }

  function Ahead(t: string, items: seq<string>, outranks: Order): set<string> {
    set u | u in items && outranks(u, t)
  }

  lemma {:induction false} PrefixSize(s: seq<string>, k: nat)
    requires Distinct(s) && k <= |s|
    ensures |set i | 0 <= i < k :: s[i]| == k
    decreases k
  {
    if k > 0 {
      PrefixSize(s, k - 1);
      assert (set i | 0 <= i < k :: s[i]) == (set i | 0 <= i < k - 1 :: s[i]) + {s[k - 1]};
    }
  }

  /** A table stands at the place that counts the tables ahead of it. */
  lemma PlaceCounts(ranked: seq<string>, items: seq<string>, outranks: Order, k: nat)
    requires IsRanking(ranked, items, outranks) && Orders(outranks, items) && k < |ranked|
    ensures |Ahead(ranked[k], items, outranks)| == k
  {
    PrefixSize(ranked, k);
    forall u ensures u in Ahead(ranked[k], items, outranks) <==> u in set i | 0 <= i < k :: ranked[i] {
      if u in items {
        assert u in ranked;
        var i :| 0 <= i < |ranked| && ranked[i] == u;
        assert ranked[k] in items;
      }
    }
    SameMembers(Ahead(ranked[k], items, outranks), set i | 0 <= i < k :: ranked[i]);
  }

  /** A table is among the first `k` exactly when fewer than `k` tables are ahead of it. */
  lemma AmongFirst(ranked: seq<string>, items: seq<string>, outranks: Order, k: nat, t: string)
    requires IsRanking(ranked, items, outranks) && Orders(outranks, items) && k <= |ranked| && t in items
    ensures t in ranked[..k] <==> |Ahead(t, items, outranks)| < k
  {
    assert t in ranked;
    var i :| 0 <= i < |ranked| && ranked[i] == t;
    PlaceCounts(ranked, items, outranks, i);
    if t in ranked[..k] {
      var j :| 0 <= j < k && ranked[j] == t;
    }
    assert i < k ==> t in ranked[..k];
  }

  lemma RankingAgrees(a: seq<string>, b: seq<string>, items: seq<string>, outranks: Order, k: nat)
    requires IsRanking(a, items, outranks) && IsRanking(b, items, outranks) && Orders(outranks, items) && k < |a|
    ensures k < |b| && a[k] == b[k]
  {
    assert a[k] in items && a[k] in b;
    var j :| 0 <= j < |b| && b[j] == a[k];
    PlaceCounts(a, items, outranks, k);
    PlaceCounts(b, items, outranks, j);
  }

  /** The items have one ranking only, so any correct sort agrees with this one. */
  lemma RankingUnique(a: seq<string>, b: seq<string>, items: seq<string>, outranks: Order)
    requires IsRanking(a, items, outranks) && IsRanking(b, items, outranks) && Orders(outranks, items)
    ensures a == b
  {
    forall k | 0 <= k < |a| ensures k < |b| && a[k] == b[k] {
      RankingAgrees(a, b, items, outranks, k);
    }
    if |a| < |b| {
      RankingAgrees(b, a, items, outranks, |a|);
    } else if |b| < |a| {
      RankingAgrees(a, b, items, outranks, |b|);
    }
  }
}
