/** Tables are created in an order in which each comes after those it references. */
module TableOrder {
  import opened Sequences

  /** Schemas, by number, and those each references, in order. */
  datatype Graph = Graph(schemas: seq<nat>, references: map<nat, seq<nat>>) {
    function Referenced(schema: nat): seq<nat> { if schema in references then references[schema] else [] }

    /** Whether a schema needs another created first: one listed, and not itself. */
    predicate Needs(schema: nat, other: nat) { other in Referenced(schema) && other != schema && other in schemas }
  }

  /** Schemas each of which needs the next. */
  predicate IsPath(g: Graph, path: seq<nat>) {
    && |path| >= 2
    && (forall i :: 0 <= i < |path| ==> path[i] in g.schemas)
    && forall i :: 0 <= i < |path| - 1 ==> g.Needs(path[i], path[i + 1])
  }

  /** No schema needs itself through others: references to oneself aside, there is no circle of them. */
  ghost predicate IsAcyclic(g: Graph) {
    forall path :: IsPath(g, path) ==> path[0] != path[|path| - 1]
  }

  ghost predicate Reaches(g: Graph, from: nat, to: nat) {
    exists path :: IsPath(g, path) && path[0] == from && path[|path| - 1] == to
  }

  /** What must be created before a schema, near or far. */
  ghost function Below(g: Graph, schema: nat): set<nat> { set s | s in g.schemas && Reaches(g, schema, s) }

  lemma NeededIsBelow(g: Graph, schema: nat, other: nat)
    requires schema in g.schemas && g.Needs(schema, other)
    ensures other in Below(g, schema) && Below(g, other) <= Below(g, schema)
  {
    assert IsPath(g, [schema, other]);
    forall s | s in Below(g, other) ensures Reaches(g, schema, s) {
      var path :| IsPath(g, path) && path[0] == other && path[|path| - 1] == s;
      var longer := [schema] + path;
      assert IsPath(g, longer) && longer[0] == schema && longer[|longer| - 1] == s;
    }
  }

  // ---- ranks ----

  /** Ranks that every reference but one to itself lowers. */
  predicate IsRank(g: Graph, rank: map<nat, nat>) {
    && (forall s :: s in g.schemas ==> s in rank)
    && (forall s, i :: s in g.schemas && 0 <= i < |g.Referenced(s)| && g.Needs(s, g.Referenced(s)[i]) ==>
          rank[g.Referenced(s)[i]] < rank[s])
  }

  /** How many schemas must be created before each. */
  ghost function BelowCounts(g: Graph): map<nat, nat> { map s | s in g.schemas :: |Below(g, s)| }

  lemma SmallerSet(a: set<nat>, b: set<nat>)
    requires a < b
    ensures |a| < |b|
  {
    assert b == a + (b - a);
    assert |b - a| > 0 by { var x :| x in b && x !in a; assert x in b - a; }
  }

  lemma AcyclicIsRanked(g: Graph)
    requires IsAcyclic(g)
    ensures IsRank(g, BelowCounts(g))
  {
    forall s, i | s in g.schemas && 0 <= i < |g.Referenced(s)| && g.Needs(s, g.Referenced(s)[i])
      ensures BelowCounts(g)[g.Referenced(s)[i]] < BelowCounts(g)[s]
    {
      var other := g.Referenced(s)[i];
      NeededIsBelow(g, s, other);
      assert other !in Below(g, other);
      SmallerSet(Below(g, other), Below(g, s));
    }
  }

  ghost function RankOf(g: Graph): (rank: map<nat, nat>)
    requires IsAcyclic(g)
    ensures IsRank(g, rank)
  {
    AcyclicIsRanked(g);
    var rank :| IsRank(g, rank);
    rank
  }

  lemma {:induction false} PathLowersRank(g: Graph, rank: map<nat, nat>, path: seq<nat>)
    requires IsRank(g, rank) && IsPath(g, path)
    ensures path[0] in rank && path[|path| - 1] in rank && rank[path[|path| - 1]] < rank[path[0]]
  {
    assert g.Needs(path[0], path[1]) && path[0] in g.schemas && path[1] in g.schemas;
    var i :| 0 <= i < |g.Referenced(path[0])| && g.Referenced(path[0])[i] == path[1];
    assert rank[g.Referenced(path[0])[i]] < rank[path[0]];
    if |path| > 2 {
      var rest := path[1..];
      forall j | 0 <= j < |rest| - 1 ensures g.Needs(rest[j], rest[j + 1]) {
        assert g.Needs(path[j + 1], path[j + 2]);
      }
      PathLowersRank(g, rank, rest);
    }
  }

  /** A list in which each schema comes once, and after all it needs. */
  predicate IsReferencesFirst(g: Graph, ordered: seq<nat>) {
    && Distinct(ordered) && (forall s :: s in ordered ==> s in g.schemas)
    && forall i, other :: 0 <= i < |ordered| && other in g.Referenced(ordered[i]) && g.Needs(ordered[i], other) ==>
         other in ordered[..i]
  }

  // ---- the recursion ----

  ghost function Added(g: Graph, rank: map<nat, nat>, schema: nat, ordered: seq<nat>): seq<nat>
    requires IsRank(g, rank) && schema in g.schemas
    decreases rank[schema], 1, 0
  {
    if schema in ordered then ordered
    else AddedFirst(g, rank, schema, |g.Referenced(schema)|, ordered) + [schema]
  }

  /** With the first few of those the schema references, each after those it needs itself. */
  ghost function AddedFirst(g: Graph, rank: map<nat, nat>, schema: nat, n: nat, ordered: seq<nat>): seq<nat>
    requires IsRank(g, rank) && schema in g.schemas && n <= |g.Referenced(schema)|
    decreases rank[schema], 0, n
  {
    if n == 0 then ordered
    else
      var before := AddedFirst(g, rank, schema, n - 1, ordered);
      var other := g.Referenced(schema)[n - 1];
      if g.Needs(schema, other) then Added(g, rank, other, before) else before
  }

  ghost function AddedAll(g: Graph, rank: map<nat, nat>, n: nat): seq<nat>
    requires IsRank(g, rank) && n <= |g.schemas|
  {
    if n == 0 then [] else Added(g, rank, g.schemas[n - 1], AddedAll(g, rank, n - 1))
  }

  /** What adding keeps: the list so far comes first, and only what is ranked below the bound is added. */
  ghost predicate Extends(g: Graph, rank: map<nat, nat>, bound: nat, ordered: seq<nat>, after: seq<nat>)
    requires IsRank(g, rank)
  {
    && ordered <= after && IsReferencesFirst(g, after)
    && forall s :: s in after && s !in ordered ==> rank[s] < bound
  }

  lemma ExtendsTwice(g: Graph, rank: map<nat, nat>, low: nat, high: nat, a: seq<nat>, b: seq<nat>, c: seq<nat>)
    requires IsRank(g, rank) && low <= high
    requires Extends(g, rank, high, a, b) && Extends(g, rank, low, b, c)
    ensures Extends(g, rank, high, a, c)
  {
    assert a <= c;
  }

  lemma AppendAfterNeeds(g: Graph, rank: map<nat, nat>, schema: nat, ordered: seq<nat>, before: seq<nat>)
    requires IsRank(g, rank) && schema in g.schemas && schema !in ordered
    requires Extends(g, rank, rank[schema], ordered, before)
    requires forall other :: other in g.Referenced(schema) && g.Needs(schema, other) ==> other in before
    ensures Extends(g, rank, rank[schema] + 1, ordered, before + [schema])
  {
    var after := before + [schema];
    assert schema !in before;
    forall i, other | 0 <= i < |after| && other in g.Referenced(after[i]) && g.Needs(after[i], other)
      ensures other in after[..i]
    {
      assert after[..i] == before[..i];
    }
  }

  lemma {:induction false} AddedExtends(g: Graph, rank: map<nat, nat>, schema: nat, ordered: seq<nat>)
    requires IsRank(g, rank) && schema in g.schemas && IsReferencesFirst(g, ordered)
    ensures Extends(g, rank, rank[schema] + 1, ordered, Added(g, rank, schema, ordered))
    ensures schema in Added(g, rank, schema, ordered)
    decreases rank[schema], 1, 0
  {
    if schema !in ordered {
      var before := AddedFirst(g, rank, schema, |g.Referenced(schema)|, ordered);
      AddedFirstExtends(g, rank, schema, |g.Referenced(schema)|, ordered);
      AppendAfterNeeds(g, rank, schema, ordered, before);
    }
  }

  lemma {:induction false} AddedFirstExtends(g: Graph, rank: map<nat, nat>, schema: nat, n: nat, ordered: seq<nat>)
    requires IsRank(g, rank) && schema in g.schemas && n <= |g.Referenced(schema)| && IsReferencesFirst(g, ordered)
    ensures Extends(g, rank, rank[schema], ordered, AddedFirst(g, rank, schema, n, ordered))
    ensures forall i :: 0 <= i < n && g.Needs(schema, g.Referenced(schema)[i]) ==>
      g.Referenced(schema)[i] in AddedFirst(g, rank, schema, n, ordered)
    decreases rank[schema], 0, n
  {
    if n > 0 {
      AddedFirstExtends(g, rank, schema, n - 1, ordered);
      var before, other := AddedFirst(g, rank, schema, n - 1, ordered), g.Referenced(schema)[n - 1];
      if g.Needs(schema, other) {
        AddedExtends(g, rank, other, before);
        ExtendsTwice(g, rank, rank[other] + 1, rank[schema], ordered, before, AddedFirst(g, rank, schema, n, ordered));
      }
    }
  }

  lemma {:induction false} AllAreAdded(g: Graph, rank: map<nat, nat>, n: nat)
    requires IsRank(g, rank) && n <= |g.schemas|
    ensures IsReferencesFirst(g, AddedAll(g, rank, n))
    ensures forall i :: 0 <= i < n ==> g.schemas[i] in AddedAll(g, rank, n)
  {
    if n > 0 {
      AllAreAdded(g, rank, n - 1);
      AddedExtends(g, rank, g.schemas[n - 1], AddedAll(g, rank, n - 1));
    }
  }

  // ---- as it runs ----

  method AddAfterReferences(g: Graph, schema: nat, ordered: seq<nat>) returns (after: seq<nat>)
    requires IsAcyclic(g) && schema in g.schemas && IsReferencesFirst(g, ordered)
    ensures after == Added(g, RankOf(g), schema, ordered)
    ensures ordered <= after && IsReferencesFirst(g, after) && schema in after
    decreases RankOf(g)[schema]
  {
    AddedExtends(g, RankOf(g), schema, ordered);
    if schema in ordered {
      return ordered;
    }
    after := ordered;
    var referenced := g.Referenced(schema);
    for i := 0 to |referenced|
      invariant after == AddedFirst(g, RankOf(g), schema, i, ordered)
    {
      AddedFirstExtends(g, RankOf(g), schema, i, ordered);
      if referenced[i] != schema && referenced[i] in g.schemas {
        assert g.Needs(schema, referenced[i]);
        after := AddAfterReferences(g, referenced[i], after);
      }
    }
    after := after + [schema];
  }

  /** Without a circle of references the recursion ends, with each schema once and after all those
      listed that it references. */
  method OrderByReferences(g: Graph) returns (ordered: seq<nat>)
    requires IsAcyclic(g)
    ensures IsReferencesFirst(g, ordered) && forall s :: s in ordered <==> s in g.schemas
  {
    ordered := [];
    for i := 0 to |g.schemas|
      invariant ordered == AddedAll(g, RankOf(g), i)
    {
      AllAreAdded(g, RankOf(g), i);
      ordered := AddAfterReferences(g, g.schemas[i], ordered);
    }
    AllAreAdded(g, RankOf(g), |g.schemas|);
  }

  // ---- when there is an order at all ----

  function Position(ordered: seq<nat>, s: nat): (i: nat)
    requires s in ordered
    ensures i < |ordered| && ordered[i] == s
  {
    if ordered[0] == s then 0 else 1 + Position(ordered[1..], s)
  }

  lemma PositionsAreRank(g: Graph, ordered: seq<nat>)
    requires IsReferencesFirst(g, ordered) && forall s :: s in g.schemas ==> s in ordered
    ensures IsRank(g, map s | s in ordered :: Position(ordered, s))
  {
    var rank := map s | s in ordered :: Position(ordered, s);
    forall s, i | s in g.schemas && 0 <= i < |g.Referenced(s)| && g.Needs(s, g.Referenced(s)[i])
      ensures rank[g.Referenced(s)[i]] < rank[s]
    {
      var p, other := Position(ordered, s), g.Referenced(s)[i];
      assert other in ordered[..p];
      var q :| 0 <= q < p && ordered[q] == other;
      assert Position(ordered, other) == q;
    }
  }

  /** There is such an order exactly if there is no circle of references, but to oneself. */
  lemma OrderExistsIffAcyclic(g: Graph)
    ensures (exists ordered :: IsReferencesFirst(g, ordered) && forall s :: s in g.schemas ==> s in ordered)
            <==> IsAcyclic(g)
  {
    if IsAcyclic(g) {
      AllAreAdded(g, RankOf(g), |g.schemas|);
      assert IsReferencesFirst(g, AddedAll(g, RankOf(g), |g.schemas|));
    }
    if ordered :| IsReferencesFirst(g, ordered) && forall s :: s in g.schemas ==> s in ordered {
      PositionsAreRank(g, ordered);
      forall path | IsPath(g, path) ensures path[0] != path[|path| - 1] {
        PathLowersRank(g, map s | s in ordered :: Position(ordered, s), path);
      }
    }
  }
}
