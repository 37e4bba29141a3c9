/**
 * The query routine: pick seed nodes by a text-index match (falling back to
 * a LIKE scan when the index is unusable), optionally collect the edges that
 * touch a seed, and append the nodes at the far end of those edges.
 *
 * What SQLite decides and the model leaves open (whether FTS5 exists, which
 * terms its query syntax accepts, which index rows a term matches, how data is
 * serialised, and the order in which tables are scanned) is the `Engine`.
 */
module Query {
  import opened Wrappers
  import opened SqlLike
  import opened PyStrings
  import opened Store
  import Writer

  /** `term` may be None in the source (any falsy value is read as ""). */
  datatype QueryOpts = QueryOpts(term: Option<string>, limit: Option<int>, expandNeighbors: bool, neighborBudget: int)

  datatype QueryResult = QueryResult(nodes: seq<Node>, edges: seq<Edge>)

  /**
   * The parts of SQLite the model does not spell out: whether the FTS5 module
   * is present, whether `MATCH` accepts a term, whether a term matches an
   * index row (its `id` column and its `content` column are both searched),
   * the text `json(data)` gives, and the order in which the
   * index, the nodes table and the edges table are scanned.
   */
  datatype Engine = Engine(
    ftsAvailable: bool,
    parses: string -> bool,
    matches: (string, NodeId, string) -> bool,
    serialize: Data -> string,
    ftsOrder: seq<NodeId>,
    nodeOrder: seq<NodeId>,
    edgeOrder: seq<EdgeId>)

  // ---------------------------------------------------------------------
  // Sequence helpers
  // ---------------------------------------------------------------------

  predicate Distinct<T(==)>(xs: seq<T>) {
    forall i, j | 0 <= i < j < |xs| :: xs[i] != xs[j]
  }

  /** `xs` lists every element of `s` exactly once: a scan of a keyed table. */
  ghost predicate Enumerates<T(!new)>(xs: seq<T>, s: set<T>) {
    Distinct(xs) && forall x :: x in xs <==> x in s
  }

  /** The elements of `xs` that `keep` accepts, in their order. */
  function Filter<T(==, !new)>(xs: seq<T>, keep: T -> bool): (r: seq<T>)
    ensures |r| <= |xs|
    ensures forall x :: x in r <==> x in xs && keep(x)
    ensures Distinct(xs) ==> Distinct(r)
  {
    if xs == [] then []
    else
      var rest := Filter(xs[1..], keep);
      assert forall x :: x in xs <==> x == xs[0] || x in xs[1..];
      if keep(xs[0]) then [xs[0]] + rest else rest
  }

  /** SQL `LIMIT n`: a negative `n` places no bound. */
  function Limit<T>(xs: seq<T>, n: int): (r: seq<T>)
    ensures |r| <= |xs| && r == xs[..|r|]
    ensures n < 0 ==> r == xs
    ensures n >= 0 ==> |r| == if n < |xs| then n else |xs|
  {
    if n < 0 || n >= |xs| then xs else xs[..n]
  }

  lemma LimitKeepsDistinct<T>(xs: seq<T>, n: int)
    requires Distinct(xs)
    ensures Distinct(Limit(xs, n))
  {
  }

  // ---------------------------------------------------------------------
  // Options
  // ---------------------------------------------------------------------

  /** `opts.term or ""`. */
  function EffectiveTerm(opts: QueryOpts): string {
    opts.term.GetOr("")
  }

  /** `int(opts.limit or 10)`: a missing or zero limit becomes 10; nothing else changes. */
  function EffectiveLimit(opts: QueryOpts): (limit: int)
    ensures limit != 0
    ensures opts.limit.Some? && opts.limit.value != 0 ==> limit == opts.limit.value
    ensures opts.limit.None? || opts.limit.value == 0 ==> limit == 10
  {
    match opts.limit
    case None => 10
    case Some(n) => if n == 0 then 10 else n
  }

  /** The text index is used when it can be created and `MATCH` accepts the term. */
  predicate UsesIndex(e: Engine, opts: QueryOpts) {
    e.ftsAvailable && e.parses(EffectiveTerm(opts))
  }

  // ---------------------------------------------------------------------
  // `_ensure_fts`
  // ---------------------------------------------------------------------

  /**
   * The tables after `_ensure_fts` succeeds: the index table and triggers
   * exist, and the index is filled from the nodes only if it holds no row.
   */
  function EnsuredIndex(t: Tables): (r: Tables)
    ensures r.fts.Some?
    ensures r.nodes == t.nodes && r.edges == t.edges
    ensures r.hyperedges == t.hyperedges && r.participants == t.participants
  {
    var index := t.fts.GetOr(map[]);
    t.(fts := Some(if |index| == 0 then IndexOf(t.nodes) else index))
  }

  /**
   * The backfill happens exactly when the index is missing or empty, and then
   * produces what the writer's full rebuild produces; a non-empty index is
   * left as it is, even when it is stale.
   */
  lemma EnsuredIndexBackfillsOnlyEmpty(t: Tables)
    ensures t.fts.Some? && |t.fts.value| > 0 ==> EnsuredIndex(t) == t
    ensures t.fts.None? || |t.fts.value| == 0 ==> EnsuredIndex(t) == Writer.RebuildIndex(t)
  {
  }

  /** A database the writer maintains stays consistent; running it twice is running it once. */
  lemma EnsuredIndexKeepsIntegrity(t: Tables)
    ensures Integrity(t) ==> Integrity(EnsuredIndex(t))
    ensures EnsuredIndex(EnsuredIndex(t)) == EnsuredIndex(t)
  {
    var index := t.fts.GetOr(map[]);
    if |index| == 0 && |t.nodes| > 0 {
      var id :| id in t.nodes;
      assert id in IndexOf(t.nodes);
    }
  }

  /**
   * `_ensure_fts`: when the FTS5 module is missing the first statement fails
   * and nothing changes; otherwise it creates what is missing, backfills an
   * empty index, and commits.
   */
  method EnsureFts(db: Database, available: bool) returns (ok: bool)
    modifies db
    ensures ok == available
    ensures db.tables == if available then EnsuredIndex(old(db.tables)) else old(db.tables)
  {
    if !available {
      return false;
    }
    var index := db.tables.fts.GetOr(map[]);
    var count := |index|;
    if count == 0 {
      index := IndexOf(db.tables.nodes);
    }
    db.tables := db.tables.(fts := Some(index));
    ok := true;
  }

  // ---------------------------------------------------------------------
  // Seeds
  // ---------------------------------------------------------------------

  /** Whether node `id` answers the term, by index match or by the LIKE fallback. */
  predicate IsHit(t: Tables, e: Engine, useIndex: bool, term: string, id: NodeId) {
    if useIndex then
      t.fts.Some? && id in t.fts.value && id in t.nodes && e.matches(term, id, t.fts.value[id])
    else
      id in t.nodes &&
      (Like(e.serialize(t.nodes[id].data), ContainsPattern(term)) || Like(t.nodes[id].kind, ContainsPattern(term)))
  }

  /** The order in which the seed query meets candidate nodes. */
  function ScanOrder(e: Engine, useIndex: bool): seq<NodeId> {
    if useIndex then e.ftsOrder else e.nodeOrder
  }

  /**
   * The seed ids: the hits in scan order, at most `limit` of them when the
   * limit is positive, and all hits in scan order when the limit does not cut.
   */
  function SeedIds(t: Tables, e: Engine, useIndex: bool, term: string, limit: int): (ids: seq<NodeId>)
    ensures forall id | id in ids :: id in t.nodes && IsHit(t, e, useIndex, term, id)
    ensures limit >= 0 ==> |ids| <= limit
    ensures limit < 0 || |ids| < limit ==>
      forall id | id in ScanOrder(e, useIndex) && IsHit(t, e, useIndex, term, id) :: id in ids
    ensures Distinct(ScanOrder(e, useIndex)) ==> Distinct(ids)
  {
    var hits := Filter(ScanOrder(e, useIndex), id => IsHit(t, e, useIndex, term, id));
    var ids := Limit(hits, limit);
    assert forall id | id in ids :: id in hits by {
      forall id | id in ids ensures id in hits {
        var i :| 0 <= i < |ids| && ids[i] == id;
        assert hits[i] == id;
      }
    }
    ids
  }

  function NodeOf(t: Tables, id: NodeId): Node
    requires id in t.nodes
  {
    Node(id, t.nodes[id].kind, t.nodes[id].data)
  }

  function NodesOf(t: Tables, ids: seq<NodeId>): (ns: seq<Node>)
    requires forall id | id in ids :: id in t.nodes
    ensures |ns| == |ids| && forall i | 0 <= i < |ns| :: ns[i] == NodeOf(t, ids[i])
  {
    seq(|ids|, i requires 0 <= i < |ids| => NodeOf(t, ids[i]))
  }

  function AsSet<T(!new)>(xs: seq<T>): (s: set<T>)
    ensures forall x :: x in s <==> x in xs
  {
    set x | x in xs
  }

  function Ids(ns: seq<Node>): (ids: seq<NodeId>)
    ensures |ids| == |ns| && forall i | 0 <= i < |ns| :: ids[i] == ns[i].id
  {
    seq(|ns|, i requires 0 <= i < |ns| => ns[i].id)
  }

  // ---------------------------------------------------------------------
  // Neighbour edges and nodes
  // ---------------------------------------------------------------------

  predicate TouchesSeed(t: Tables, id: EdgeId, seeds: set<NodeId>) {
    id in t.edges && (t.edges[id].source in seeds || t.edges[id].target in seeds)
  }

  /**
   * The edges with an endpoint among the seeds, in scan order, at most
   * `budget` of them when the budget is positive.
   */
  function NeighborEdgeIds(t: Tables, e: Engine, seeds: set<NodeId>, budget: int): (ids: seq<EdgeId>)
    ensures forall id | id in ids :: TouchesSeed(t, id, seeds)
    ensures budget >= 0 ==> |ids| <= budget
    ensures budget < 0 || |ids| < budget ==>
      forall id | id in e.edgeOrder && TouchesSeed(t, id, seeds) :: id in ids
    ensures Distinct(e.edgeOrder) ==> Distinct(ids)
  {
    var touching := Filter(e.edgeOrder, id => TouchesSeed(t, id, seeds));
    var ids := Limit(touching, budget);
    assert forall id | id in ids :: id in touching by {
      forall id | id in ids ensures id in touching {
        var i :| 0 <= i < |ids| && ids[i] == id;
        assert touching[i] == id;
      }
    }
    ids
  }

  function EdgeOf(t: Tables, id: EdgeId): Edge
    requires id in t.edges
  {
    var row := t.edges[id];
    Edge(id, row.kind, row.source, row.target, row.data)
  }

  function EdgesOf(t: Tables, ids: seq<EdgeId>): (es: seq<Edge>)
    requires forall id | id in ids :: id in t.edges
    ensures |es| == |ids| && forall i | 0 <= i < |es| :: es[i] == EdgeOf(t, ids[i])
  {
    seq(|ids|, i requires 0 <= i < |ids| => EdgeOf(t, ids[i]))
  }

  /** Every source and target of the edges. */
  function Endpoints(es: seq<Edge>): (ends: set<NodeId>)
    ensures forall i | 0 <= i < |es| :: es[i].source in ends && es[i].target in ends
    decreases |es|
  {
    if es == [] then {}
    else
      var init := es[..|es| - 1];
      var ends := Endpoints(init) + {es[|es| - 1].source, es[|es| - 1].target};
      assert forall i | 0 <= i < |init| :: init[i] == es[i];
      ends
  }

  /** The ids of `ids` that have a node row, in the scan order `order`. */
  function StoredAmong(t: Tables, order: seq<NodeId>, ids: set<NodeId>): (r: seq<NodeId>)
    ensures forall id :: id in r <==> id in order && id in t.nodes && id in ids
    ensures Distinct(order) ==> Distinct(r)
  {
    Filter(order, id => id in t.nodes && id in ids)
  }

  /** The stored nodes at the far end of the edges that are not seeds, in scan order. */
  function NeighborIds(t: Tables, e: Engine, seeds: set<NodeId>, es: seq<Edge>): (ids: seq<NodeId>)
    ensures forall id | id in ids :: id in t.nodes && id in Endpoints(es) && id !in seeds
    ensures Enumerates(e.nodeOrder, t.nodes.Keys) ==>
      forall id | id in t.nodes && id in Endpoints(es) && id !in seeds :: id in ids
    ensures Distinct(e.nodeOrder) ==> Distinct(ids)
  {
    StoredAmong(t, e.nodeOrder, Endpoints(es) - seeds)
  }

  // ---------------------------------------------------------------------
  // The whole query
  // ---------------------------------------------------------------------

  /** The scan orders are scans of these tables. */
  ghost predicate ScansFit(e: Engine, t: Tables) {
    && Enumerates(e.nodeOrder, t.nodes.Keys)
    && Enumerates(e.edgeOrder, t.edges.Keys)
    && (t.fts.Some? ==> Enumerates(e.ftsOrder, t.fts.value.Keys))
  }

  function Seeds(t: Tables, e: Engine, useIndex: bool, opts: QueryOpts): seq<NodeId> {
    SeedIds(t, e, useIndex, EffectiveTerm(opts), EffectiveLimit(opts))
  }

  /** Neighbours are expanded only when asked to, with a non-zero budget, and from at least one seed. */
  predicate Expands(t: Tables, e: Engine, useIndex: bool, opts: QueryOpts) {
    opts.expandNeighbors && opts.neighborBudget != 0 && Seeds(t, e, useIndex, opts) != []
  }

  function AnswerEdges(t: Tables, e: Engine, useIndex: bool, opts: QueryOpts): seq<Edge> {
    if Expands(t, e, useIndex, opts) then
      var seeds := Seeds(t, e, useIndex, opts);
      EdgesOf(t, NeighborEdgeIds(t, e, AsSet(seeds), opts.neighborBudget))
    else []
  }

  /** What `run_query` returns once it has settled on the index or the fallback. */
  function Answer(t: Tables, e: Engine, useIndex: bool, opts: QueryOpts): QueryResult {
    var seeds := Seeds(t, e, useIndex, opts);
    var edges := AnswerEdges(t, e, useIndex, opts);
    var neighbors := if Expands(t, e, useIndex, opts) then NeighborIds(t, e, AsSet(seeds), edges) else [];
    QueryResult(NodesOf(t, seeds) + NodesOf(t, neighbors), edges)
  }

  /**
   * The seeds come first, as found, at most `limit` of them when the limit is
   * positive; a node that answers the term is missing only when the limit cut
   * the list short.
   */
  lemma AnswerSeeds(t: Tables, e: Engine, useIndex: bool, opts: QueryOpts)
    ensures var seeds := Seeds(t, e, useIndex, opts); var nodes := Answer(t, e, useIndex, opts).nodes;
      && |seeds| <= |nodes| && Ids(nodes)[..|seeds|] == seeds
      && (EffectiveLimit(opts) > 0 ==> |seeds| <= EffectiveLimit(opts))
      && (forall id | id in seeds :: IsHit(t, e, useIndex, EffectiveTerm(opts), id))
  {
  }

  /**
   * Edges are returned only when expansion was asked for with a non-zero
   * budget and some seed was found; each has an endpoint among the seeds and
   * is the stored edge; a positive budget bounds their number.
   */
  lemma AnswerEdgesTouchSeeds(t: Tables, e: Engine, useIndex: bool, opts: QueryOpts)
    ensures var edges := Answer(t, e, useIndex, opts).edges; var seeds := Seeds(t, e, useIndex, opts);
      && (edges != [] ==> opts.expandNeighbors && opts.neighborBudget != 0 && seeds != [])
      && (forall i | 0 <= i < |edges| :: edges[i].id in t.edges && edges[i] == EdgeOf(t, edges[i].id)
            && (edges[i].source in seeds || edges[i].target in seeds))
      && (opts.neighborBudget > 0 ==> |edges| <= opts.neighborBudget)
  {
    if Expands(t, e, useIndex, opts) {
      var seeds := Seeds(t, e, useIndex, opts);
      var ids := NeighborEdgeIds(t, e, AsSet(seeds), opts.neighborBudget);
      assert forall i | 0 <= i < |ids| :: ids[i] in ids;
    }
  }

  /**
   * After the seeds come the stored nodes at the far end of the returned edges
   * that are not seeds, each exactly once; endpoints without a node row are
   * skipped; no node appears twice in the answer.
   */
  lemma AnswerNeighbors(t: Tables, e: Engine, useIndex: bool, opts: QueryOpts)
    requires ScansFit(e, t)
    ensures var a := Answer(t, e, useIndex, opts); var seeds := Seeds(t, e, useIndex, opts);
      forall id :: id in Ids(a.nodes)[|seeds|..] <==> id in t.nodes && id in Endpoints(a.edges) && id !in seeds
  {
    var seeds := Seeds(t, e, useIndex, opts);
    var neighbors := AnswerShape(t, e, useIndex, opts);
    if !Expands(t, e, useIndex, opts) {
      assert Answer(t, e, useIndex, opts).edges == [];
    }
  }

  /** No node appears twice in the answer. */
  lemma AnswerDistinct(t: Tables, e: Engine, useIndex: bool, opts: QueryOpts)
    requires ScansFit(e, t)
    ensures Distinct(Ids(Answer(t, e, useIndex, opts).nodes))
  {
    var seeds := Seeds(t, e, useIndex, opts);
    var neighbors := AnswerShape(t, e, useIndex, opts);
    SeedsDistinct(t, e, useIndex, opts);
    DistinctConcat(seeds, neighbors);
  }

  /** The answer's node ids are the seeds followed by the neighbours. */
  lemma AnswerShape(t: Tables, e: Engine, useIndex: bool, opts: QueryOpts) returns (neighbors: seq<NodeId>)
    ensures var seeds := Seeds(t, e, useIndex, opts); var a := Answer(t, e, useIndex, opts);
      && neighbors == (if Expands(t, e, useIndex, opts) then NeighborIds(t, e, AsSet(seeds), a.edges) else [])
      && Ids(a.nodes) == seeds + neighbors
      && Ids(a.nodes)[|seeds|..] == neighbors
  {
    var a := Answer(t, e, useIndex, opts);
    var seeds := Seeds(t, e, useIndex, opts);
    neighbors := if Expands(t, e, useIndex, opts) then NeighborIds(t, e, AsSet(seeds), a.edges) else [];
    var front, back := NodesOf(t, seeds), NodesOf(t, neighbors);
    assert a.nodes == front + back;
    IdsOfNodesOf(t, seeds);
    IdsOfNodesOf(t, neighbors);
    IdsConcat(front, back);
  }

  lemma IdsConcat(xs: seq<Node>, ys: seq<Node>)
    ensures Ids(xs + ys) == Ids(xs) + Ids(ys)
  {
  }

  lemma SeedsDistinct(t: Tables, e: Engine, useIndex: bool, opts: QueryOpts)
    requires ScansFit(e, t)
    ensures Distinct(Seeds(t, e, useIndex, opts))
  {
    var seeds := Seeds(t, e, useIndex, opts);
    if useIndex && t.fts.None? && seeds != [] {
      assert seeds[0] in seeds;
    }
  }

  lemma IdsOfNodesOf(t: Tables, ids: seq<NodeId>)
    requires forall id | id in ids :: id in t.nodes
    ensures Ids(NodesOf(t, ids)) == ids
  {
  }

  lemma DistinctConcat<T>(xs: seq<T>, ys: seq<T>)
    requires Distinct(xs) && Distinct(ys)
    requires forall y | y in ys :: y !in xs
    ensures Distinct(xs + ys)
  {
    forall i, j | 0 <= i < j < |xs + ys| ensures (xs + ys)[i] != (xs + ys)[j] {
      if i < |xs| && j >= |xs| {
        assert ys[j - |xs|] in ys;
      }
    }
  }

  /**
   * Fallback search, for a term without LIKE wildcards and a limit that does
   * not cut: a node is a seed exactly when its serialised data or its type
   * contains the term, ASCII case ignored.
   */
  lemma FallbackSeedsContainTerm(t: Tables, e: Engine, opts: QueryOpts, id: NodeId)
    requires ScansFit(e, t)
    requires NoWildcards(EffectiveTerm(opts))
    requires EffectiveLimit(opts) < 0 || |Seeds(t, e, false, opts)| < EffectiveLimit(opts)
    ensures id in Seeds(t, e, false, opts) <==>
      id in t.nodes &&
      ((exists i :: OccursFoldedAt(e.serialize(t.nodes[id].data), EffectiveTerm(opts), i)) ||
       (exists i :: OccursFoldedAt(t.nodes[id].kind, EffectiveTerm(opts), i)))
  {
    if id in t.nodes {
      LikeContains(e.serialize(t.nodes[id].data), EffectiveTerm(opts));
      LikeContains(t.nodes[id].kind, EffectiveTerm(opts));
    }
  }

  /**
   * The seed, edge and neighbour steps of `run_query` over tables the query
   * connection sees, once it is settled whether the index is used.
   */
  method Retrieve(t: Tables, e: Engine, useIndex: bool, opts: QueryOpts) returns (res: QueryResult)
    ensures res == Answer(t, e, useIndex, opts)
  {
    var seeds := Seeds(t, e, useIndex, opts);
    var nodes := NodesOf(t, seeds);
    var edges: seq<Edge> := [];
    if opts.expandNeighbors && opts.neighborBudget != 0 && |nodes| > 0 {
      var seedSet := AsSet(seeds);
      edges := EdgesOf(t, NeighborEdgeIds(t, e, seedSet, opts.neighborBudget));
      var neighborIds := CollectNeighborIds(edges, seedSet);
      if neighborIds != {} {
        nodes := AppendStoredNodes(t, e.nodeOrder, neighborIds, nodes);
      } else {
        FilterNone(e.nodeOrder, id => id in t.nodes && id in neighborIds);
      }
    }
    res := QueryResult(nodes, edges);
  }

  /** The loop over the returned edges that gathers the endpoints which are not seeds. */
  method CollectNeighborIds(edges: seq<Edge>, seeds: set<NodeId>) returns (ids: set<NodeId>)
    ensures ids == Endpoints(edges) - seeds
  {
    ids := {};
    var i := 0;
    while i < |edges|
      invariant 0 <= i <= |edges|
      invariant ids == Endpoints(edges[..i]) - seeds
    {
      assert edges[..i + 1][..i] == edges[..i];
      if edges[i].source !in seeds {
        ids := ids + {edges[i].source};
      }
      if edges[i].target !in seeds {
        ids := ids + {edges[i].target};
      }
      i := i + 1;
    }
    assert edges[..|edges|] == edges;
  }

  /**
   * `SELECT ... FROM nodes WHERE id IN (...)` read in scan order, each row
   * appended to `nodes`; ids without a node row yield nothing.
   */
  method AppendStoredNodes(t: Tables, order: seq<NodeId>, ids: set<NodeId>, nodes: seq<Node>) returns (out: seq<Node>)
    ensures out == nodes + NodesOf(t, StoredAmong(t, order, ids))
  {
    out := nodes;
    var j := 0;
    assert order[..0] == [];
    while j < |order|
      invariant 0 <= j <= |order|
      invariant AppendedUpTo(t, order, ids, j, nodes, out)
    {
      var id := order[j];
      AppendedStep(t, order, ids, j, nodes, out);
      if id in t.nodes && id in ids {
        out := out + [NodeOf(t, id)];
      }
      j := j + 1;
    }
    assert order[..|order|] == order;
  }

  /** `out` is `nodes` followed by the stored rows among the first `j` ids of the scan. */
  ghost predicate AppendedUpTo(t: Tables, order: seq<NodeId>, ids: set<NodeId>, j: int, nodes: seq<Node>, out: seq<Node>)
    requires 0 <= j <= |order|
  {
    out == nodes + NodesOf(t, StoredAmong(t, order[..j], ids))
  }

  /** Scanning one more id appends its row exactly when it is stored and asked for. */
  lemma AppendedStep(t: Tables, order: seq<NodeId>, ids: set<NodeId>, j: int, nodes: seq<Node>, out: seq<Node>)
    requires 0 <= j < |order| && AppendedUpTo(t, order, ids, j, nodes, out)
    ensures order[j] in t.nodes && order[j] in ids ==> AppendedUpTo(t, order, ids, j + 1, nodes, out + [NodeOf(t, order[j])])
    ensures !(order[j] in t.nodes && order[j] in ids) ==> AppendedUpTo(t, order, ids, j + 1, nodes, out)
  {
    var before := StoredAmong(t, order[..j], ids);
    StoredAmongSnoc(t, order, ids, j);
    if order[j] in t.nodes && order[j] in ids {
      NodesOfSnoc(t, before, order[j]);
    }
  }

  /** Scanning one more row of `order`. */
  lemma StoredAmongSnoc(t: Tables, order: seq<NodeId>, ids: set<NodeId>, j: int)
    requires 0 <= j < |order|
    ensures StoredAmong(t, order[..j + 1], ids) ==
      StoredAmong(t, order[..j], ids) + (if order[j] in t.nodes && order[j] in ids then [order[j]] else [])
  {
    FilterSnoc(order[..j], order[j], id => id in t.nodes && id in ids);
    assert order[..j + 1] == order[..j] + [order[j]];
  }

  lemma NodesOfSnoc(t: Tables, ids: seq<NodeId>, id: NodeId)
    requires forall x | x in ids :: x in t.nodes
    requires id in t.nodes
    ensures NodesOf(t, ids + [id]) == NodesOf(t, ids) + [NodeOf(t, id)]
  {
  }

  /** Nothing passes a filter that accepts no element. */
  lemma {:induction false} FilterNone<T(!new)>(xs: seq<T>, keep: T -> bool)
    requires forall i | 0 <= i < |xs| :: !keep(xs[i])
    ensures Filter(xs, keep) == []
    decreases |xs|
  {
    if xs != [] {
      FilterNone(xs[1..], keep);
    }
  }

  /** Filtering one more element at the end. */
  lemma {:induction false} FilterSnoc<T(!new)>(xs: seq<T>, x: T, keep: T -> bool)
    ensures Filter(xs + [x], keep) == Filter(xs, keep) + (if keep(x) then [x] else [])
    decreases |xs|
  {
    if xs != [] {
      assert (xs + [x])[1..] == xs[1..] + [x];
      FilterSnoc(xs[1..], x, keep);
    } else {
      assert [x][1..] == [];
    }
  }

  /**
   * `run_query`: try to set up the text index and query it; on a database
   * error (no FTS5, or a term `MATCH` rejects) fall back to the LIKE scan.
   */
  method RunQuery(db: Database, e: Engine, opts: QueryOpts) returns (res: QueryResult)
    modifies db
    ensures db.tables == if e.ftsAvailable then EnsuredIndex(old(db.tables)) else old(db.tables)
    ensures res == Answer(db.tables, e, UsesIndex(e, opts), opts)
  {
    var ok := EnsureFts(db, e.ftsAvailable);
    var useIndex := ok && e.parses(EffectiveTerm(opts));
    res := Retrieve(db.tables, e, useIndex, opts);
  }

  // ---------------------------------------------------------------------
  // The two-person example
  // ---------------------------------------------------------------------

  /** Nodes n1 (Alice) and n2 (Bob), both persons, and an edge e1 from n1 to n2. */
  function People(): Tables {
    Tables(
      map["n1" := NodeRow("Person", map["name" := Str("Alice")]),
          "n2" := NodeRow("Person", map["name" := Str("Bob")])],
      map["e1" := EdgeRow("Knows", "n1", "n2", map["since" := Other("2020")])],
      map[], map[], None)
  }

  /** With the index built from `People`, "Alice" picks n1 as a seed. */
  lemma AliceIsSeed(e: Engine, opts: QueryOpts)
    requires e.matches("Alice", "n1", "Alice  Person") && e.ftsOrder == ["n1", "n2"]
    requires opts.term == Some("Alice") && opts.limit == Some(10)
    ensures "n1" in Seeds(EnsuredIndex(People()), e, true, opts)
  {
    var t := EnsuredIndex(People());
    assert IndexContent(t.nodes["n1"]) == "Alice  Person";
    assert IsHit(t, e, true, "Alice", "n1");
  }

  lemma AliceAnswer(e: Engine, opts: QueryOpts)
    requires e.matches("Alice", "n1", "Alice  Person")
    requires e.ftsOrder == ["n1", "n2"] && e.nodeOrder == ["n1", "n2"] && e.edgeOrder == ["e1"]
    requires opts == QueryOpts(Some("Alice"), Some(10), true, 10)
    ensures var a := Answer(EnsuredIndex(People()), e, true, opts);
      && "n1" in Ids(a.nodes) && "n2" in Ids(a.nodes)
      && Edge("e1", "Knows", "n1", "n2", map["since" := Other("2020")]) in a.edges
  {
    var t := EnsuredIndex(People());
    var seeds := Seeds(t, e, true, opts);
    var a := Answer(t, e, true, opts);
    AliceIsSeed(e, opts);
    AnswerSeeds(t, e, true, opts);
    assert Ids(a.nodes)[..|seeds|] == seeds;
    AliceEdge(e, opts);
    assert a.edges[0] in a.edges;
    AliceNeighbour(e, opts);
  }

  /** The edge from Alice to Bob touches the seed "n1", so it is the first edge returned. */
  lemma AliceEdge(e: Engine, opts: QueryOpts)
    requires e.matches("Alice", "n1", "Alice  Person")
    requires e.ftsOrder == ["n1", "n2"] && e.nodeOrder == ["n1", "n2"] && e.edgeOrder == ["e1"]
    requires opts == QueryOpts(Some("Alice"), Some(10), true, 10)
    ensures var edges := Answer(EnsuredIndex(People()), e, true, opts).edges;
      |edges| > 0 && edges[0] == Edge("e1", "Knows", "n1", "n2", map["since" := Other("2020")])
  {
    var t := EnsuredIndex(People());
    var seeds := Seeds(t, e, true, opts);
    var a := Answer(t, e, true, opts);
    AliceIsSeed(e, opts);
    assert TouchesSeed(t, "e1", AsSet(seeds));
    assert a.edges[0] == EdgeOf(t, "e1");
  }

  /** Two persons without a name or a description: their index contents are equal. */
  function Twins(): Tables {
    Tables(map["n1" := NodeRow("Person", map[]), "n2" := NodeRow("Person", map[])], map[], map[], map[], None)
  }

  /**
   * The index searches the `id` column as well as the content: when `MATCH`
   * finds a term only in the row whose id it names, that node alone is a seed,
   * although both rows hold the same content.
   */
  lemma IdColumnSearched(e: Engine, opts: QueryOpts)
    requires forall c :: e.matches("n1", "n1", c) && !e.matches("n1", "n2", c)
    requires e.ftsOrder == ["n1", "n2"]
    requires opts.term == Some("n1") && opts.limit == Some(10)
    ensures var t := EnsuredIndex(Twins()); t.fts.value["n1"] == t.fts.value["n2"]
    ensures Seeds(EnsuredIndex(Twins()), e, true, opts) == ["n1"]
  {
    var t := EnsuredIndex(Twins());
    assert IsHit(t, e, true, "n1", "n1");
    assert !IsHit(t, e, true, "n1", "n2");
    assert Filter(e.ftsOrder, id => IsHit(t, e, true, "n1", id)) == ["n1"];
  }

  /** The scan orders of the example are scans of its tables once the index is filled. */
  lemma PeopleScansFit(e: Engine)
    requires e.ftsOrder == ["n1", "n2"] && e.nodeOrder == ["n1", "n2"] && e.edgeOrder == ["e1"]
    ensures ScansFit(e, EnsuredIndex(People()))
  {
    var t := EnsuredIndex(People());
    assert t.nodes.Keys == {"n1", "n2"};
    assert t.edges.Keys == {"e1"};
    assert t.fts.value.Keys == t.nodes.Keys;
  }

  /** Bob is returned: either as a seed or as the neighbour across the edge. */
  lemma AliceNeighbour(e: Engine, opts: QueryOpts)
    requires e.matches("Alice", "n1", "Alice  Person")
    requires e.ftsOrder == ["n1", "n2"] && e.nodeOrder == ["n1", "n2"] && e.edgeOrder == ["e1"]
    requires opts == QueryOpts(Some("Alice"), Some(10), true, 10)
    ensures "n2" in Ids(Answer(EnsuredIndex(People()), e, true, opts).nodes)
  {
    var t := EnsuredIndex(People());
    var seeds := Seeds(t, e, true, opts);
    var a := Answer(t, e, true, opts);
    AnswerSeeds(t, e, true, opts);
    if "n2" !in seeds {
      AliceEdge(e, opts);
      assert "n2" in Endpoints(a.edges);
      PeopleScansFit(e);
      AnswerNeighbors(t, e, true, opts);
      var tail := Ids(a.nodes)[|seeds|..];
      assert "n2" in tail;
      var k :| 0 <= k < |tail| && tail[k] == "n2";
      assert Ids(a.nodes)[|seeds| + k] == "n2";
    }
  }

  /**
   * Querying "Alice" through the index with neighbour expansion returns both
   * people and the edge between them, whatever the index makes of "Bob".
   */
  method AliceWithNeighbors(e: Engine) returns (res: QueryResult)
    requires e.ftsAvailable && e.parses("Alice") && e.matches("Alice", "n1", "Alice  Person")
    requires e.ftsOrder == ["n1", "n2"] && e.nodeOrder == ["n1", "n2"] && e.edgeOrder == ["e1"]
    ensures "n1" in Ids(res.nodes) && "n2" in Ids(res.nodes)
    ensures Edge("e1", "Knows", "n1", "n2", map["since" := Other("2020")]) in res.edges
  {
    var db := new Database();
    db.tables := People();
    var opts := QueryOpts(Some("Alice"), Some(10), true, 10);
    res := RunQuery(db, e, opts);
    AliceAnswer(e, opts);
  }

  /** Without neighbour expansion no edge is returned, and the match is still found. */
  method AliceAlone(e: Engine) returns (res: QueryResult)
    requires e.ftsAvailable && e.parses("Alice") && e.matches("Alice", "n1", "Alice  Person")
    requires e.ftsOrder == ["n1", "n2"] && e.nodeOrder == ["n1", "n2"] && e.edgeOrder == ["e1"]
    ensures "n1" in Ids(res.nodes) && res.edges == []
  {
    var db := new Database();
    db.tables := People();
    var opts := QueryOpts(Some("Alice"), Some(10), false, 0);
    res := RunQuery(db, e, opts);
    var t := db.tables;
    var seeds := Seeds(t, e, true, opts);
    AliceIsSeed(e, opts);
    AnswerSeeds(t, e, true, opts);
    assert Ids(res.nodes)[..|seeds|] == seeds;
  }
}
