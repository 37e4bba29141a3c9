/**
 * The hypergraph writer: a session over the database file in which nodes,
 * edges and hyperedges are upserted, the text index is rebuilt, and which
 * commits on a normal exit and rolls back on an exception.
 *
 * Each SQL statement the writer issues is a function from tables to tables
 * (`PutNode`, `PutEdge`, ...); the class holds the connection's view of the
 * tables and applies those functions in the order the source does.
 */
module Writer {
  import opened Wrappers
  import opened Store
  import opened Dicts

  /**
   * `RuntimeError` (no open session), `sqlite3.IntegrityError` (a foreign key
   * fails) and `sqlite3.OperationalError` (the FTS5 module is missing).
   */
  datatype WriterError = NotInSession | IntegrityError | OperationalError

  /**
   * The tables after a batch, and whether it stopped at a failing row. The
   * rows applied before the failing one stay in the connection: a failed
   * statement only undoes itself.
   */
  datatype BatchResult = Done(tables: Tables) | Stopped(tables: Tables, error: WriterError)
  {
    function Outcome(): Result<(), WriterError> {
      match this
      case Done(_) => Ok(())
      case Stopped(_, e) => Err(e)
    }
  }

  // ---------------------------------------------------------------------
  // Nodes
  // ---------------------------------------------------------------------

  function NodeRowOf(n: Node): NodeRow {
    NodeRow(n.kind, n.data)
  }

  /**
   * `INSERT INTO nodes ... ON CONFLICT(id) DO UPDATE`: the node row is
   * inserted or fully replaced; once the index triggers exist, the insert
   * (or the update's delete-then-insert) sets the node's index entry.
   */
  function PutNode(t: Tables, n: Node): (r: Tables)
    ensures Integrity(t) ==> Integrity(r)
  {
    var row := NodeRowOf(n);
    IndexOfUpdate(t.nodes, n.id, row);
    t.(nodes := t.nodes[n.id := row],
       fts := if t.fts.Some? then Some(t.fts.value[n.id := IndexContent(row)]) else None)
  }

  /** The single node upsert is a full replace that leaves every other node alone. */
  lemma PutNodeReplaces(t: Tables, n: Node)
    ensures PutNode(t, n).nodes[n.id] == NodeRow(n.kind, n.data)
    ensures forall id | id != n.id :: (id in PutNode(t, n).nodes <==> id in t.nodes)
    ensures forall id | id != n.id && id in t.nodes :: PutNode(t, n).nodes[id] == t.nodes[id]
    ensures |PutNode(t, n).nodes| == if n.id in t.nodes then |t.nodes| else |t.nodes| + 1
    ensures PutNode(t, n).edges == t.edges && PutNode(t, n).hyperedges == t.hyperedges
    ensures PutNode(t, n).participants == t.participants
  {
  }

  /** Repeating an identical node upsert changes nothing. */
  lemma PutNodeIdempotent(t: Tables, n: Node)
    ensures PutNode(PutNode(t, n), n) == PutNode(t, n)
  {
    var once := PutNode(t, n);
    assert once.nodes[n.id := NodeRowOf(n)] == once.nodes;
    if t.fts.Some? {
      assert once.fts.value[n.id := IndexContent(NodeRowOf(n))] == once.fts.value;
    }
  }

  /** `executemany` of the node upsert: each node in turn. */
  function PutNodes(t: Tables, ns: seq<Node>): (r: Tables)
    ensures Integrity(t) ==> Integrity(r)
    decreases |ns|
  {
    if ns == [] then t else PutNode(PutNodes(t, ns[..|ns| - 1]), ns[|ns| - 1])
  }

  function NodePairs(ns: seq<Node>): (kvs: seq<(NodeId, NodeRow)>)
    ensures |kvs| == |ns|
  {
    seq(|ns|, i requires 0 <= i < |ns| => (ns[i].id, NodeRowOf(ns[i])))
  }

  function IndexPairs(ns: seq<Node>): (kvs: seq<(NodeId, string)>)
    ensures |kvs| == |ns|
  {
    seq(|ns|, i requires 0 <= i < |ns| => (ns[i].id, IndexContent(NodeRowOf(ns[i]))))
  }

  /**
   * A node batch assigns each node's row (and index entry) in order, so the
   * last node with an id wins (see `AssignLastWins`), and touches nothing else.
   */
  lemma {:induction false} PutNodesIsAssign(t: Tables, ns: seq<Node>)
    ensures PutNodes(t, ns).nodes == Assign(t.nodes, NodePairs(ns))
    ensures PutNodes(t, ns).fts == if t.fts.Some? then Some(Assign(t.fts.value, IndexPairs(ns))) else None
    ensures PutNodes(t, ns).edges == t.edges && PutNodes(t, ns).hyperedges == t.hyperedges
    ensures PutNodes(t, ns).participants == t.participants
    decreases |ns|
  {
    if ns != [] {
      var init, last := ns[..|ns| - 1], ns[|ns| - 1];
      PutNodesIsAssign(t, init);
      assert ns == init + [last];
      PutNodesSnoc(t, init, last);
    }
  }

  /** One more node assigns one more pair in the node table and in the index. */
  lemma PutNodesSnoc(t: Tables, init: seq<Node>, last: Node)
    requires PutNodes(t, init).nodes == Assign(t.nodes, NodePairs(init))
    requires PutNodes(t, init).fts == if t.fts.Some? then Some(Assign(t.fts.value, IndexPairs(init))) else None
    ensures PutNodes(t, init + [last]).nodes == Assign(t.nodes, NodePairs(init + [last]))
    ensures PutNodes(t, init + [last]).fts ==
      if t.fts.Some? then Some(Assign(t.fts.value, IndexPairs(init + [last]))) else None
  {
    var ns := init + [last];
    assert ns[..|ns| - 1] == init;
    assert NodePairs(ns)[..|ns| - 1] == NodePairs(init);
    assert IndexPairs(ns)[..|ns| - 1] == IndexPairs(init);
  }

  /**
   * An index kept by the triggers through any node batch equals the index a
   * full rebuild would produce.
   */
  lemma {:induction false} IncrementalIndexIsRebuild(t: Tables, ns: seq<Node>)
    requires IndexConsistent(t) && t.fts.Some?
    ensures PutNodes(t, ns).fts == Some(IndexOf(PutNodes(t, ns).nodes))
    decreases |ns|
  {
    if ns != [] {
      var prev := PutNodes(t, ns[..|ns| - 1]);
      IncrementalIndexIsRebuild(t, ns[..|ns| - 1]);
      IndexOfUpdate(prev.nodes, ns[|ns| - 1].id, NodeRowOf(ns[|ns| - 1]));
    }
  }

  // ---------------------------------------------------------------------
  // Edges
  // ---------------------------------------------------------------------

  function EdgeRowOf(e: Edge): EdgeRow {
    EdgeRow(e.kind, e.source, e.target, e.data)
  }

  /** The foreign keys of an edge: both endpoints are stored nodes. */
  predicate EndpointsExist(t: Tables, e: Edge) {
    e.source in t.nodes && e.target in t.nodes
  }

  /** `INSERT INTO edges ... ON CONFLICT(id) DO UPDATE`, refused when an endpoint is missing. */
  function PutEdge(t: Tables, e: Edge): (r: BatchResult)
    ensures Integrity(t) ==> Integrity(r.tables)
  {
    if EndpointsExist(t, e) then Done(t.(edges := t.edges[e.id := EdgeRowOf(e)]))
    else Stopped(t, IntegrityError)
  }

  /** `executemany` of the edge upsert: each edge in turn, up to the first failure. */
  function PutEdges(t: Tables, es: seq<Edge>): (r: BatchResult)
    ensures Integrity(t) ==> Integrity(r.tables)
    decreases |es|
  {
    if es == [] then Done(t)
    else
      var prev := PutEdges(t, es[..|es| - 1]);
      if prev.Stopped? then prev else PutEdge(prev.tables, es[|es| - 1])
  }

  function EdgePairs(es: seq<Edge>): (kvs: seq<(EdgeId, EdgeRow)>)
    ensures |kvs| == |es|
  {
    seq(|es|, i requires 0 <= i < |es| => (es[i].id, EdgeRowOf(es[i])))
  }

  /** The first edge of a batch with a missing endpoint, if any. */
  function FirstDangling(t: Tables, es: seq<Edge>): (k: Option<nat>)
    ensures k.Some? ==> k.value < |es| && !EndpointsExist(t, es[k.value])
    ensures k.Some? ==> forall j | 0 <= j < k.value :: EndpointsExist(t, es[j])
    ensures k.None? ==> forall j | 0 <= j < |es| :: EndpointsExist(t, es[j])
    decreases |es|
  {
    if es == [] then None
    else
      var prev := FirstDangling(t, es[..|es| - 1]);
      if prev.Some? then prev
      else if !EndpointsExist(t, es[|es| - 1]) then Some(|es| - 1)
      else None
  }

  /**
   * An edge batch fails exactly when some edge has a missing endpoint; the
   * edges before the first such edge stay applied, the rest are not; nodes,
   * hyperedges, participants and the index never change.
   */
  lemma {:induction false} PutEdgesIsAssign(t: Tables, es: seq<Edge>)
    ensures FirstDangling(t, es).None? ==>
      PutEdges(t, es) == Done(t.(edges := Assign(t.edges, EdgePairs(es))))
    ensures FirstDangling(t, es).Some? ==>
      PutEdges(t, es) == Stopped(t.(edges := Assign(t.edges, EdgePairs(es[..FirstDangling(t, es).value]))), IntegrityError)
    decreases |es|
  {
    if es != [] {
      var init := es[..|es| - 1];
      PutEdgesIsAssign(t, init);
      var last := es[|es| - 1];
      assert es == init + [last];
      if FirstDangling(t, init).Some? {
        EdgesStoppedBefore(t, init, last);
      } else if !EndpointsExist(t, last) {
        EdgesStopAtLast(t, init, last);
      } else {
        EdgesAllResolved(t, init, last);
      }
    }
  }

  /** A batch that stopped before its last edge stops at the same place with it. */
  lemma EdgesStoppedBefore(t: Tables, init: seq<Edge>, last: Edge)
    requires FirstDangling(t, init).Some?
    requires PutEdges(t, init) ==
      Stopped(t.(edges := Assign(t.edges, EdgePairs(init[..FirstDangling(t, init).value]))), IntegrityError)
    ensures FirstDangling(t, init + [last]) == FirstDangling(t, init)
    ensures var k := FirstDangling(t, init).value;
      PutEdges(t, init + [last]) == Stopped(t.(edges := Assign(t.edges, EdgePairs((init + [last])[..k]))), IntegrityError)
  {
    var es := init + [last];
    assert es[..|es| - 1] == init;
    var k := FirstDangling(t, init).value;
    assert init[..k] == es[..k];
  }

  /** A batch whose only dangling edge is its last one stops there. */
  lemma EdgesStopAtLast(t: Tables, init: seq<Edge>, last: Edge)
    requires FirstDangling(t, init).None? && !EndpointsExist(t, last)
    requires PutEdges(t, init) == Done(t.(edges := Assign(t.edges, EdgePairs(init))))
    ensures FirstDangling(t, init + [last]) == Some(|init|)
    ensures PutEdges(t, init + [last]) == Stopped(t.(edges := Assign(t.edges, EdgePairs(init))), IntegrityError)
  {
    var es := init + [last];
    assert es[..|es| - 1] == init;
  }

  /** A batch whose endpoints all exist assigns every edge. */
  lemma EdgesAllResolved(t: Tables, init: seq<Edge>, last: Edge)
    requires FirstDangling(t, init).None? && EndpointsExist(t, last)
    requires PutEdges(t, init) == Done(t.(edges := Assign(t.edges, EdgePairs(init))))
    ensures FirstDangling(t, init + [last]).None?
    ensures PutEdges(t, init + [last]) == Done(t.(edges := Assign(t.edges, EdgePairs(init + [last]))))
  {
    var es := init + [last];
    assert es[..|es| - 1] == init;
    EdgePairsSnoc(es);
  }

  lemma EdgePairsSnoc(es: seq<Edge>)
    requires es != []
    ensures EdgePairs(es) == EdgePairs(es[..|es| - 1]) + [(es[|es| - 1].id, EdgeRowOf(es[|es| - 1]))]
  {
  }

  /** A self-loop on a stored node satisfies both foreign keys. */
  lemma SelfLoopAccepted(t: Tables, e: Edge)
    requires e.source == e.target && e.source in t.nodes
    ensures PutEdge(t, e).Done? && PutEdge(t, e).tables.edges[e.id] == EdgeRowOf(e)
  {
  }

  /** Repeating an accepted edge upsert changes nothing. */
  lemma PutEdgeIdempotent(t: Tables, e: Edge)
    requires PutEdge(t, e).Done?
    ensures PutEdge(PutEdge(t, e).tables, e) == PutEdge(t, e)
  {
  }

  // ---------------------------------------------------------------------
  // Hyperedges and their participants
  // ---------------------------------------------------------------------

  /** The participant's primary key, with `role or ""` and `ordinal or 0`. */
  function ParticipantKeyOf(hid: HyperedgeId, p: Participant): ParticipantKey {
    ParticipantKey(hid, p.entityId, p.role.GetOr(""), p.ordinal.GetOr(0))
  }

  /** The participant's stored data, with `data or {}`. */
  function ParticipantDataOf(p: Participant): Data {
    p.data.GetOr(map[])
  }

  /** The foreign keys of a participant row: its hyperedge and its entity are stored. */
  predicate ParticipantRefsExist(t: Tables, hid: HyperedgeId, p: Participant) {
    hid in t.hyperedges && p.entityId in t.nodes
  }

  /** One participant row: insert, or on the same 4-part key replace only `data`. */
  function PutParticipant(t: Tables, hid: HyperedgeId, p: Participant): (r: BatchResult)
    ensures Integrity(t) ==> Integrity(r.tables)
  {
    if ParticipantRefsExist(t, hid, p) then
      Done(t.(participants := t.participants[ParticipantKeyOf(hid, p) := ParticipantDataOf(p)]))
    else Stopped(t, IntegrityError)
  }

  /** `executemany` of the participant upsert, up to the first failure. */
  function PutParticipants(t: Tables, hid: HyperedgeId, ps: seq<Participant>): (r: BatchResult)
    ensures Integrity(t) ==> Integrity(r.tables)
    decreases |ps|
  {
    if ps == [] then Done(t)
    else
      var prev := PutParticipants(t, hid, ps[..|ps| - 1]);
      if prev.Stopped? then prev else PutParticipant(prev.tables, hid, ps[|ps| - 1])
  }

  function ParticipantPairs(hid: HyperedgeId, ps: seq<Participant>): (kvs: seq<(ParticipantKey, Data)>)
    ensures |kvs| == |ps|
  {
    seq(|ps|, i requires 0 <= i < |ps| => (ParticipantKeyOf(hid, ps[i]), ParticipantDataOf(ps[i])))
  }

  /** The first participant whose entity (or hyperedge) is not stored, if any. */
  function FirstUnresolved(t: Tables, hid: HyperedgeId, ps: seq<Participant>): (k: Option<nat>)
    ensures k.Some? ==> k.value < |ps| && !ParticipantRefsExist(t, hid, ps[k.value])
    ensures k.Some? ==> forall j | 0 <= j < k.value :: ParticipantRefsExist(t, hid, ps[j])
    ensures k.None? ==> forall j | 0 <= j < |ps| :: ParticipantRefsExist(t, hid, ps[j])
    decreases |ps|
  {
    if ps == [] then None
    else
      var prev := FirstUnresolved(t, hid, ps[..|ps| - 1]);
      if prev.Some? then prev
      else if !ParticipantRefsExist(t, hid, ps[|ps| - 1]) then Some(|ps| - 1)
      else None
  }

  /**
   * A participant batch assigns `data` per 4-part key, last occurrence
   * winning, up to the first participant whose references are missing; it
   * never removes a participant and touches no other table.
   */
  lemma {:induction false} PutParticipantsIsAssign(t: Tables, hid: HyperedgeId, ps: seq<Participant>)
    ensures FirstUnresolved(t, hid, ps).None? ==>
      PutParticipants(t, hid, ps) == Done(t.(participants := Assign(t.participants, ParticipantPairs(hid, ps))))
    ensures FirstUnresolved(t, hid, ps).Some? ==>
      PutParticipants(t, hid, ps) ==
        Stopped(t.(participants := Assign(t.participants, ParticipantPairs(hid, ps[..FirstUnresolved(t, hid, ps).value]))), IntegrityError)
    decreases |ps|
  {
    if ps != [] {
      var init := ps[..|ps| - 1];
      PutParticipantsIsAssign(t, hid, init);
      var k := FirstUnresolved(t, hid, init);
      if k.Some? {
        ParticipantsStoppedBefore(t, hid, ps);
      } else if !ParticipantRefsExist(t, hid, ps[|ps| - 1]) {
        ParticipantsStopAtLast(t, hid, ps);
      } else {
        ParticipantsAllResolved(t, hid, ps);
      }
    }
  }

  /** A batch that stopped before its last participant stops at the same place with it. */
  lemma ParticipantsStoppedBefore(t: Tables, hid: HyperedgeId, ps: seq<Participant>)
    requires ps != [] && FirstUnresolved(t, hid, ps[..|ps| - 1]).Some?
    requires var k := FirstUnresolved(t, hid, ps[..|ps| - 1]).value;
      PutParticipants(t, hid, ps[..|ps| - 1]) ==
        Stopped(t.(participants := Assign(t.participants, ParticipantPairs(hid, ps[..|ps| - 1][..k]))), IntegrityError)
    ensures FirstUnresolved(t, hid, ps) == FirstUnresolved(t, hid, ps[..|ps| - 1])
    ensures var k := FirstUnresolved(t, hid, ps).value;
      PutParticipants(t, hid, ps) ==
        Stopped(t.(participants := Assign(t.participants, ParticipantPairs(hid, ps[..k]))), IntegrityError)
  {
    var init := ps[..|ps| - 1];
    var k := FirstUnresolved(t, hid, init).value;
    assert init[..k] == ps[..k];
  }

  /** A batch whose only missing reference is its last participant stops there. */
  lemma ParticipantsStopAtLast(t: Tables, hid: HyperedgeId, ps: seq<Participant>)
    requires ps != [] && FirstUnresolved(t, hid, ps[..|ps| - 1]).None?
    requires !ParticipantRefsExist(t, hid, ps[|ps| - 1])
    requires PutParticipants(t, hid, ps[..|ps| - 1]) ==
      Done(t.(participants := Assign(t.participants, ParticipantPairs(hid, ps[..|ps| - 1]))))
    ensures FirstUnresolved(t, hid, ps) == Some(|ps| - 1)
    ensures PutParticipants(t, hid, ps) ==
      Stopped(t.(participants := Assign(t.participants, ParticipantPairs(hid, ps[..|ps| - 1]))), IntegrityError)
  {
  }

  /** A batch whose references all exist assigns every participant. */
  lemma ParticipantsAllResolved(t: Tables, hid: HyperedgeId, ps: seq<Participant>)
    requires ps != [] && FirstUnresolved(t, hid, ps[..|ps| - 1]).None?
    requires ParticipantRefsExist(t, hid, ps[|ps| - 1])
    requires PutParticipants(t, hid, ps[..|ps| - 1]) ==
      Done(t.(participants := Assign(t.participants, ParticipantPairs(hid, ps[..|ps| - 1]))))
    ensures FirstUnresolved(t, hid, ps).None?
    ensures PutParticipants(t, hid, ps) == Done(t.(participants := Assign(t.participants, ParticipantPairs(hid, ps))))
  {
    var n := |ps| - 1;
    var pairs := ParticipantPairs(hid, ps);
    assert pairs[..n] == ParticipantPairs(hid, ps[..n]);
    assert pairs[n] == (ParticipantKeyOf(hid, ps[n]), ParticipantDataOf(ps[n]));
    var before := Assign(t.participants, pairs[..n]);
    assert Assign(t.participants, pairs) == before[pairs[n].0 := pairs[n].1];
    assert PutParticipant(t.(participants := before), hid, ps[n]) == Done(t.(participants := before[pairs[n].0 := pairs[n].1]));
  }

  /**
   * `upsert_hyperedge`: the hyperedge row is inserted or replaced first, so
   * its participants can refer to it, then the participants are upserted.
   */
  function PutHyperedge(t: Tables, h: Hyperedge): (r: BatchResult)
    ensures Integrity(t) ==> Integrity(r.tables)
  {
    var withRow := t.(hyperedges := t.hyperedges[h.id := HyperedgeRow(h.kind, h.data)]);
    if h.participants == [] then Done(withRow)
    else PutParticipants(withRow, h.id, h.participants)
  }

  /**
   * Re-upserting a hyperedge whose participants all resolve keeps every
   * participant row already stored: rows with a key the new list does not
   * mention are untouched, and each key of the new list carries the data of
   * its last occurrence.
   */
  lemma HyperedgeParticipantsAdditive(t: Tables, h: Hyperedge)
    requires forall p | p in h.participants :: p.entityId in t.nodes
    ensures PutHyperedge(t, h).Done?
    ensures var after := PutHyperedge(t, h).tables.participants;
      && t.participants.Keys <= after.Keys
      && (forall i | 0 <= i < |h.participants| :: ParticipantKeyOf(h.id, h.participants[i]) in after)
      && (forall k | k in t.participants && (forall p | p in h.participants :: ParticipantKeyOf(h.id, p) != k) :: after[k] == t.participants[k])
      && (forall i | 0 <= i < |h.participants| && (forall j | i < j < |h.participants| :: ParticipantKeyOf(h.id, h.participants[j]) != ParticipantKeyOf(h.id, h.participants[i])) ::
            after[ParticipantKeyOf(h.id, h.participants[i])] == ParticipantDataOf(h.participants[i]))
  {
    HyperedgeAssigns(t, h);
    ParticipantBatchFacts(t.participants, h.id, h.participants);
  }

  /** `AssignLastWins` for a participant batch, stated per participant. */
  lemma ParticipantBatchFacts(m: map<ParticipantKey, Data>, hid: HyperedgeId, ps: seq<Participant>)
    ensures var after := Assign(m, ParticipantPairs(hid, ps));
      && m.Keys <= after.Keys
      && (forall i | 0 <= i < |ps| :: ParticipantKeyOf(hid, ps[i]) in after)
      && (forall k | k in m && (forall p | p in ps :: ParticipantKeyOf(hid, p) != k) :: after[k] == m[k])
      && (forall i | 0 <= i < |ps| && (forall j | i < j < |ps| :: ParticipantKeyOf(hid, ps[j]) != ParticipantKeyOf(hid, ps[i])) ::
            after[ParticipantKeyOf(hid, ps[i])] == ParticipantDataOf(ps[i]))
  {
    var kvs := ParticipantPairs(hid, ps);
    AssignLastWins(m, kvs);
    forall i | 0 <= i < |ps| && (forall j | i < j < |ps| :: ParticipantKeyOf(hid, ps[j]) != ParticipantKeyOf(hid, ps[i]))
      ensures LastWithKey(kvs, i)
    {
    }
    forall k | k in m && (forall p | p in ps :: ParticipantKeyOf(hid, p) != k)
      ensures forall i | 0 <= i < |kvs| :: kvs[i].0 != k
    {
      forall i | 0 <= i < |kvs| ensures kvs[i].0 != k {
        assert ps[i] in ps;
      }
    }
  }

  /** With every entity stored, a hyperedge upsert assigns all its participants. */
  lemma HyperedgeAssigns(t: Tables, h: Hyperedge)
    requires forall p | p in h.participants :: p.entityId in t.nodes
    ensures PutHyperedge(t, h).Done?
    ensures PutHyperedge(t, h).tables.participants == Assign(t.participants, ParticipantPairs(h.id, h.participants))
  {
    var withRow := t.(hyperedges := t.hyperedges[h.id := HyperedgeRow(h.kind, h.data)]);
    var ps := h.participants;
    if ps != [] {
      PutParticipantsIsAssign(withRow, h.id, ps);
      assert FirstUnresolved(withRow, h.id, ps).None?;
    }
  }

  /** `upsert_hyperedges`: each hyperedge in turn, up to the first failure. */
  function PutHyperedges(t: Tables, hs: seq<Hyperedge>): (r: BatchResult)
    ensures Integrity(t) ==> Integrity(r.tables)
    decreases |hs|
  {
    if hs == [] then Done(t)
    else
      var prev := PutHyperedges(t, hs[..|hs| - 1]);
      if prev.Stopped? then prev else PutHyperedge(prev.tables, hs[|hs| - 1])
  }

  // ---------------------------------------------------------------------
  // The text index
  // ---------------------------------------------------------------------

  /**
   * `finalize_fts`: create the index table if needed, empty it, fill it from
   * the nodes, and install the triggers (which `fts.Some?` stands for).
   */
  function RebuildIndex(t: Tables): (r: Tables)
    ensures IndexConsistent(r) && r.fts.Some?
    ensures ReferencesResolve(t) ==> Integrity(r)
    ensures r.nodes == t.nodes && r.edges == t.edges
    ensures r.hyperedges == t.hyperedges && r.participants == t.participants
  {
    t.(fts := Some(IndexOf(t.nodes)))
  }

  /** After a rebuild, every later node write keeps the index equal to a fresh rebuild. */
  lemma RebuildThenWrites(t: Tables, ns: seq<Node>)
    ensures RebuildIndex(PutNodes(RebuildIndex(t), ns)) == PutNodes(RebuildIndex(t), ns)
  {
    IncrementalIndexIsRebuild(RebuildIndex(t), ns);
  }

  // ---------------------------------------------------------------------
  // The session
  // ---------------------------------------------------------------------

  class HypergraphWriter {
    /** The database file the writer opens. */
    const db: Database
    /** Only tunes PRAGMAs and creates performance indexes; no visible effect. */
    const buildMode: bool
    /**
     * The open connection (`_conn`): None outside a session, otherwise the
     * tables as that connection sees them, uncommitted writes included.
     */
    var pending: Option<Tables>

    /** Both the committed file and the open connection satisfy the schema's constraints. */
    ghost predicate Valid()
      reads this, db
    {
      Integrity(db.tables) && (pending.Some? ==> Integrity(pending.value))
    }

    constructor (db: Database, buildMode: bool)
      ensures this.db == db && this.buildMode == buildMode && pending == None
    {
      this.db := db;
      this.buildMode := buildMode;
      pending := None;
    }

    /**
     * `__enter__`: connect (the new connection sees what is committed), create
     * the schema and commit; in build mode also create indexes and commit.
     * Nothing is pending at either commit, so the file does not change.
     */
    method Enter()
      modifies this
      ensures pending == Some(db.tables)
      ensures old(Valid()) ==> Valid()
    {
      pending := Some(db.tables);
    }

    /** `__exit__`: commit on a normal exit, roll back on an exception, then close. */
    method Exit(raised: bool)
      modifies this, db
      ensures pending == None
      ensures old(pending).Some? && !raised ==> db.tables == old(pending).value
      ensures old(pending).None? || raised ==> db.tables == old(db.tables)
      ensures old(Valid()) ==> Valid()
    {
      if pending.Some? {
        if !raised {
          db.tables := pending.value;
        }
      }
      pending := None;
    }

    /** The `conn` property: fails exactly when no session is open. */
    function Conn(): (r: Result<Tables, WriterError>)
      reads this
      ensures r.Err? <==> pending.None?
      ensures r.Err? ==> r.error == NotInSession
      ensures r.Ok? ==> pending == Some(r.value)
    {
      if pending.None? then Err(NotInSession) else Ok(pending.value)
    }

    method UpsertNode(n: Node) returns (r: Result<(), WriterError>)
      modifies this
      ensures old(pending).None? ==> r == Err(NotInSession) && pending == None
      ensures old(pending).Some? ==> r == Ok(()) && pending == Some(PutNode(old(pending).value, n))
      ensures old(Valid()) ==> Valid()
    {
      var c := Conn();
      if c.Err? {
        return Err(c.error);
      }
      pending := Some(PutNode(c.value, n));
      r := Ok(());
    }

    /** An empty batch returns before the connection is looked at. */
    method UpsertNodes(ns: seq<Node>) returns (r: Result<(), WriterError>)
      modifies this
      ensures ns == [] ==> r == Ok(()) && pending == old(pending)
      ensures ns != [] && old(pending).None? ==> r == Err(NotInSession) && pending == None
      ensures ns != [] && old(pending).Some? ==> r == Ok(()) && pending == Some(PutNodes(old(pending).value, ns))
      ensures old(Valid()) ==> Valid()
    {
      if ns == [] {
        return Ok(());
      }
      var c := Conn();
      if c.Err? {
        return Err(c.error);
      }
      var t := c.value;
      var i := 0;
      while i < |ns|
        invariant 0 <= i <= |ns|
        invariant t == PutNodes(c.value, ns[..i])
      {
        assert ns[..i + 1][..i] == ns[..i];
        t := PutNode(t, ns[i]);
        i := i + 1;
      }
      assert ns[..|ns|] == ns;
      pending := Some(t);
      r := Ok(());
    }

    method UpsertEdge(e: Edge) returns (r: Result<(), WriterError>)
      modifies this
      ensures old(pending).None? ==> r == Err(NotInSession) && pending == None
      ensures old(pending).Some? ==>
        var b := PutEdge(old(pending).value, e);
        r == b.Outcome() && pending == Some(b.tables)
      ensures old(Valid()) ==> Valid()
    {
      var c := Conn();
      if c.Err? {
        return Err(c.error);
      }
      var b := PutEdge(c.value, e);
      pending := Some(b.tables);
      r := b.Outcome();
    }

    method UpsertEdges(es: seq<Edge>) returns (r: Result<(), WriterError>)
      modifies this
      ensures es == [] ==> r == Ok(()) && pending == old(pending)
      ensures es != [] && old(pending).None? ==> r == Err(NotInSession) && pending == None
      ensures es != [] && old(pending).Some? ==>
        var b := PutEdges(old(pending).value, es);
        r == b.Outcome() && pending == Some(b.tables)
      ensures old(Valid()) ==> Valid()
    {
      if es == [] {
        return Ok(());
      }
      var c := Conn();
      if c.Err? {
        return Err(c.error);
      }
      var t := c.value;
      var i := 0;
      while i < |es|
        invariant 0 <= i <= |es|
        invariant PutEdges(c.value, es[..i]) == Done(t)
      {
        assert es[..i + 1][..i] == es[..i];
        var b := PutEdge(t, es[i]);
        if b.Stopped? {
          assert PutEdges(c.value, es[..i + 1]) == b;
          PutEdgesStopsForGood(c.value, es, i + 1);
          pending := Some(b.tables);
          return b.Outcome();
        }
        t := b.tables;
        i := i + 1;
      }
      assert es[..|es|] == es;
      pending := Some(t);
      r := Ok(());
    }

    method UpsertHyperedge(h: Hyperedge) returns (r: Result<(), WriterError>)
      modifies this
      ensures old(pending).None? ==> r == Err(NotInSession) && pending == None
      ensures old(pending).Some? ==>
        var b := PutHyperedge(old(pending).value, h);
        r == b.Outcome() && pending == Some(b.tables)
      ensures old(Valid()) ==> Valid()
    {
      var c := Conn();
      if c.Err? {
        return Err(c.error);
      }
      var t := c.value.(hyperedges := c.value.hyperedges[h.id := HyperedgeRow(h.kind, h.data)]);
      ghost var withRow := t;
      if h.participants != [] {
        var ps := h.participants;
        var i := 0;
        while i < |ps|
          invariant 0 <= i <= |ps|
          invariant PutParticipants(withRow, h.id, ps[..i]) == Done(t)
        {
          var b := PutParticipant(t, h.id, ps[i]);
          PutParticipantsStep(withRow, h.id, ps, i);
          if b.Stopped? {
            PutParticipantsStopsForGood(withRow, h.id, ps, i + 1);
            pending := Some(b.tables);
            return b.Outcome();
          }
          t := b.tables;
          i := i + 1;
        }
        assert ps[..|ps|] == ps;
      }
      pending := Some(t);
      r := Ok(());
    }

    method UpsertHyperedges(hs: seq<Hyperedge>) returns (r: Result<(), WriterError>)
      modifies this
      ensures hs == [] ==> r == Ok(()) && pending == old(pending)
      ensures hs != [] && old(pending).None? ==> r == Err(NotInSession) && pending == None
      ensures hs != [] && old(pending).Some? ==>
        var b := PutHyperedges(old(pending).value, hs);
        r == b.Outcome() && pending == Some(b.tables)
      ensures old(Valid()) ==> Valid()
    {
      var i := 0;
      while i < |hs|
        invariant 0 <= i <= |hs|
        invariant i == 0 ==> pending == old(pending)
        invariant i > 0 ==> old(pending).Some? && pending.Some? && PutHyperedges(old(pending).value, hs[..i]) == Done(pending.value)
        invariant old(Valid()) ==> Valid()
      {
        assert hs[..i + 1][..i] == hs[..i];
        ghost var before := pending;
        var step := UpsertHyperedge(hs[i]);
        if step.Err? {
          if before.Some? {
            assert PutHyperedges(old(pending).value, hs[..i + 1]) == PutHyperedge(before.value, hs[i]);
            PutHyperedgesStopsForGood(old(pending).value, hs, i + 1);
          }
          return step;
        }
        i := i + 1;
      }
      if hs != [] {
        assert hs[..|hs|] == hs;
      }
      r := Ok(());
    }

    /**
     * `finalize_fts`: rebuild the index, install the triggers, and commit.
     * Without the FTS5 module the first statement fails, so nothing changes and
     * nothing is committed; the error leaves the session.
     */
    method FinalizeFts(ftsAvailable: bool) returns (r: Result<(), WriterError>)
      modifies this, db
      ensures old(pending).None? ==> r == Err(NotInSession) && pending == None && db.tables == old(db.tables)
      ensures old(pending).Some? && !ftsAvailable ==>
        r == Err(OperationalError) && pending == old(pending) && db.tables == old(db.tables)
      ensures old(pending).Some? && ftsAvailable ==>
        && r == Ok(())
        && pending == Some(RebuildIndex(old(pending).value))
        && db.tables == pending.value
      ensures old(Valid()) ==> Valid()
    {
      var c := Conn();
      if c.Err? {
        return Err(c.error);
      }
      if !ftsAvailable {
        return Err(OperationalError);
      }
      var t := RebuildIndex(c.value);
      pending := Some(t);
      db.tables := t;
      r := Ok(());
    }

    /** `ensure_indexes`: performance indexes only, then a commit of everything pending. */
    method EnsureIndexes() returns (r: Result<(), WriterError>)
      modifies db
      ensures pending.None? ==> r == Err(NotInSession) && db.tables == old(db.tables)
      ensures pending.Some? ==> r == Ok(()) && db.tables == pending.value
      ensures old(Valid()) ==> Valid()
    {
      var c := Conn();
      if c.Err? {
        return Err(c.error);
      }
      db.tables := c.value;
      r := Ok(());
    }
  }

  /** Once a batch has stopped, later items do not run. */
  lemma {:induction false} PutEdgesStopsForGood(t: Tables, es: seq<Edge>, n: nat)
    requires n <= |es| && PutEdges(t, es[..n]).Stopped?
    ensures PutEdges(t, es) == PutEdges(t, es[..n])
    decreases |es| - n
  {
    if n < |es| {
      assert es[..n + 1][..n] == es[..n];
      PutEdgesStopsForGood(t, es, n + 1);
    } else {
      assert es[..n] == es;
    }
  }

  /** After a prefix that went through, one more participant is one more `PutParticipant`. */
  lemma PutParticipantsStep(t: Tables, hid: HyperedgeId, ps: seq<Participant>, i: nat)
    requires i < |ps| && PutParticipants(t, hid, ps[..i]).Done?
    ensures PutParticipants(t, hid, ps[..i + 1]) == PutParticipant(PutParticipants(t, hid, ps[..i]).tables, hid, ps[i])
  {
    assert ps[..i + 1][..i] == ps[..i];
  }

  lemma {:induction false} PutParticipantsStopsForGood(t: Tables, hid: HyperedgeId, ps: seq<Participant>, n: nat)
    requires n <= |ps| && PutParticipants(t, hid, ps[..n]).Stopped?
    ensures PutParticipants(t, hid, ps) == PutParticipants(t, hid, ps[..n])
    decreases |ps| - n
  {
    if n < |ps| {
      assert ps[..n + 1][..n] == ps[..n];
      PutParticipantsStopsForGood(t, hid, ps, n + 1);
    } else {
      assert ps[..n] == ps;
    }
  }

  lemma {:induction false} PutHyperedgesStopsForGood(t: Tables, hs: seq<Hyperedge>, n: nat)
    requires n <= |hs| && PutHyperedges(t, hs[..n]).Stopped?
    ensures PutHyperedges(t, hs) == PutHyperedges(t, hs[..n])
    decreases |hs| - n
  {
    if n < |hs| {
      assert hs[..n + 1][..n] == hs[..n];
      PutHyperedgesStopsForGood(t, hs, n + 1);
    } else {
      assert hs[..n] == hs;
    }
  }
}
