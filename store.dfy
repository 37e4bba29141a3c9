/**
 * The hypergraph database file: the records the writer accepts, the rows the
 * four tables hold, the derived full-text index over nodes, and the
 * integrity the schema's keys and foreign keys impose.
 *
 * SQL is not modelled: each table is a map from its primary key to the rest
 * of the row. The `type` column is called `kind` (`type` is a Dafny keyword).
 */
module Store {
  import opened Wrappers

  type NodeId = string
  type EdgeId = string
  type HyperedgeId = string

  /**
   * A value inside a record's `data` object, as far as the text index looks
   * at it: a JSON string, JSON null, or any other JSON value together with
   * the text SQLite's `||` makes of what `json_extract` returns for it.
   */
  datatype Value = Str(s: string) | Null | Other(text: string)

  /** A record's `data`: a JSON object. Its serialisation is left abstract. */
  type Data = map<string, Value>

  // Records as callers hand them to the writer.
  datatype Node = Node(id: NodeId, kind: string, data: Data)
  datatype Edge = Edge(id: EdgeId, kind: string, source: NodeId, target: NodeId, data: Data)
  /** `role`, `ordinal` and `data` may be None (falsy) in the source; the writer defaults them. */
  datatype Participant = Participant(entityId: NodeId, role: Option<string>, ordinal: Option<int>, data: Option<Data>)
  datatype Hyperedge = Hyperedge(id: HyperedgeId, kind: string, data: Data, participants: seq<Participant>)

  // Rows as the tables hold them, keyed by primary key.
  datatype NodeRow = NodeRow(kind: string, data: Data)
  datatype EdgeRow = EdgeRow(kind: string, source: NodeId, target: NodeId, data: Data)
  datatype HyperedgeRow = HyperedgeRow(kind: string, data: Data)
  /** The composite primary key of `hyperedge_entities`. */
  datatype ParticipantKey = ParticipantKey(hyperedgeId: HyperedgeId, entityId: NodeId, role: string, ordinal: int)

  /**
   * The contents of the database. `fts` is None while the `nodes_fts` table
   * does not exist; it is created together with the three triggers that keep
   * it in step with `nodes`, so Some also means the triggers are installed.
   */
  datatype Tables = Tables(
    nodes: map<NodeId, NodeRow>,
    edges: map<EdgeId, EdgeRow>,
    hyperedges: map<HyperedgeId, HyperedgeRow>,
    participants: map<ParticipantKey, Data>,
    fts: Option<map<NodeId, string>>)

  /** A freshly created database file once the schema exists. */
  const EmptyTables := Tables(map[], map[], map[], map[], None)

  /** `coalesce(json_extract(data, '$.<key>'), '')`. */
  function FieldText(data: Data, key: string): string {
    if key !in data then ""
    else match data[key]
      case Str(s) => s
      case Null => ""
      case Other(text) => text
  }

  /** The index content of a node: name, about and type, separated by single spaces. */
  function IndexContent(row: NodeRow): string {
    FieldText(row.data, "name") + " " + FieldText(row.data, "about") + " " + row.kind
  }

  /** The index that a full rebuild from `nodes` produces: one entry per node. */
  function IndexOf(nodes: map<NodeId, NodeRow>): (index: map<NodeId, string>)
    ensures index.Keys == nodes.Keys
  {
    map id | id in nodes :: IndexContent(nodes[id])
  }

  /** Changing one node changes its index entry and no other. */
  lemma IndexOfUpdate(nodes: map<NodeId, NodeRow>, id: NodeId, row: NodeRow)
    ensures IndexOf(nodes[id := row]) == IndexOf(nodes)[id := IndexContent(row)]
  {
    var a, b := IndexOf(nodes[id := row]), IndexOf(nodes)[id := IndexContent(row)];
    assert a.Keys == b.Keys;
    forall k | k in a ensures a[k] == b[k] {
    }
  }

  /** Edges and participants point at rows that exist (the schema's foreign keys). */
  ghost predicate ReferencesResolve(t: Tables) {
    && (forall id | id in t.edges :: t.edges[id].source in t.nodes && t.edges[id].target in t.nodes)
    && (forall k | k in t.participants :: k.hyperedgeId in t.hyperedges && k.entityId in t.nodes)
  }

  /** The index, when it exists, holds exactly one entry per node, with that node's content. */
  ghost predicate IndexConsistent(t: Tables) {
    t.fts.Some? ==> t.fts.value == IndexOf(t.nodes)
  }

  ghost predicate Integrity(t: Tables) {
    ReferencesResolve(t) && IndexConsistent(t)
  }

  /** The database file: what has been committed to it. */
  class Database {
    var tables: Tables

    /** `sqlite3.connect` on a path where no file exists yet, followed by schema creation. */
    constructor ()
      ensures tables == EmptyTables && Integrity(tables)
    {
      tables := EmptyTables;
    }
  }
}
