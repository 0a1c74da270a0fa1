/** Rows, nodes and relationships as the memory modules share them.

    Labels, properties and relationship types are numbered; a key or a cell is an integer.
    A property a row does not hold is null, as it is for a node of the graph. */
module Data {

  type Label = nat
  type Prop = nat
  type Value = int

  /** A node's identity: its label and its key (memory's node key, within one source). */
  datatype NodeId = NodeId(lb: Label, key: Value)

  type Row = map<Prop, Value>
  type View = map<NodeId, Row>

  /** A relationship of the model: a column (`fk`) of its start node that holds its end's key.
      `kind` is the relationship type; every type is unique in a model. */
  datatype Rel = Rel(kind: nat, start: Label, end: Label, fk: Prop)

  /** No two relationships of a model have one type. */
  predicate KindsApart(rels: seq<Rel>) {
    forall i, j :: 0 <= i < j < |rels| ==> rels[i].kind != rels[j].kind
  }

  datatype Edge = Edge(kind: nat, from: NodeId, to: NodeId)

  function Project(row: Row, props: set<Prop>): Row {
    map p | p in row && p in props :: row[p]
  }

  function Take<T>(s: seq<T>, n: nat): seq<T> {
    if |s| <= n then s else s[..n]
  }

  /** `part` says nothing `whole` does not: every value it holds is there. */
  ghost predicate Within(part: Row, whole: Row) {
    forall p :: p in part ==> p in whole && part[p] == whole[p]
  }

  ghost predicate NoDup<T>(s: seq<T>) {
    forall i, j :: 0 <= i < j < |s| ==> s[i] != s[j]
  }

  function Elements<T>(s: seq<T>): set<T> {
    set x | x in s
  }
}
