/** The vertex records of an editable mesh, reduced to what position lookup sees. */
module MeshTypes {

  /** A point in model space. Coordinates are exact values: two positions are
      equal only when all three coordinates are equal. */
  datatype Position = Position(x: real, y: real, z: real)

  /** A stable vertex handle: the identity of a vertex, independent of where it sits. */
  type VertexId = nat

  /** A mesh vertex. Identity (`id`) and `position` are separate: after an
      extrusion several distinct vertices can share one position. */
  datatype Vertex = Vertex(id: VertexId, position: Position)

  /** No two entries of a vertex list are the same vertex. */
  ghost predicate DistinctIds(vertices: seq<Vertex>)
  {
    forall i, j :: 0 <= i < j < |vertices| ==> vertices[i].id != vertices[j].id
  }
}
