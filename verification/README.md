# Exact-position vertex lookup of an editable mesh

This project models the position lookups of the editable mesh in
`Assets/Scripts/Mesh/Selection.cs`. A mesh vertex has an identity and a position, and
the two are independent. After an extrusion, several distinct vertices can sit at
the same coordinates: the moving original and its stand-in duplicate. The mesh
keeps its vertices in an ordered list, `Vertices`. The lookups search that list:

- `FindByPosition` walks `Vertices` in order. It returns the first vertex whose
  position equals the query exactly, or `null` when no vertex is there.
- `FindAllByPosition` returns every vertex at exactly that position, in list order.
  It is meant for finding duplicates.

The extrusion tests use these lookups to find the stand-in vertices after the
originals have been moved away.

Modelling choices:

- A position (`MeshTypes.Position`) is a triple of exact coordinates compared with
  `==`, with no tolerance.
- A vertex (`MeshTypes.Vertex`) is a record of a stable handle (`id`) and a position.
- The mesh is represented by its vertex list, a `seq<Vertex>`. Both lookups take that
  list as a parameter and return fresh values, so neither can change the list or
  any vertex.
- `null` becomes `Wrappers.Option.None`.
- Neither lookup has a precondition: finding nothing is a normal outcome, reported
  as `None` or as an empty list.

Files:

- `wrappers.dfy`: `Option`.
- `mesh.dfy`: positions, vertices, and the distinct-identity predicate.
- `sequences.dfy`: the order-preserving subsequence relation.
- `selection.dfy`: the two lookups and the lemmas that relate them.

## Model

| member | source | states |
|---|---|---|
| `Selection.FindByPosition` | Assets/Scripts/Mesh/Selection.cs:55-65 | Returns `None` exactly when no vertex in the list sits at the query position. Otherwise the result is a list element at that position, and it is the earliest one: every entry before it has a different position. The result is `None` iff `FindAllByPosition` is empty, and otherwise it is the first element of `FindAllByPosition`. |
| `Selection.FindAllByPosition` | Assets/Scripts/Mesh/Selection.cs:73-76 | Every reported vertex sits at the query position. The result is an order-preserving subsequence of the vertex list. Every list entry at that position is reported, so coincident but distinct vertices are all found. |
| `Selection.FindAllMultiplicity` | Assets/Scripts/Mesh/Selection.cs:67-76 | Each vertex at the query position appears in the result exactly as many times as in the vertex list. Together with the subsequence property, this makes the result exactly the in-order filter of the list. |
| `Selection.FindAllEmptyIff` | Assets/Scripts/Mesh/Selection.cs:73-76 | The list of all matches is empty exactly when no vertex sits at the query position, in both directions. |
| `Selection.FirstMatchHeadsFindAll` | Assets/Scripts/Mesh/Selection.cs:55-76 | If index `i` holds the earliest vertex at the position, the list of all matches is non-empty and starts with that vertex. This ties the first-match lookup to the all-matches lookup. |
| `Selection.FindAllCount` | Assets/Scripts/Mesh/Selection.cs:67-76 | The number of vertices reported equals the number of list indices whose vertex sits at the position. That number is at most the length of the vertex list. |
| `Selection.FindAllAppend` | Assets/Scripts/Mesh/Selection.cs:73-76 | Looking up a concatenation of two vertex lists gives the lookup of the first list followed by the lookup of the second. |
| `Selection.FindAllIdempotent` | Assets/Scripts/Mesh/Selection.cs:73-76 | Looking up the same position again in the result changes nothing. |
| `Selection.FindAllKeepsAllMatching` | Assets/Scripts/Mesh/Selection.cs:73-76 | A list whose every vertex sits at the position is returned unchanged. |
| `Selection.FindAllDistinct` | Assets/Scripts/Mesh/Selection.cs:67-76 | If the vertex list holds each vertex identity once, then so does the result: the result never holds the same vertex twice. |
| `Selection.SoleVertexAtPosition` | Assets/Scripts/Tests/ExtrusionTestScript.cs:86-96 | When exactly one entry sits at the position, that entry is the first match and the only one reported. The extrusion tests rely on this to recover a stand-in vertex after the original has moved. |
| `Sequences.SubsequenceElements` | Assets/Scripts/Mesh/Selection.cs:73-76 | Every element of an order-preserving subsequence is an element of the original list, so every reported vertex comes from the mesh. |

## Left out

- The selection stubs in `Assets/Scripts/Mesh/Selection.cs:17-48` are left out: `SelectLoop`, `SelectShortestPath`, `SelectFacesFromVertices`, `SelectMore`, `SelectLess` and `SelectSeam`. They only throw `NotImplementedException`, so they have no behaviour to model.
- `MoveVertex` in `Assets/Scripts/Mesh/Editing.cs:17-30` is left out. It writes into the GPU vertex buffer.
- `TransformVertices` and `SetFace` in `Assets/Scripts/Mesh/Editing.cs:39-48` are left out. They are unimplemented stubs.
- `Assets/Scripts/IO/WavefrontImportTestComponent.cs` is left out. It is scene set-up and OBJ import. The OBJ parser it calls is not part of this model.
- Extrusion, deletion and vertex creation are left out. `Assets/Scripts/Tests/ExtrusionTestScript.cs` exercises them, but their implementations are not part of this model. The tests serve only as evidence of how the lookups are used.
- IEEE single-precision semantics of `float3.Equals` are left out. This includes NaN never equalling itself and `+0` equalling `-0`. Coordinates are exact `real` values compared with `==`.
- The vertex's other attributes are left out: normal, tangent, texture coordinates, and incident edges and faces. The lookups never read them.
- Vertex identity is modelled as an explicit `id` rather than object-reference identity.
