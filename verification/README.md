# 3MF export of sdfx: vertex deduplication and the model document

This project models `Save3MF` in `sdf/3mf.go`. `Save3MF` writes a triangle mesh
(a "triangle soup": every triangle carries its own three corner positions) as
a 3MF model. The core work is turning the soup into an indexed mesh. Every
distinct corner position goes into a vertex table once. Each triangle becomes
three 0-based indices into that table, in its original winding order. The
indexed mesh is then wrapped in a fixed one-object document. Its language is
"en-US", its namespace is the 3MF core namespace
`http://schemas.microsoft.com/3dmanufacturing/core/2015/02`, its unit is
"mm", and it has one object with id "1" and type "model", plus one build item
that refers to object "1". `Save3MF` is modelled with the unit as written; the
corrected unit "millimeter" (see Findings) is a separate document,
`NewModel`, with its own well-formedness proof.

Files:

- `first_occurrence.dfy`, module `FirstOccurrence`: the specification of
  deduplication. `FirstOccurrences(s)` lists the distinct elements of `s` in
  the order they first occur. The lemmas prove that it keeps exactly the
  elements of `s`, repeats none, is as long as the number of distinct
  elements, lists them in first-occurrence order, and never changes a
  position that has been assigned.
- `three_mf.dfy`, module `ThreeMF`: the input geometry (`V3`, `Triangle3`),
  the output records (`ThreeMFModel` down to `ThreeMFItem`) and the
  specification functions `VertexTable` and `TriangleIndices`. Each of the
  three loops of `Save3MF` is its own method:
  - `AssignIndices` walks the triangles and their corners and builds the
    position-to-index map;
  - `BuildVertexTable` visits the map in any order and fills a preallocated
    array;
  - `RemapTriangles` fills a preallocated array of index triples.

  The file also holds the document, its 3MF well-formedness and `Save3MF`.
  `Save3MF` takes the outcomes of its I/O steps as a parameter.
- `wrappers.dfy`, module `Wrappers`: `Option`.

Vertex positions are triples of `real` compared with exact equality. This is
the exact-equality map key of the source, and it is an equivalence relation.
Go's `map[V3]int` is a Dafny `map<V3, int>`. Three functions are plain
definitions of source constructs: `Corners` is `range t.V` (line 67), the
three corners in winding order; `Lookup` is the map read `vertices[v]`
(lines 82-84), which yields 0 for a missing key; and `NewModelAsWritten` is
the document literal of lines 89-101, with unit "mm". The two `make`d slices are
`array`s. The range over the map at line 75 is a loop that picks any remaining
key, so no particular iteration order is assumed.

## Model

| member | source | states |
|---|---|---|
| `FirstOccurrence.FirstOccurrencesSnoc` | sdf/3mf.go:67-71 | One step of the scan: a position that already occurs in the scanned input leaves the table unchanged; a position that does not is appended and gets index `len` of the table before it |
| `FirstOccurrence.FirstOccurrencesMember` | sdf/3mf.go:65-73 | A position is in the table if and only if it occurs among the scanned corners |
| `FirstOccurrence.FirstOccurrencesDistinct` | sdf/3mf.go:68-70 | No position is entered twice: duplicates are skipped |
| `FirstOccurrence.FirstOccurrencesCount` | sdf/3mf.go:74 | The table length equals the number of distinct positions scanned |
| `FirstOccurrence.FirstOccurrencesOrdered` | sdf/3mf.go:65-73 | Indices follow first-occurrence order: of two table entries, the one with the smaller index occurs first in the input |
| `FirstOccurrence.FirstOccurrencesPrefix` | sdf/3mf.go:68-71 | Scanning more input only appends to the table and never reorders or removes an entry |
| `FirstOccurrence.PositionStable` | sdf/3mf.go:68-70 | A position keeps its index once assigned; later occurrences never reassign it |
| `ThreeMF.Flatten` | sdf/3mf.go:66-67 | The nested range visits exactly three corner references per triangle |
| `ThreeMF.FlattenAt` | sdf/3mf.go:66-67 | Corner `k` of triangle `i` is visited as reference `3*i+k`, i.e. triangles in input order and corners `V[0]`, `V[1]`, `V[2]` in order |
| `ThreeMF.FlattenElements` | sdf/3mf.go:66-67 | The visited references are exactly the set of corner positions of the mesh |
| `ThreeMF.AssignIndices` | sdf/3mf.go:65-73 | The map built by the loop is the exact inverse of the first-occurrence table: same size, the same keys as the table's entries, each key mapped to its slot |
| `ThreeMF.IndexesSnoc` | sdf/3mf.go:71 | Giving a new position the map's current size as its index keeps the map the exact inverse of the table with that position appended |
| `ThreeMF.IndexesDense` | sdf/3mf.go:65-73 | Such a map uses exactly the indices 0 .. len-1, and no two positions share an index |
| `ThreeMF.BuildVertexTable` | sdf/3mf.go:74-77 | Whatever order the map is visited in, the preallocated table ends up as the first-occurrence table, slot for slot |
| `ThreeMF.RemapTriangles` | sdf/3mf.go:80-85 | One triple per input triangle; V1, V2, V3 are the map's values for V[0], V[1], V[2], and a missing key reads as 0 as a Go map read does |
| `ThreeMF.LookupIndexOf` | sdf/3mf.go:82-84 | Reading the index map for a position in the table gives that position's slot |
| `ThreeMF.LookupMiss` | sdf/3mf.go:82-84 | A position outside the table reads as 0, and for a non-empty table that is the value the map holds for the first vertex, so a miss cannot be told apart from a hit on it |
| `ThreeMF.IndexesDistinct` | sdf/3mf.go:71-76 | A map that is the exact inverse of a table implies the table has no repeats, so the loop at 75-76 writes each slot once |
| `ThreeMF.RemapMatchesSpec` | sdf/3mf.go:80-85 | Applied to the map from the first loop, the remapped triangles are exactly `TriangleIndices`: each corner replaced by its position in the table |
| `ThreeMF.CornerInTable` | sdf/3mf.go:82-84 | Every corner of every triangle has a slot in the table, so no lookup misses |
| `ThreeMF.VertexTableExact` | sdf/3mf.go:74-77 | The table holds each distinct corner position exactly once: it contains a position if and only if some triangle uses it, it has no repeats, and its length is the number of distinct positions |
| `ThreeMF.TriangleIndicesInRange` | sdf/3mf.go:80-85 | The output has exactly as many triangles as the input, degenerate ones included, and every V1/V2/V3 lies in [0, table length) |
| `ThreeMF.WindingPreserved` | sdf/3mf.go:81-85 | Resolving V1, V2, V3 through the table gives back V[0], V[1], V[2] of the same input triangle |
| `ThreeMF.IndexStable` | sdf/3mf.go:68-70 | Appending triangles to a mesh never changes the index of a position the original mesh already uses |
| `ThreeMF.EmptyMesh` | sdf/3mf.go:65-85 | An empty mesh gives an empty vertex table and an empty triangle list |
| `ThreeMF.SharedEdge` | sdf/3mf.go:64-85 | Two triangles a-b-c and a-c-d that share the edge a-c, with four distinct corners, give the table a, b, c, d and the triples (0,1,2) and (0,2,3). Both triples use the indices of a and c |
| `ThreeMF.Document` | sdf/3mf.go:89-101 | The document has one resource object and one build item, the item names that object's id, and the object's mesh is the given table and triangle list |
| `ThreeMF.DocumentConsistent` | sdf/3mf.go:89-101 | For any unit, the document around a mesh whose indices are in range has the core namespace, its build item resolves to its object, and every index is in range |
| `ThreeMF.MeshIndicesInRange` | sdf/3mf.go:80-97 | The mesh placed in the document has every triangle index in range of its own vertex table |
| `ThreeMF.AsWrittenUnitRejected` | sdf/3mf.go:92 | The document as written, with unit "mm", is not a well-formed 3MF model for any mesh, because "mm" is not a 3MF unit value |
| `ThreeMF.NewModelWellFormed` | sdf/3mf.go:89-101 | The document with unit "millimeter" is well-formed when its triangle indices are in range. Well-formed means: core namespace, admitted unit, the build item refers to an existing object, and every index is in range |
| `ThreeMF.AsWrittenDocumentConsistent` | sdf/3mf.go:89-101 | The document as written, built from any mesh, is consistent: core namespace, its build item resolves to its object, every index in range. For an empty mesh it is the literal with lang "en-US", the core namespace, unit "mm", one object "1" of type "model" with empty sections, and one build item for "1" |
| `ThreeMF.CorrectedDocumentWellFormed` | sdf/3mf.go:89-101 | With the unit "millimeter", the document built from any mesh is well-formed, unit included |
| `ThreeMF.Save3MF` | sdf/3mf.go:57-107 | A create failure returns that error before any work, with nothing encoded and nothing flushed. Otherwise the document handed to the encoder is exactly the as-written document (unit "mm") of `VertexTable` and `TriangleIndices` of the mesh, so it does not depend on the map's iteration order, and it is consistent. An encode failure returns that error without flushing. Otherwise the buffer is flushed and the flush's outcome is returned |

## Left out

- File creation, `defer file.Close()`, `bufio.Writer` and `Flush` (sdf/3mf.go:58-62, 87, 106) are OS resources. `Save3MF` receives their outcomes in a `Sink` value and models only the order of the error returns. The `path` argument only feeds `os.Create`, so it is not modelled. The error from `file.Close()` is ignored by the source and is not modelled either.
- XML text generation by `encoding/xml` and the header line written with `fmt.Fprintln` (sdf/3mf.go:88-89) are not modelled: escaping, attribute order and float-to-text formatting belong to that library. The document is a datatype value. The source also ignores the error from the header line. The struct tags at sdf/3mf.go:31-32 name the fields `vertices` and `triangles`, while the element types carry the names `vertex` and `triangle`. Which wrapper elements the encoder emits for them is not part of this model.
- float64 coordinates are modelled as `real` with exact equality. NaN (never equal to itself as a map key) and the merging of +0 and -0 are not captured.
- `Triangle3` and `V3` are defined in files that are not part of this model. A triangle is a triple of corners. The source's `[]*Triangle3` holds pointers, and a nil pointer would panic; the model has triangle values, so it has no nil case.
- Go's `int` is 32 or 64 bits wide, depending on the platform. Indices are modelled as unbounded integers. Overflow cannot be reached with either width: the map would need more distinct vertices than the address space of that platform can hold.
- `BuildVertexTable`: requires that the map is the inverse of a table (a ghost argument). The loop at sdf/3mf.go:74-77 relies on this to stay in range and to write each slot once. In the source, the only map that reaches that loop is the one built by the loop at sdf/3mf.go:65-73, and `AssignIndices` proves that this map meets the requirement.

## Findings

| source | as written | input that shows it | evidently intended | confidence | as-written member | corrected member |
|---|---|---|---|---|---|---|
| sdf/3mf.go:92 | The model's `unit` attribute is "mm" | Any mesh, including the empty one. The 3MF Core Specification's ST_Unit type admits only micron, millimeter, centimeter, inch, foot and meter | Millimetres, written "millimeter" | medium (not executed; the unit values are those of the 3MF core schema) | `ThreeMF.AsWrittenUnitRejected` | `ThreeMF.CorrectedDocumentWellFormed` |
