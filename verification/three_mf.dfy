/**
 The 3MF exporter of sdf/3mf.go: `Save3MF` turns a triangle soup into an
 indexed mesh (a table of distinct vertices plus, per triangle, three indices
 into it) and wraps it in a one-object 3MF model document.

 The three loops of `Save3MF` are the methods `AssignIndices`,
 `BuildVertexTable` and `RemapTriangles`; each is proved against the
 specification functions `VertexTable` and `TriangleIndices`, which are
 built on the first-occurrence scan of module FirstOccurrence.
 */
module ThreeMF {
  import opened Wrappers
  import opened FirstOccurrence

  // ---------------------------------------------------------------------
  // Input geometry

  /** A vertex position. Coordinates are exact reals; two positions are the same vertex iff all three are equal. */
  datatype V3 = V3(x: real, y: real, z: real)

  /** A triangle: its corners `V[0]`, `V[1]`, `V[2]` in winding order. */
  datatype Triangle3 = Triangle3(v0: V3, v1: V3, v2: V3)

  /** The corners of a triangle in winding order, as the range `t.V` iterates them. */
  function Corners(t: Triangle3): seq<V3>
  {
    [t.v0, t.v1, t.v2]
  }

  /** All corner references of a mesh, triangle by triangle, in the order the exporter visits them. */
  function Flatten(mesh: seq<Triangle3>): (s: seq<V3>)
    ensures |s| == 3 * |mesh|
  {
    if mesh == [] then [] else Flatten(mesh[..|mesh| - 1]) + Corners(mesh[|mesh| - 1])
  }

  /** The set of distinct vertex positions used by the triangles of a mesh. */
  ghost function MeshVertices(mesh: seq<Triangle3>): set<V3>
  {
    set i, k | 0 <= i < |mesh| && 0 <= k < 3 :: Corners(mesh[i])[k]
  }

  // ---------------------------------------------------------------------
  // Output records (the structs ThreeMFModel ... ThreeMFItem)

  datatype ThreeMFVertex = ThreeMFVertex(x: real, y: real, z: real)

  /** Three 0-based indices into the vertex table (Go `int`). */
  datatype ThreeMFTriangle = ThreeMFTriangle(v1: int, v2: int, v3: int)

  datatype ThreeMFMesh = ThreeMFMesh(vertices: seq<ThreeMFVertex>, triangles: seq<ThreeMFTriangle>)

  datatype ThreeMFObject = ThreeMFObject(id: string, objectType: string, mesh: ThreeMFMesh)

  datatype ThreeMFItem = ThreeMFItem(objectId: string)

  datatype ThreeMFModel = ThreeMFModel(
    lang: string,
    schema: string,
    unit: string,
    resources: seq<ThreeMFObject>,
    build: seq<ThreeMFItem>)

  function ToThreeMFVertex(v: V3): ThreeMFVertex
  {
    ThreeMFVertex(v.x, v.y, v.z)
  }

  // ---------------------------------------------------------------------
  // Specification of the indexed mesh

  /** The distinct corners of the mesh in first-occurrence order: vertex `k` of the table. */
  function DistinctVertices(mesh: seq<Triangle3>): seq<V3>
  {
    FirstOccurrences(Flatten(mesh))
  }

  /** Output records for a sequence of positions, slot by slot. */
  function ToThreeMFVertices(d: seq<V3>): seq<ThreeMFVertex>
  {
    seq(|d|, k requires 0 <= k < |d| => ToThreeMFVertex(d[k]))
  }

  /** The vertex table the exporter writes. */
  function VertexTable(mesh: seq<Triangle3>): seq<ThreeMFVertex>
  {
    ToThreeMFVertices(DistinctVertices(mesh))
  }

  /** A triangle as the indices of its corners in the table `d`, in winding order. */
  function IndexTriangle(d: seq<V3>, t: Triangle3): ThreeMFTriangle
  {
    ThreeMFTriangle(IndexOf(d, t.v0), IndexOf(d, t.v1), IndexOf(d, t.v2))
  }

  /** The triangle list the exporter writes: one index triple per input triangle. */
  function TriangleIndices(mesh: seq<Triangle3>): seq<ThreeMFTriangle>
  {
    var d := DistinctVertices(mesh);
    seq(|mesh|, i requires 0 <= i < |mesh| => IndexTriangle(d, mesh[i]))
  }

  /** `m` maps each element of the table `d` to its slot, and nothing else. */
  ghost predicate Indexes(m: map<V3, int>, d: seq<V3>)
  {
    && |m| == |d|
    && (forall v :: v in m <==> v in d)
    && (forall v :: v in m ==> 0 <= m[v] < |d| && d[m[v]] == v)
  }

  /** The Go map read `vertices[v]`: a missing key reads as the zero value. */
  function Lookup(m: map<V3, int>, v: V3): int
  {
    if v in m then m[v] else 0
  }

  // ---------------------------------------------------------------------
  // Lemmas about the flattened corner list

  /** Corner `k` of triangle `i` is reference `3 * i + k` of the flattened list. */
  lemma {:induction false} FlattenAt(mesh: seq<Triangle3>, i: nat, k: nat)
    requires i < |mesh| && k < 3
    ensures Flatten(mesh)[3 * i + k] == Corners(mesh[i])[k]
  {
    if i < |mesh| - 1 {
      FlattenAt(mesh[..|mesh| - 1], i, k);
    }
  }

  /** The flattened list holds exactly the mesh's vertices. */
  lemma FlattenElements(mesh: seq<Triangle3>)
    ensures Elements(Flatten(mesh)) == MeshVertices(mesh)
  {
    forall v | v in MeshVertices(mesh)
      ensures v in Elements(Flatten(mesh))
    {
      var i, k :| 0 <= i < |mesh| && 0 <= k < 3 && Corners(mesh[i])[k] == v;
      FlattenAt(mesh, i, k);
    }
    forall v | v in Elements(Flatten(mesh))
      ensures v in MeshVertices(mesh)
    {
      var n :| 0 <= n < |Flatten(mesh)| && Flatten(mesh)[n] == v;
      FlattenAt(mesh, n / 3, n % 3);
    }
  }

  /** Flattening distributes over concatenation of meshes. */
  lemma {:induction false} FlattenAppend(mesh: seq<Triangle3>, more: seq<Triangle3>)
    ensures Flatten(mesh + more) == Flatten(mesh) + Flatten(more)
  {
    if more == [] {
      assert mesh + more == mesh;
    } else {
      var init := more[..|more| - 1];
      FlattenAppend(mesh, init);
      assert (mesh + more)[..|mesh + more| - 1] == mesh + init;
    }
  }

  // ---------------------------------------------------------------------
  // Properties of the indexed mesh

  /** A corner of any triangle of the mesh has a slot in the table. */
  lemma CornerInTable(mesh: seq<Triangle3>, i: nat, k: nat)
    requires i < |mesh| && k < 3
    ensures Corners(mesh[i])[k] in DistinctVertices(mesh)
  {
    FlattenAt(mesh, i, k);
    FirstOccurrencesMember(Flatten(mesh), Corners(mesh[i])[k]);
  }

  /**
   The table holds each distinct vertex of the mesh exactly once: a position
   is in the table iff some triangle uses it, no entry repeats, and so the
   table is exactly as long as the number of distinct positions.
   */
  lemma VertexTableExact(mesh: seq<Triangle3>)
    ensures forall v :: v in MeshVertices(mesh) <==> ToThreeMFVertex(v) in VertexTable(mesh)
    ensures Distinct(VertexTable(mesh))
    ensures |VertexTable(mesh)| == |MeshVertices(mesh)|
  {
    var d := DistinctVertices(mesh);
    FlattenElements(mesh);
    FirstOccurrencesDistinct(Flatten(mesh));
    FirstOccurrencesCount(Flatten(mesh));
    forall v
      ensures v in MeshVertices(mesh) <==> ToThreeMFVertex(v) in VertexTable(mesh)
    {
      FirstOccurrencesMember(Flatten(mesh), v);
      if v in MeshVertices(mesh) {
        assert VertexTable(mesh)[IndexOf(d, v)] == ToThreeMFVertex(v);
      }
      if ToThreeMFVertex(v) in VertexTable(mesh) {
        var k :| 0 <= k < |d| && VertexTable(mesh)[k] == ToThreeMFVertex(v);
        assert d[k] == v;
      }
    }
  }

  /** One index triple per input triangle, degenerate triangles included, and every index is a valid 0-based slot. */
  lemma TriangleIndicesInRange(mesh: seq<Triangle3>)
    ensures |TriangleIndices(mesh)| == |mesh|
    ensures forall i :: 0 <= i < |mesh| ==>
              var t := TriangleIndices(mesh)[i];
              && 0 <= t.v1 < |VertexTable(mesh)|
              && 0 <= t.v2 < |VertexTable(mesh)|
              && 0 <= t.v3 < |VertexTable(mesh)|
  {
    forall i | 0 <= i < |mesh|
      ensures var t := TriangleIndices(mesh)[i];
              && 0 <= t.v1 < |VertexTable(mesh)|
              && 0 <= t.v2 < |VertexTable(mesh)|
              && 0 <= t.v3 < |VertexTable(mesh)|
    {
      CornerInTable(mesh, i, 0);
      CornerInTable(mesh, i, 1);
      CornerInTable(mesh, i, 2);
    }
  }

  /** Winding is preserved: resolving each index triple through the table gives back the triangle's corners in order. */
  lemma WindingPreserved(mesh: seq<Triangle3>)
    ensures forall i :: 0 <= i < |mesh| ==>
              var t, table := TriangleIndices(mesh)[i], VertexTable(mesh);
              && 0 <= t.v1 < |table| && table[t.v1] == ToThreeMFVertex(mesh[i].v0)
              && 0 <= t.v2 < |table| && table[t.v2] == ToThreeMFVertex(mesh[i].v1)
              && 0 <= t.v3 < |table| && table[t.v3] == ToThreeMFVertex(mesh[i].v2)
  {
    forall i | 0 <= i < |mesh|
      ensures var t, table := TriangleIndices(mesh)[i], VertexTable(mesh);
              && 0 <= t.v1 < |table| && table[t.v1] == ToThreeMFVertex(mesh[i].v0)
              && 0 <= t.v2 < |table| && table[t.v2] == ToThreeMFVertex(mesh[i].v1)
              && 0 <= t.v3 < |table| && table[t.v3] == ToThreeMFVertex(mesh[i].v2)
    {
      CornerInTable(mesh, i, 0);
      CornerInTable(mesh, i, 1);
      CornerInTable(mesh, i, 2);
    }
  }

  /** Triangles appended later never change the index of a vertex already used. */
  lemma IndexStable(mesh: seq<Triangle3>, more: seq<Triangle3>, v: V3)
    requires v in MeshVertices(mesh)
    ensures IndexOf(DistinctVertices(mesh + more), v) == IndexOf(DistinctVertices(mesh), v)
  {
    FlattenElements(mesh);
    FlattenAppend(mesh, more);
    PositionStable(Flatten(mesh), Flatten(more), v);
  }

  /** An empty mesh gives an empty vertex table and an empty triangle list. */
  lemma EmptyMesh()
    ensures VertexTable([]) == [] && TriangleIndices([]) == []
  {
  }

  /**
   Two triangles sharing the edge a-c (a square split along its diagonal):
   four table entries in first-occurrence order, two index triples, and both
   triples use the indices of a and c.
   */
  lemma SharedEdge(a: V3, b: V3, c: V3, d: V3)
    requires a != b && a != c && a != d && b != c && b != d && c != d
    ensures var mesh := [Triangle3(a, b, c), Triangle3(a, c, d)];
            && VertexTable(mesh) == [ToThreeMFVertex(a), ToThreeMFVertex(b), ToThreeMFVertex(c), ToThreeMFVertex(d)]
            && TriangleIndices(mesh) == [ThreeMFTriangle(0, 1, 2), ThreeMFTriangle(0, 2, 3)]
  {
    var mesh := [Triangle3(a, b, c), Triangle3(a, c, d)];
    SharedEdgeTable(a, b, c, d);
    var table := [a, b, c, d];
    assert IndexOf(table, a) == 0;
    assert IndexOf(table, b) == 1 by { assert table[1..] == [b, c, d]; }
    assert IndexOf(table, c) == 2 by { assert table[1..][1..] == [c, d]; }
    assert IndexOf(table, d) == 3 by { assert table[1..][1..][1..] == [d]; }
  }

  /** The scan behind SharedEdge: corners a b c a c d leave the table a b c d. */
  lemma SharedEdgeTable(a: V3, b: V3, c: V3, d: V3)
    requires a != b && a != c && a != d && b != c && b != d && c != d
    ensures DistinctVertices([Triangle3(a, b, c), Triangle3(a, c, d)]) == [a, b, c, d]
  {
    var mesh := [Triangle3(a, b, c), Triangle3(a, c, d)];
    assert mesh[..1] == [Triangle3(a, b, c)] && mesh[..1][..0] == [];
    assert Flatten(mesh) == [a, b, c, a, c, d];
    SharedEdgeScan(a, b, c, d);
  }

  lemma SharedEdgeScan(a: V3, b: V3, c: V3, d: V3)
    requires a != b && a != c && a != d && b != c && b != d && c != d
    ensures FirstOccurrences([a, b, c, a, c, d]) == [a, b, c, d]
  {
    var s3 := [a, b, c];
    ScanDistinctThree(a, b, c);
    var s4 := s3 + [a];
    var s5 := s4 + [c];
    FirstOccurrencesStep(s3, a);
    FirstOccurrencesStep(s4, c);
    FirstOccurrencesStep(s5, d);
    assert s5 + [d] == [a, b, c, a, c, d];
  }

  /** Three distinct positions are entered in order. */
  lemma ScanDistinctThree(a: V3, b: V3, c: V3)
    requires a != b && a != c && b != c
    ensures FirstOccurrences([a, b, c]) == [a, b, c]
  {
    FirstOccurrencesStep([], a);
    assert [] + [a] == [a];
    FirstOccurrencesStep([a], b);
    FirstOccurrencesStep([a, b], c);
    assert [a, b] + [c] == [a, b, c];
  }

  // ---------------------------------------------------------------------
  // Map facts used by the loops

  /** The index map of a repetition-free table assigns the slots 0 .. n-1, each to exactly one vertex. */
  lemma IndexesDense(m: map<V3, int>, d: seq<V3>)
    requires Indexes(m, d)
    ensures forall k :: k in m.Values <==> 0 <= k < |m|
    ensures forall v, w :: v in m && w in m && m[v] == m[w] ==> v == w
  {
    IndexesDistinct(m, d);
    forall k | 0 <= k < |m|
      ensures k in m.Values
    {
      assert d[k] in m;
      assert d[m[d[k]]] == d[k];
    }
  }

  /** Reading the index map gives a vertex's position in the table. */
  lemma LookupIndexOf(m: map<V3, int>, d: seq<V3>, v: V3)
    requires Indexes(m, d) && v in d
    ensures Lookup(m, v) == IndexOf(d, v)
  {
    IndexesDistinct(m, d);
  }

  /**
   A position outside the table reads as index 0, which for a non-empty table
   is the slot of its first vertex: a miss is indistinguishable from a hit.
   */
  lemma LookupMiss(m: map<V3, int>, d: seq<V3>, v: V3)
    requires Indexes(m, d) && v !in d
    ensures Lookup(m, v) == 0
    ensures d != [] ==> Lookup(m, v) == m[d[0]]
  {
    if d != [] {
      IndexesDistinct(m, d);
      assert d[0] in m;
      assert d[m[d[0]]] == d[0];
    }
  }

  /** An index map is only possible for a table without repetitions. */
  lemma IndexesDistinct(m: map<V3, int>, d: seq<V3>)
    requires Indexes(m, d)
    ensures Distinct(d)
  {
    assert m.Keys == Elements(d);
    ElementsBound(d);
  }

  // ---------------------------------------------------------------------
  // The three loops of Save3MF

  /**
   Lines 65-73: visit every corner of every triangle in input order and give
   each position not seen before the next index, the map's current size.
   The resulting map is the inverse of the first-occurrence table.
   */
  method AssignIndices(mesh: seq<Triangle3>) returns (vertices: map<V3, int>)
    ensures Indexes(vertices, DistinctVertices(mesh))
  {
    vertices := map[];
    ghost var seen: seq<V3> := [];
    for i := 0 to |mesh|
      invariant seen == FirstOccurrences(Flatten(mesh[..i]))
      invariant Indexes(vertices, seen)
    {
      var t := mesh[i];
      ghost var before := Flatten(mesh[..i]);
      assert before + Corners(t)[..0] == before;
      for j := 0 to 3
        invariant seen == FirstOccurrences(before + Corners(t)[..j])
        invariant Indexes(vertices, seen)
      {
        var v := Corners(t)[j];
        ScanCorner(before, Corners(t), j);
        if v in vertices {
          continue;
        }
        IndexesSnoc(vertices, seen, v);
        vertices := vertices[v := |vertices|];
        seen := seen + [v];
      }
      FlattenNext(mesh, i);
    }
    assert mesh[..|mesh|] == mesh;
  }

  /** Scanning corner `j` of a triangle extends the scan of the corners before it by one step. */
  lemma ScanCorner(before: seq<V3>, corners: seq<V3>, j: nat)
    requires j < |corners|
    ensures FirstOccurrences(before + corners[..j + 1]) ==
            var seen := FirstOccurrences(before + corners[..j]);
            if corners[j] in seen then seen else seen + [corners[j]]
  {
    assert before + corners[..j + 1] == (before + corners[..j]) + [corners[j]];
    FirstOccurrencesStep(before + corners[..j], corners[j]);
  }

  /** Giving a new position the next index, the map's size, keeps the map the inverse of the extended table. */
  lemma IndexesSnoc(m: map<V3, int>, d: seq<V3>, v: V3)
    requires Indexes(m, d) && v !in m
    ensures Indexes(m[v := |m|], d + [v])
  {
  }

  /** The references of the first `i + 1` triangles are those of the first `i` followed by the corners of triangle `i`. */
  lemma FlattenNext(mesh: seq<Triangle3>, i: nat)
    requires i < |mesh|
    ensures Flatten(mesh[..i + 1]) == Flatten(mesh[..i]) + Corners(mesh[i])[..3]
  {
    assert mesh[..i + 1][..i] == mesh[..i];
    assert Corners(mesh[i])[..3] == Corners(mesh[i]);
  }

  /**
   Lines 74-77: allocate a table with one slot per map entry and, visiting
   the map in any order, write each vertex into the slot of its index. Given
   the map built by AssignIndices, the table is the first-occurrence table.
   */
  method BuildVertexTable(vertices: map<V3, int>, ghost order: seq<V3>) returns (outputVertices: array<ThreeMFVertex>)
    requires Indexes(vertices, order)
    ensures fresh(outputVertices)
    ensures outputVertices[..] == ToThreeMFVertices(order)
  {
    IndexesDistinct(vertices, order);
    outputVertices := new ThreeMFVertex[|vertices|];
    var pending := vertices.Keys;
    while pending != {}
      invariant pending <= vertices.Keys
      invariant forall k :: 0 <= k < |order| && order[k] !in pending ==>
                  outputVertices[k] == ToThreeMFVertex(order[k])
      decreases pending
    {
      var v :| v in pending;
      var i := vertices[v];
      outputVertices[i] := ToThreeMFVertex(v);
      pending := pending - {v};
    }
  }

  /**
   Lines 80-85: allocate one triple per triangle and fill it with the map's
   indices of the corners V[0], V[1], V[2], in that order.
   */
  method RemapTriangles(mesh: seq<Triangle3>, vertices: map<V3, int>) returns (outputTriangles: array<ThreeMFTriangle>)
    ensures fresh(outputTriangles)
    ensures outputTriangles.Length == |mesh|
    ensures forall i :: 0 <= i < |mesh| ==>
              && outputTriangles[i].v1 == Lookup(vertices, mesh[i].v0)
              && outputTriangles[i].v2 == Lookup(vertices, mesh[i].v1)
              && outputTriangles[i].v3 == Lookup(vertices, mesh[i].v2)
  {
    outputTriangles := new ThreeMFTriangle[|mesh|];
    for i := 0 to |mesh|
      invariant forall n :: 0 <= n < i ==>
                  && outputTriangles[n].v1 == Lookup(vertices, mesh[n].v0)
                  && outputTriangles[n].v2 == Lookup(vertices, mesh[n].v1)
                  && outputTriangles[n].v3 == Lookup(vertices, mesh[n].v2)
    {
      var t := mesh[i];
      outputTriangles[i] := outputTriangles[i].(v1 := Lookup(vertices, t.v0));
      outputTriangles[i] := outputTriangles[i].(v2 := Lookup(vertices, t.v1));
      outputTriangles[i] := outputTriangles[i].(v3 := Lookup(vertices, t.v2));
    }
  }

  /** With the map built by AssignIndices, RemapTriangles produces exactly the specified triangle list. */
  lemma RemapMatchesSpec(mesh: seq<Triangle3>, vertices: map<V3, int>, out: seq<ThreeMFTriangle>)
    requires Indexes(vertices, DistinctVertices(mesh))
    requires |out| == |mesh|
    requires forall i :: 0 <= i < |mesh| ==>
               && out[i].v1 == Lookup(vertices, mesh[i].v0)
               && out[i].v2 == Lookup(vertices, mesh[i].v1)
               && out[i].v3 == Lookup(vertices, mesh[i].v2)
    ensures out == TriangleIndices(mesh)
  {
    var d := DistinctVertices(mesh);
    forall i | 0 <= i < |mesh|
      ensures out[i] == TriangleIndices(mesh)[i]
    {
      CornerInTable(mesh, i, 0);
      CornerInTable(mesh, i, 1);
      CornerInTable(mesh, i, 2);
      LookupIndexOf(vertices, d, mesh[i].v0);
      LookupIndexOf(vertices, d, mesh[i].v1);
      LookupIndexOf(vertices, d, mesh[i].v2);
    }
  }

  // ---------------------------------------------------------------------
  // The document

  const Lang := "en-US"
  const CoreNamespace := "http://schemas.microsoft.com/3dmanufacturing/core/2015/02"
  const ObjectId := "1"

  /** The values the 3MF core schema admits for a model's `unit` attribute (its ST_Unit type). */
  const Units: set<string> := {"micron", "millimeter", "centimeter", "inch", "foot", "meter"}

  /** Every triangle index names a slot of the mesh's own vertex table. */
  predicate IndicesInRange(m: ThreeMFMesh)
  {
    forall t :: t in m.triangles ==>
      && 0 <= t.v1 < |m.vertices|
      && 0 <= t.v2 < |m.vertices|
      && 0 <= t.v3 < |m.vertices|
  }

  /**
   What a 3MF core consumer needs of a model apart from its unit: the core
   namespace, every build item naming an object of the resources, and every
   triangle index in range of its mesh.
   */
  ghost predicate Consistent(m: ThreeMFModel)
  {
    && m.schema == CoreNamespace
    && (forall item :: item in m.build ==> exists o :: o in m.resources && o.id == item.objectId)
    && (forall o :: o in m.resources ==> IndicesInRange(o.mesh))
  }

  /** A consistent model whose unit is one the schema admits. */
  ghost predicate WellFormed(m: ThreeMFModel)
  {
    Consistent(m) && m.unit in Units
  }

  /** The fixed document shape around one mesh: one object "1" of type "model" and one build item for it. */
  function Document(unit: string, vertices: seq<ThreeMFVertex>, triangles: seq<ThreeMFTriangle>): (m: ThreeMFModel)
    ensures |m.resources| == 1 && |m.build| == 1
    ensures m.build[0].objectId == m.resources[0].id
    ensures m.resources[0].mesh.vertices == vertices && m.resources[0].mesh.triangles == triangles
  {
    ThreeMFModel(
      Lang, CoreNamespace, unit,
      [ThreeMFObject(ObjectId, "model", ThreeMFMesh(vertices, triangles))],
      [ThreeMFItem(ObjectId)])
  }

  /** The document with the unit spelled as the schema requires for millimetres. */
  function NewModel(vertices: seq<ThreeMFVertex>, triangles: seq<ThreeMFTriangle>): ThreeMFModel
  {
    Document("millimeter", vertices, triangles)
  }

  /**
   The document literal of lines 89-101 as written: language "en-US", the
   core namespace, unit "mm", one object "1" of type "model" holding the
   mesh, and one build item for object "1".
   */
  function NewModelAsWritten(vertices: seq<ThreeMFVertex>, triangles: seq<ThreeMFTriangle>): ThreeMFModel
  {
    Document("mm", vertices, triangles)
  }

  /** The document around a mesh whose indices are in range is consistent, whatever its unit. */
  lemma DocumentConsistent(unit: string, vertices: seq<ThreeMFVertex>, triangles: seq<ThreeMFTriangle>)
    requires IndicesInRange(ThreeMFMesh(vertices, triangles))
    ensures Consistent(Document(unit, vertices, triangles))
  {
    var m := Document(unit, vertices, triangles);
    assert m.resources[0] in m.resources;
  }

  /** The as-written document is rejected by the schema's unit type, whatever the mesh. */
  lemma AsWrittenUnitRejected(vertices: seq<ThreeMFVertex>, triangles: seq<ThreeMFTriangle>)
    ensures !WellFormed(NewModelAsWritten(vertices, triangles))
  {
    assert "mm" != "millimeter";
  }

  /** The corrected document is well formed whenever its triangle indices are in range. */
  lemma NewModelWellFormed(vertices: seq<ThreeMFVertex>, triangles: seq<ThreeMFTriangle>)
    requires IndicesInRange(ThreeMFMesh(vertices, triangles))
    ensures WellFormed(NewModel(vertices, triangles))
  {
    DocumentConsistent("millimeter", vertices, triangles);
  }

  /** The indexed mesh of any input has every triangle index in range of its own vertex table. */
  lemma MeshIndicesInRange(mesh: seq<Triangle3>)
    ensures IndicesInRange(ThreeMFMesh(VertexTable(mesh), TriangleIndices(mesh)))
  {
    TriangleIndicesInRange(mesh);
    var m := ThreeMFMesh(VertexTable(mesh), TriangleIndices(mesh));
    forall t | t in m.triangles
      ensures 0 <= t.v1 < |m.vertices| && 0 <= t.v2 < |m.vertices| && 0 <= t.v3 < |m.vertices|
    {
      var i :| 0 <= i < |mesh| && TriangleIndices(mesh)[i] == t;
    }
  }

  /**
   The document the exporter writes for any mesh is consistent: core
   namespace, its one build item resolving to its one object, every index in
   range. For an empty mesh it is the fixed literal with empty sections.
   */
  lemma AsWrittenDocumentConsistent(mesh: seq<Triangle3>)
    ensures Consistent(NewModelAsWritten(VertexTable(mesh), TriangleIndices(mesh)))
    ensures mesh == [] ==>
              NewModelAsWritten(VertexTable(mesh), TriangleIndices(mesh)) ==
              ThreeMFModel("en-US", CoreNamespace, "mm",
                           [ThreeMFObject("1", "model", ThreeMFMesh([], []))], [ThreeMFItem("1")])
  {
    MeshIndicesInRange(mesh);
    DocumentConsistent("mm", VertexTable(mesh), TriangleIndices(mesh));
  }

  /** With the corrected unit, the document the exporter writes for any mesh is well formed. */
  lemma CorrectedDocumentWellFormed(mesh: seq<Triangle3>)
    ensures WellFormed(NewModel(VertexTable(mesh), TriangleIndices(mesh)))
  {
    MeshIndicesInRange(mesh);
    NewModelWellFormed(VertexTable(mesh), TriangleIndices(mesh));
  }

  // ---------------------------------------------------------------------
  // Save3MF

  /** An error reported by the operating system or the encoder. */
  datatype IoError = IoError(message: string)

  /**
   What the environment answers at each step of an export: creating the
   file, encoding the document into the buffer, and flushing the buffer.
   */
  datatype Sink = Sink(create: Option<IoError>, encode: Option<IoError>, flush: Option<IoError>)

  /**
   Save3MF: a failed create returns at once, before any work; otherwise the
   mesh is indexed and the document handed to the encoder; a failed encode
   returns without flushing; otherwise the flush's outcome is the result.
   `encoded` is the document handed to the encoder and `flushed` whether the
   buffer was flushed.
   */
  method Save3MF(mesh: seq<Triangle3>, sink: Sink) returns (err: Option<IoError>, encoded: Option<ThreeMFModel>, flushed: bool)
    ensures sink.create.Some? ==> err == sink.create && encoded == None && !flushed
    ensures sink.create.None? ==> encoded == Some(NewModelAsWritten(VertexTable(mesh), TriangleIndices(mesh)))
    ensures sink.create.None? && sink.encode.Some? ==> err == sink.encode && !flushed
    ensures sink.create.None? && sink.encode.None? ==> err == sink.flush && flushed
    ensures encoded.Some? ==> Consistent(encoded.value) && encoded.value.unit == "mm"
  {
    if sink.create.Some? {
      return sink.create, None, false;
    }
    var vertices := AssignIndices(mesh);
    var outputVertices := BuildVertexTable(vertices, DistinctVertices(mesh));
    var outputTriangles := RemapTriangles(mesh, vertices);
    RemapMatchesSpec(mesh, vertices, outputTriangles[..]);
    AsWrittenDocumentConsistent(mesh);
    encoded := Some(NewModelAsWritten(outputVertices[..], outputTriangles[..]));
    if sink.encode.Some? {
      return sink.encode, encoded, false;
    }
    return sink.flush, encoded, true;
  }
}
