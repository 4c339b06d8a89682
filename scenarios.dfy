/** Worked cases of addGeometry on small inputs: a lone triangle, a square with
    a square hole, a run of triangles sharing one triangle group, the polygon one
    vertex too long, and a polygon whose rings are all empty. */
module Scenarios {
  import opened Geometry
  import opened Groups
  import opened FillMesh

  /** hole limiting that leaves the polygon as it is (true of every polygon with at
      most 500 holes). */
  function KeepHoles(p: Polygon, maxHoles: nat): Polygon
  {
    p
  }

  lemma OneRing(ring: Ring)
    ensures TotalVertices([ring]) == |ring| && Flatten([ring]) == ring
  {
    assert [ring][..0] == [];
  }

  lemma TwoRings(outer: Ring, hole: Ring)
    ensures TotalVertices([outer, hole]) == |outer| + |hole| && Flatten([outer, hole]) == outer + hole
  {
    assert [outer, hole][..1] == [outer];
    OneRing(outer);
  }

  /** Appending to a bucket with at most one group that still has room. */
  lemma AppendToSingle(gs: seq<Group>, v: nat, e: nat, n: nat, de: nat)
    requires (gs == [] && v == 0 && e == 0) || gs == [Group(v, e)]
    requires v + n <= MaxGroupVertices
    ensures Append(gs, n, de) == [Group(v + n, e + de)]
  {
  }

  /** While the running vertex count of the only line group stays within 65535,
      every non-empty ring lands in that same group. */
  lemma {:induction false} RingsShareLineGroup(m: Mesh, rings: Polygon, v: nat)
    requires (m.lineGroups == [] && v == 0) || m.lineGroups == [Group(v, v)]
    requires v + TotalVertices(rings) <= MaxGroupVertices
    ensures var r := WithRings(m, rings).lineGroups;
      && (v + TotalVertices(rings) == 0 ==> r == m.lineGroups)
      && (v + TotalVertices(rings) > 0 ==> r == [Group(v + TotalVertices(rings), v + TotalVertices(rings))])
  {
    if rings != [] {
      var init := rings[..|rings| - 1];
      var ring := LastRing(rings);
      RingsShareLineGroup(m, init, v);
      var mi := WithRings(m, init);
      var w := v + TotalVertices(init);
      if ring != [] {
        AppendToSingle(mi.lineGroups, w, w, |ring|, |ring|);
      }
    }
  }

  /** A polygon whose rings are all empty emits no vertex, no segment and no
      triangle, yet still opens a triangle group on an empty bucket: hasData then
      holds for a bucket without any vertex. */
  lemma EmptyRingsOpenTriangleGroup(p: Polygon)
    requires TotalVertices(p) == 0
    ensures IsTriangulation(p, [])
    ensures WithPolygon(EmptyMesh, p, []) == Mesh([], [], [], [], [Group(0, 0)])
  {
    RingsShareLineGroup(EmptyMesh, p, 0);
    WithRingsValid(EmptyMesh, p);
    PolygonTriangleGroups(EmptyMesh, p, []);
    var mr := WithRings(EmptyMesh, p);
    WithTrianglesValid(mr, 0, []);
  }

  /** A lone triangle: three vertices, its closing loop (2,0), (0,1), (1,2) in one
      line group of 3 vertices and 3 segments, and the one triple of the
      triangulation in one triangle group of 3 vertices and 1 triangle. */
  lemma SingleTriangle(a: Vertex, b: Vertex, c: Vertex, indices: seq<nat>)
    requires IsTriangulation([[a, b, c]], indices) && |indices| == 3
    ensures var m := WithPolygon(EmptyMesh, [[a, b, c]], indices);
      && m.vertices == [a, b, c]
      && m.lines == [Segment(2, 0), Segment(0, 1), Segment(1, 2)]
      && m.triangles == [Triangle(indices[0], indices[1], indices[2])]
      && m.lineGroups == [Group(3, 3)]
      && m.triangleGroups == [Group(3, 1)]
  {
    var p := [[a, b, c]];
    assert p[..0] == [];
    assert TotalVertices(p) == 3;
    var mr := WithRings(EmptyMesh, p);
    assert WithRings(EmptyMesh, p[..0]) == EmptyMesh;
    assert mr == WithRing(EmptyMesh, [a, b, c]);
    RingLoopClosed(0, 3);
    var loop := RingLoop(0, 3);
    assert loop == [Segment(2, 0), Segment(0, 1), Segment(1, 2)];
    var t := Remapped(0, indices);
    assert t == [Triangle(indices[0], indices[1], indices[2])];
  }

  /** The first polygon of a bucket: all its rings share one line group, all its
      triangles one triangle group, and its vertices are its rings end to end. */
  lemma FirstPolygon(p: Polygon, indices: seq<nat>)
    requires 0 < TotalVertices(p) <= MaxGroupVertices && IsTriangulation(p, indices)
    ensures var m := WithPolygon(EmptyMesh, p, indices);
      && m.vertices == Flatten(p)
      && |m.lines| == TotalVertices(p)
      && m.lineGroups == [Group(TotalVertices(p), TotalVertices(p))]
      && m.triangleGroups == [Group(TotalVertices(p), |indices| / 3)]
  {
    RingsShareLineGroup(EmptyMesh, p, 0);
    WithRingsValid(EmptyMesh, p);
    var mr := WithRings(EmptyMesh, p);
    WithTrianglesValid(mr, TotalVertices(p), indices);
    PolygonTriangleGroups(EmptyMesh, p, indices);
  }

  /** A square with a square hole: both rings share one line group of 8 vertices
      and 8 segments, the vertices are the outer ring followed by the hole, and the
      whole triangulation goes into one triangle group of 8 vertices. */
  lemma SquareWithHole(outer: Ring, hole: Ring, indices: seq<nat>)
    requires |outer| == 4 && |hole| == 4 && IsTriangulation([outer, hole], indices)
    ensures assert [outer, hole][..1] == [outer] && [outer][..0] == [] && TotalVertices([outer]) == 4;
      var m := WithPolygon(EmptyMesh, [outer, hole], indices);
      && m.vertices == outer + hole
      && |m.lines| == 8
      && m.lineGroups == [Group(8, 8)]
      && m.triangleGroups == [Group(8, |indices| / 3)]
  {
    TwoRings(outer, hole);
    FirstPolygon([outer, hole], indices);
  }

  /** Each polygon is a single ring of three vertices. */
  ghost predicate AllTriangles(polygons: seq<Polygon>)
  {
    forall j :: 0 <= j < |polygons| ==> |polygons[j]| == 1 && |polygons[j][0]| == 3
  }

  /** Consecutive triangles keep filling the same triangle group as long as the
      running vertex count stays within 65535: the group boundary is crossed by
      the vertex count, not by the number of triangles. */
  lemma {:induction false} TrianglesShareTriangleGroup(m: Mesh, polygons: seq<Polygon>, earcut: Polygon -> seq<nat>, v: nat, e: nat)
    requires EarcutContract(earcut) && AllTriangles(polygons)
    requires (m.triangleGroups == [] && v == 0 && e == 0) || m.triangleGroups == [Group(v, e)]
    requires v + 3 * |polygons| <= MaxGroupVertices
    ensures var r := WithGeometry(m, polygons, KeepHoles, earcut);
      && r.1 == Done
      && (polygons != [] ==> |r.0.triangleGroups| == 1 && r.0.triangleGroups[0].vertexLength == v + 3 * |polygons|)
    decreases |polygons|
  {
    if polygons != [] {
      var p := polygons[0];
      assert p == [p[0]];
      OneRing(p[0]);
      var indices := earcut(p);
      var m1 := WithPolygon(m, p, indices);
      PolygonTriangleGroups(m, p, indices);
      AppendToSingle(m.triangleGroups, v, e, 3, |indices| / 3);
      var rest := polygons[1..];
      assert forall j :: 0 <= j < |rest| ==> rest[j] == polygons[j + 1];
      TrianglesShareTriangleGroup(m1, rest, earcut, v + 3, e + |indices| / 3);
    }
  }

  /** 20,000 triangles added one polygon at a time (60,000 vertices) fit in a
      single triangle group. */
  lemma TwentyThousandTriangles(polygons: seq<Polygon>, earcut: Polygon -> seq<nat>)
    requires EarcutContract(earcut) && AllTriangles(polygons) && |polygons| == 20000
    ensures var r := WithGeometry(EmptyMesh, polygons, KeepHoles, earcut);
      r.1 == Done && |r.0.triangleGroups| == 1 && r.0.triangleGroups[0].vertexLength == 60000
  {
    TrianglesShareTriangleGroup(EmptyMesh, polygons, earcut, 0, 0);
  }

  /** The same 20,000 triangles spread over two addGeometry calls on one bucket:
      both calls end normally and the bucket still has a single triangle group. */
  lemma TwentyThousandTrianglesInTwoCalls(a: seq<Polygon>, b: seq<Polygon>, earcut: Polygon -> seq<nat>)
    requires EarcutContract(earcut) && AllTriangles(a + b) && |a| + |b| == 20000
    ensures var r1 := WithGeometry(EmptyMesh, a, KeepHoles, earcut);
      && r1.1 == Done
      && var r2 := WithGeometry(r1.0, b, KeepHoles, earcut);
      && r2.1 == Done && |r2.0.triangleGroups| == 1 && r2.0.triangleGroups[0].vertexLength == 60000
  {
    assert forall j :: 0 <= j < |a| ==> a[j] == (a + b)[j];
    TrianglesShareTriangleGroup(EmptyMesh, a, earcut, 0, 0);
    WithGeometryConcat(EmptyMesh, a, b, KeepHoles, earcut);
    TwentyThousandTriangles(a + b, earcut);
  }

  /** Once the only triangle group holds 65535 vertices, the next triangle opens a
      second group, whose vertices start at 0 again. */
  lemma TriangleGroupOverflow(m: Mesh, a: Vertex, b: Vertex, c: Vertex, indices: seq<nat>, e: nat)
    requires m.triangleGroups == [Group(65535, e)]
    requires IsTriangulation([[a, b, c]], indices)
    ensures WithPolygon(m, [[a, b, c]], indices).triangleGroups == [Group(65535, e), Group(3, |indices| / 3)]
  {
    OneRing([a, b, c]);
    PolygonTriangleGroups(m, [[a, b, c]], indices);
    AppendAccounting(m.triangleGroups, 3, |indices| / 3);
  }

  /** A polygon of 65536 vertices is rejected before anything is emitted: the
      call ends with GeometryTooLong and the mesh is exactly as before, whatever
      polygons follow it. */
  lemma OneVertexTooMany(m: Mesh, ring: Ring, rest: seq<Polygon>, earcut: Polygon -> seq<nat>)
    requires EarcutContract(earcut) && |ring| == 65536
    ensures WithGeometry(m, [[ring]] + rest, KeepHoles, earcut) == (m, GeometryTooLong)
  {
    assert ([[ring]] + rest)[0] == [ring];
    OneRing(ring);
  }
}
