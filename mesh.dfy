/** The bucket's mesh as a value, and what addGeometry does to it, one ring,
    one polygon and one feature at a time. The class in module Bucket performs
    these steps in place; the lemmas here state what they guarantee. */
module FillMesh {
  import opened Geometry
  import opened Groups

  /** gl::Line: two 16-bit indices, relative to the start of the owning line group. */
  datatype Segment = Segment(from: Index16, to: Index16)

  /** gl::Triangle: three 16-bit indices, relative to the start of the owning triangle group. */
  datatype Triangle = Triangle(a: Index16, b: Index16, c: Index16)

  /** Largest vertex index a segment uses. */
  function SegmentTop(s: Segment): int
  {
    if s.from < s.to then s.to else s.from
  }

  /** Largest vertex index a triangle uses. */
  function TriangleTop(t: Triangle): int
  {
    if t.a < t.b then (if t.b < t.c then t.c else t.b)
    else (if t.a < t.c then t.c else t.a)
  }

  /** How addGeometry ends: normally, or by GeometryTooLongException. */
  datatype Outcome = Done | GeometryTooLong

  /** The five member vectors of a FillBucket. */
  datatype Mesh = Mesh(
    vertices: seq<Vertex>,
    lines: seq<Segment>,
    triangles: seq<Triangle>,
    lineGroups: seq<Group>,
    triangleGroups: seq<Group>)
  {
    /** The line groups partition the whole vertex array and the whole line array,
        and every segment stays inside its own group, which holds at most 65535 vertices. */
    ghost predicate LinesValid()
    {
      Bounded(lineGroups) && SumVertices(lineGroups) == |vertices| && Within(lineGroups, lines, SegmentTop)
    }

    /** The same for the triangle groups over the vertex and triangle arrays. */
    ghost predicate TrianglesValid()
    {
      Bounded(triangleGroups) && SumVertices(triangleGroups) == |vertices| && Within(triangleGroups, triangles, TriangleTop)
    }

    ghost predicate Valid()
    {
      LinesValid() && TrianglesValid()
    }
  }

  const EmptyMesh: Mesh := Mesh([], [], [], [], [])

  /** Position of the vertex before i around a ring of n vertices: i follows r,
      wrapping from n - 1 back to 0. */
  function Pred(i: nat, n: nat): (r: nat)
    requires i < n
    ensures r < n && (r + 1 == i || r + 1 == i + n)
  {
    if i == 0 then n - 1 else i - 1
  }

  /** The closed loop through vertices base, ..., base+n-1: segment i ends at
      vertex base+i and starts at the vertex before it around the ring. */
  ghost function RingLoop(base: nat, n: nat): seq<Segment>
    requires 0 < n && base + n <= MaxGroupVertices
  {
    seq(n, i requires 0 <= i < n => Segment(base + Pred(i, n), base + i))
  }

  /** One ring of a polygon: its vertices are appended, its closed loop of
      segments goes into a line group with room for all of it, and an empty ring
      changes nothing. */
  ghost function WithRing(m: Mesh, ring: Ring): Mesh
    requires |ring| <= MaxGroupVertices
  {
    if ring == [] then m
    else
      var n := |ring|;
      var base := LastGroup(Reserve(m.lineGroups, n)).vertexLength;
      m.(vertices := m.vertices + ring,
         lines := m.lines + RingLoop(base, n),
         lineGroups := Append(m.lineGroups, n, n))
  }

  /** All rings of a polygon, in order. */
  ghost function WithRings(m: Mesh, rings: Polygon): Mesh
    requires TotalVertices(rings) <= MaxGroupVertices
  {
    if rings == [] then m
    else WithRing(WithRings(m, rings[..|rings| - 1]), LastRing(rings))
  }

  /** The triangulation's triples, each index shifted by the group-relative base. */
  ghost function Remapped(base: nat, indices: seq<nat>): seq<Triangle>
    requires |indices| % 3 == 0
    requires forall i :: 0 <= i < |indices| ==> base + indices[i] < 0x1_0000
  {
    seq(|indices| / 3, k requires 0 <= k < |indices| / 3 =>
      Triangle(base + indices[3 * k], base + indices[3 * k + 1], base + indices[3 * k + 2]))
  }

  /** The triangles of one polygon, all placed in one triangle group with room for
      the polygon's total vertex count. */
  ghost function WithTriangles(m: Mesh, total: nat, indices: seq<nat>): Mesh
    requires total <= MaxGroupVertices
    requires |indices| % 3 == 0 && forall i :: 0 <= i < |indices| ==> indices[i] < total
  {
    var base := LastGroup(Reserve(m.triangleGroups, total)).vertexLength;
    m.(triangles := m.triangles + Remapped(base, indices),
       triangleGroups := Append(m.triangleGroups, total, |indices| / 3))
  }

  /** WithTriangles field by field: the triples go after the old ones, and the
      reserved group's last entry grows by the polygon's vertices and triangles. */
  lemma WithTrianglesShape(m: Mesh, total: nat, indices: seq<nat>)
    requires total <= MaxGroupVertices
    requires |indices| % 3 == 0 && forall i :: 0 <= i < |indices| ==> indices[i] < total
    ensures var r := Reserve(m.triangleGroups, total);
      var g := r[|r| - 1];
      WithTriangles(m, total, indices)
        == m.(triangles := m.triangles + Remapped(g.vertexLength, indices),
              triangleGroups := r[|r| - 1 := Group(g.vertexLength + total, g.elementsLength + |indices| / 3)])
  {
  }

  /** One accepted polygon: its rings, then its triangles. */
  ghost function WithPolygon(m: Mesh, p: Polygon, indices: seq<nat>): Mesh
    requires TotalVertices(p) <= MaxGroupVertices && IsTriangulation(p, indices)
  {
    WithTriangles(WithRings(m, p), TotalVertices(p), indices)
  }

  /** One addGeometry call over the classified polygons: each polygon is hole-limited
      and checked; the first one with more than 65535 vertices ends the call with
      GeometryTooLong, keeping what the polygons before it added. */
  ghost function WithGeometry(m: Mesh, polygons: seq<Polygon>, limitHoles: (Polygon, nat) -> Polygon,
                              earcut: Polygon -> seq<nat>): (Mesh, Outcome)
    requires EarcutContract(earcut)
    decreases |polygons|
  {
    if polygons == [] then (m, Done)
    else
      var p := limitHoles(polygons[0], MaxHoles);
      if TotalVertices(p) > MaxGroupVertices then (m, GeometryTooLong)
      else WithGeometry(WithPolygon(m, p, earcut(p)), polygons[1..], limitHoles, earcut)
  }

  // ---------------------------------------------------------------------------
  // Rings and line groups

  /** The segments of a ring close up: the first joins the last vertex to the first,
      each later one joins a vertex to its successor, and every vertex ends one
      segment and starts the next around the ring. */
  lemma RingLoopClosed(base: nat, n: nat)
    requires 0 < n && base + n <= MaxGroupVertices
    ensures var r := RingLoop(base, n);
      && |r| == n
      && r[0] == Segment(base + n - 1, base)
      && (forall i :: 1 <= i < n ==> r[i] == Segment(base + i - 1, base + i))
      && (forall i :: 0 <= i < n ==> r[i].to == base + i)
      && (forall i :: 0 <= i < n ==> r[i].from == r[Pred(i, n)].to)
  {
  }

  /** The loop is emitted in order: the closing segment first, then (base+i-1, base+i). */
  lemma RingLoopPrefix(base: nat, n: nat, i: nat)
    requires 0 < i <= n && base + n <= MaxGroupVertices
    ensures RingLoop(base, n)[..1] == [Segment(base + n - 1, base)]
    ensures i < n ==> RingLoop(base, n)[..i + 1] == RingLoop(base, n)[..i] + [Segment(base + i - 1, base + i)]
    ensures RingLoop(base, n)[..n] == RingLoop(base, n)
  {
    var r := RingLoop(base, n);
    if i < n {
      assert r[..i + 1] == r[..i] + [r[i]];
    }
  }

  /** WithRing on a non-empty ring, field by field: the ring's vertices and its loop
      go after the old ones, and the reserved group's last entry grows by n. */
  lemma WithRingShape(m: Mesh, ring: Ring)
    requires 0 < |ring| <= MaxGroupVertices
    ensures var r := Reserve(m.lineGroups, |ring|);
      var g := r[|r| - 1];
      WithRing(m, ring)
        == m.(vertices := m.vertices + ring,
              lines := m.lines + RingLoop(g.vertexLength, |ring|),
              lineGroups := r[|r| - 1 := Group(g.vertexLength + |ring|, g.elementsLength + |ring|)])
  {
  }

  /** A ring of n vertices appends n vertices and n segments, keeps the line
      invariant, and leaves the triangle side alone. */
  lemma {:induction false} WithRingValid(m: Mesh, ring: Ring)
    requires m.LinesValid() && |ring| <= MaxGroupVertices
    ensures var m' := WithRing(m, ring);
      && m'.LinesValid()
      && m'.vertices == m.vertices + ring
      && |m'.lines| == |m.lines| + |ring| && m.lines <= m'.lines
      && m'.triangles == m.triangles && m'.triangleGroups == m.triangleGroups
  {
    if ring != [] {
      var n := |ring|;
      var base := LastGroup(Reserve(m.lineGroups, n)).vertexLength;
      var loop := RingLoop(base, n);
      AppendAccounting(m.lineGroups, n, n);
      assert forall j :: 0 <= j < |loop| ==> SegmentTop(loop[j]) < base + n;
      WithinAppend(m.lineGroups, m.lines, SegmentTop, n, loop);
    }
  }

  /** Read through the start of its line group, every segment of a non-empty
      ring joins the vertex emitted before it around the ring to its own vertex,
      in the global vertex array: the segments index the ring's own vertices. */
  lemma RingSegmentsAddressRing(m: Mesh, ring: Ring)
    requires SumVertices(m.lineGroups) == |m.vertices| && 0 < |ring| <= MaxGroupVertices
    ensures var m' := WithRing(m, ring);
      var base := SumVertices(m'.lineGroups[..|m'.lineGroups| - 1]);
      && |m'.lines| == |m.lines| + |ring|
      && forall i :: 0 <= i < |ring| ==>
           var s := m'.lines[|m.lines| + i];
           && base + s.from < |m'.vertices| && base + s.to < |m'.vertices|
           && m'.vertices[base + s.to] == ring[i]
           && m'.vertices[base + s.from] == ring[Pred(i, |ring|)]
  {
    var n := |ring|;
    var m' := WithRing(m, ring);
    var lineIndex := LastGroup(Reserve(m.lineGroups, n)).vertexLength;
    var base := SumVertices(m'.lineGroups[..|m'.lineGroups| - 1]);
    AppendBase(m.lineGroups, n, n);
    assert base + lineIndex == |m.vertices|;
    assert m'.vertices == m.vertices + ring;
    var loop := RingLoop(lineIndex, n);
    assert m'.lines == m.lines + loop;
    forall i | 0 <= i < n
      ensures var s := m'.lines[|m.lines| + i];
        && base + s.from < |m'.vertices| && base + s.to < |m'.vertices|
        && m'.vertices[base + s.to] == ring[i]
        && m'.vertices[base + s.from] == ring[Pred(i, n)]
    {
      var s := m'.lines[|m.lines| + i];
      assert s == loop[i];
      assert base + s.to == |m.vertices| + i;
      assert base + s.from == |m.vertices| + Pred(i, n);
    }
  }

  /** The rings of a polygon append its flattened vertices and touch no triangle state. */
  lemma {:induction false} WithRingsVertices(m: Mesh, rings: Polygon)
    requires TotalVertices(rings) <= MaxGroupVertices
    ensures var m' := WithRings(m, rings);
      && m'.vertices == m.vertices + Flatten(rings)
      && m'.triangles == m.triangles && m'.triangleGroups == m.triangleGroups
  {
    if rings != [] {
      var init := rings[..|rings| - 1];
      WithRingsVertices(m, init);
      assert (m.vertices + Flatten(init)) + LastRing(rings) == m.vertices + Flatten(rings);
    }
  }

  /** All rings of a polygon append the flattened polygon and keep the line invariant. */
  lemma {:induction false} WithRingsValid(m: Mesh, rings: Polygon)
    requires m.LinesValid() && TotalVertices(rings) <= MaxGroupVertices
    ensures var m' := WithRings(m, rings);
      && m'.LinesValid()
      && m'.vertices == m.vertices + Flatten(rings)
      && |m'.lines| == |m.lines| + TotalVertices(rings)
      && m.lines <= m'.lines
      && m'.triangles == m.triangles && m'.triangleGroups == m.triangleGroups
  {
    if rings != [] {
      var init := rings[..|rings| - 1];
      WithRingsValid(m, init);
      var mi := WithRings(m, init);
      WithRingValid(mi, LastRing(rings));
      assert (m.vertices + Flatten(init)) + LastRing(rings) == m.vertices + Flatten(rings);
    }
  }

  // ---------------------------------------------------------------------------
  // Triangles and triangle groups

  /** The remapped triples stay below base + total. */
  lemma RemappedBelow(base: nat, total: nat, indices: seq<nat>)
    requires |indices| % 3 == 0 && base + total <= MaxGroupVertices
    requires forall i :: 0 <= i < |indices| ==> indices[i] < total
    ensures var t := Remapped(base, indices);
      |t| == |indices| / 3 && forall k :: 0 <= k < |t| ==> TriangleTop(t[k]) < base + total
  {
  }

  /** The triples are emitted in order, three indices at a time. */
  lemma RemappedPrefix(base: nat, indices: seq<nat>, k: nat)
    requires |indices| % 3 == 0 && k < |indices| / 3
    requires forall i :: 0 <= i < |indices| ==> base + indices[i] < 0x1_0000
    ensures var t := Remapped(base, indices);
      && |t| == |indices| / 3
      && t[..k + 1] == t[..k] + [Triangle(base + indices[3 * k], base + indices[3 * k + 1], base + indices[3 * k + 2])]
  {
    var t := Remapped(base, indices);
    assert t[..k + 1] == t[..k] + [t[k]];
  }

  lemma {:induction false} WithTrianglesValid(m: Mesh, total: nat, indices: seq<nat>)
    requires total <= MaxGroupVertices
    requires |indices| % 3 == 0 && forall i :: 0 <= i < |indices| ==> indices[i] < total
    requires Bounded(m.triangleGroups) && Within(m.triangleGroups, m.triangles, TriangleTop)
    ensures var m' := WithTriangles(m, total, indices);
      && Bounded(m'.triangleGroups) && Within(m'.triangleGroups, m'.triangles, TriangleTop)
      && SumVertices(m'.triangleGroups) == SumVertices(m.triangleGroups) + total
      && |m'.triangles| == |m.triangles| + |indices| / 3
      && m'.vertices == m.vertices && m'.lines == m.lines && m'.lineGroups == m.lineGroups
  {
    var base := LastGroup(Reserve(m.triangleGroups, total)).vertexLength;
    AppendAccounting(m.triangleGroups, total, |indices| / 3);
    RemappedBelow(base, total, indices);
    WithinAppend(m.triangleGroups, m.triangles, TriangleTop, total, Remapped(base, indices));
  }

  /** An accepted polygon keeps the whole mesh invariant: both group lists stay
      within 65535 vertices per group, each partitions the vertex array and its own
      element array, and every index stays inside its own group. Everything is
      appended; nothing already emitted changes. */
  lemma {:induction false} WithPolygonValid(m: Mesh, p: Polygon, indices: seq<nat>)
    requires m.Valid() && TotalVertices(p) <= MaxGroupVertices && IsTriangulation(p, indices)
    ensures var m' := WithPolygon(m, p, indices);
      && m'.Valid()
      && m'.vertices == m.vertices + Flatten(p)
      && m.lines <= m'.lines && m.triangles <= m'.triangles
      && |m'.lines| == |m.lines| + TotalVertices(p)
      && |m'.triangles| == |m.triangles| + |indices| / 3
  {
    WithRingsValid(m, p);
    WithTrianglesValid(WithRings(m, p), TotalVertices(p), indices);
  }

  /** A polygon's triangles are never split: they all go into the one triangle
      group reserved for the polygon's whole vertex count. */
  lemma PolygonTriangleGroups(m: Mesh, p: Polygon, indices: seq<nat>)
    requires TotalVertices(p) <= MaxGroupVertices && IsTriangulation(p, indices)
    ensures WithPolygon(m, p, indices).triangleGroups == Append(m.triangleGroups, TotalVertices(p), |indices| / 3)
  {
    WithRingsVertices(m, p);
  }

  /** Corner by corner, triangle t read through base picks out of vs the vertices
      of f that the k-th triple of indices chose. */
  ghost predicate ReadsBack(vs: seq<Vertex>, f: seq<Vertex>, base: nat, t: Triangle, indices: seq<nat>, k: nat)
  {
    && 3 * k + 2 < |indices|
    && indices[3 * k] < |f| && indices[3 * k + 1] < |f| && indices[3 * k + 2] < |f|
    && base + t.a < |vs| && base + t.b < |vs| && base + t.c < |vs|
    && vs[base + t.a] == f[indices[3 * k]]
    && vs[base + t.b] == f[indices[3 * k + 1]]
    && vs[base + t.c] == f[indices[3 * k + 2]]
  }

  /** Round trip of the triangle indices: read through the start of its triangle
      group, every corner of the k-th triangle of polygon p names exactly the
      flattened vertex of p that the triangulation chose, and no other polygon's. */
  lemma TriangleAddressesPolygon(m: Mesh, p: Polygon, indices: seq<nat>, k: nat)
    requires SumVertices(m.triangleGroups) == |m.vertices| && TotalVertices(p) <= MaxGroupVertices && IsTriangulation(p, indices)
    requires k < |indices| / 3
    ensures var m' := WithPolygon(m, p, indices);
      && |m'.triangleGroups| > 0
      && |m'.triangles| == |m.triangles| + |indices| / 3
      && ReadsBack(m'.vertices, Flatten(p), SumVertices(m'.triangleGroups[..|m'.triangleGroups| - 1]),
                   m'.triangles[|m.triangles| + k], indices, k)
  {
    PolygonTriangleLands(m, p, indices, k);
    var m' := WithPolygon(m, p, indices);
    CornersRead(m.vertices, Flatten(p), m'.vertices, SumVertices(m'.triangleGroups[..|m'.triangleGroups| - 1]),
                m'.triangles[|m.triangles| + k], indices, k);
  }

  /** The arithmetic behind the round trip, away from the mesh: corners that land
      past the earlier vertices read the flattened polygon. */
  lemma CornersRead(before: seq<Vertex>, f: seq<Vertex>, vs: seq<Vertex>, base: nat, t: Triangle, indices: seq<nat>, k: nat)
    requires vs == before + f && |indices| % 3 == 0 && k < |indices| / 3
    requires forall i :: 0 <= i < |indices| ==> indices[i] < |f|
    requires base + t.a == |before| + indices[3 * k]
    requires base + t.b == |before| + indices[3 * k + 1]
    requires base + t.c == |before| + indices[3 * k + 2]
    ensures ReadsBack(vs, f, base, t, indices, k)
  {
  }

  /** Where the k-th triangle of an accepted polygon lands: its corners, read
      through the start of the triangle group, follow the vertices the mesh held
      before the polygon, and the polygon's flattened vertices follow those. */
  lemma PolygonTriangleLands(m: Mesh, p: Polygon, indices: seq<nat>, k: nat)
    requires SumVertices(m.triangleGroups) == |m.vertices|
    requires TotalVertices(p) <= MaxGroupVertices && IsTriangulation(p, indices)
    requires k < |indices| / 3
    ensures var m' := WithPolygon(m, p, indices);
      var base := SumVertices(m'.triangleGroups[..|m'.triangleGroups| - 1]);
      && m'.vertices == m.vertices + Flatten(p)
      && |m'.triangles| == |m.triangles| + |indices| / 3
      && var t := m'.triangles[|m.triangles| + k];
      && base + t.a == |m.vertices| + indices[3 * k]
      && base + t.b == |m.vertices| + indices[3 * k + 1]
      && base + t.c == |m.vertices| + indices[3 * k + 2]
  {
    var mr := WithRings(m, p);
    WithRingsVertices(m, p);
    TriangleLandsAfter(mr, TotalVertices(p), indices, k);
  }

  /** Read through the start of its triangle group, the k-th triple of
      WithTriangles indexes the vertices that follow the triangle groups' old total. */
  lemma TriangleLandsAfter(mr: Mesh, total: nat, indices: seq<nat>, k: nat)
    requires total <= MaxGroupVertices
    requires |indices| % 3 == 0 && forall i :: 0 <= i < |indices| ==> indices[i] < total
    requires k < |indices| / 3
    ensures var m' := WithTriangles(mr, total, indices);
      var base := SumVertices(m'.triangleGroups[..|m'.triangleGroups| - 1]);
      && |m'.triangles| == |mr.triangles| + |indices| / 3
      && var t := m'.triangles[|mr.triangles| + k];
      && base + t.a == SumVertices(mr.triangleGroups) + indices[3 * k]
      && base + t.b == SumVertices(mr.triangleGroups) + indices[3 * k + 1]
      && base + t.c == SumVertices(mr.triangleGroups) + indices[3 * k + 2]
  {
    var triangleIndex := LastGroup(Reserve(mr.triangleGroups, total)).vertexLength;
    AppendBase(mr.triangleGroups, total, |indices| / 3);
    var m' := WithTriangles(mr, total, indices);
    var added := Remapped(triangleIndex, indices);
    assert m'.triangles == mr.triangles + added;
    assert m'.triangles[|mr.triangles| + k] == added[k];
  }

  // ---------------------------------------------------------------------------
  // Whole addGeometry calls

  /** Every addGeometry call, however it ends, leaves a valid mesh behind. */
  lemma {:induction false} WithGeometryValid(m: Mesh, polygons: seq<Polygon>, limitHoles: (Polygon, nat) -> Polygon,
                                             earcut: Polygon -> seq<nat>)
    requires m.Valid() && EarcutContract(earcut)
    ensures WithGeometry(m, polygons, limitHoles, earcut).0.Valid()
    decreases |polygons|
  {
    if polygons != [] {
      var p := limitHoles(polygons[0], MaxHoles);
      if TotalVertices(p) <= MaxGroupVertices {
        WithPolygonValid(m, p, earcut(p));
        WithGeometryValid(WithPolygon(m, p, earcut(p)), polygons[1..], limitHoles, earcut);
      }
    }
  }

  /** addGeometry ends normally exactly when no hole-limited polygon has more than
      65535 vertices. */
  lemma {:induction false} WithGeometryDoneIff(m: Mesh, polygons: seq<Polygon>, limitHoles: (Polygon, nat) -> Polygon,
                                               earcut: Polygon -> seq<nat>)
    requires EarcutContract(earcut)
    ensures WithGeometry(m, polygons, limitHoles, earcut).1 == Done <==> AllFit(polygons, limitHoles)
    decreases |polygons|
  {
    if polygons != [] {
      AllFitSplit(polygons, limitHoles);
      var p := limitHoles(polygons[0], MaxHoles);
      if TotalVertices(p) <= MaxGroupVertices {
        WithGeometryDoneIff(WithPolygon(m, p, earcut(p)), polygons[1..], limitHoles, earcut);
      }
    }
  }

  /** Every polygon, once hole-limited, has at most 65535 vertices. */
  ghost predicate AllFit(polygons: seq<Polygon>, limitHoles: (Polygon, nat) -> Polygon)
  {
    forall j :: 0 <= j < |polygons| ==> TotalVertices(limitHoles(polygons[j], MaxHoles)) <= MaxGroupVertices
  }

  lemma AllFitSplit(polygons: seq<Polygon>, limitHoles: (Polygon, nat) -> Polygon)
    requires polygons != []
    ensures AllFit(polygons, limitHoles) <==>
            TotalVertices(limitHoles(polygons[0], MaxHoles)) <= MaxGroupVertices && AllFit(polygons[1..], limitHoles)
  {
    assert forall j :: 1 <= j < |polygons| ==> polygons[j] == polygons[1..][j - 1];
  }

  /** When polygon k is the first one too long, the call throws before emitting
      anything for it, and the mesh is exactly what polygons 0..k-1 produced. */
  lemma RejectionKeepsEarlier(m: Mesh, polygons: seq<Polygon>, limitHoles: (Polygon, nat) -> Polygon,
                              earcut: Polygon -> seq<nat>, k: nat)
    requires EarcutContract(earcut)
    requires k < |polygons| && TotalVertices(limitHoles(polygons[k], MaxHoles)) > MaxGroupVertices
    requires forall j :: 0 <= j < k ==> TotalVertices(limitHoles(polygons[j], MaxHoles)) <= MaxGroupVertices
    ensures WithGeometry(m, polygons[..k], limitHoles, earcut).1 == Done
    ensures WithGeometry(m, polygons, limitHoles, earcut)
         == (WithGeometry(m, polygons[..k], limitHoles, earcut).0, GeometryTooLong)
  {
    assert forall j :: 0 <= j < k ==> polygons[..k][j] == polygons[j];
    WithGeometryDoneIff(m, polygons[..k], limitHoles, earcut);
    RejectionMesh(m, polygons, limitHoles, earcut, k);
  }

  /** The mesh half of RejectionKeepsEarlier, by induction on k. */
  lemma {:induction false} RejectionMesh(m: Mesh, polygons: seq<Polygon>, limitHoles: (Polygon, nat) -> Polygon,
                                         earcut: Polygon -> seq<nat>, k: nat)
    requires EarcutContract(earcut)
    requires k < |polygons| && TotalVertices(limitHoles(polygons[k], MaxHoles)) > MaxGroupVertices
    requires forall j :: 0 <= j < k ==> TotalVertices(limitHoles(polygons[j], MaxHoles)) <= MaxGroupVertices
    ensures WithGeometry(m, polygons, limitHoles, earcut)
         == (WithGeometry(m, polygons[..k], limitHoles, earcut).0, GeometryTooLong)
    decreases k
  {
    if k == 0 {
      assert polygons[..k] == [];
    } else {
      var p := limitHoles(polygons[0], MaxHoles);
      var m1 := WithPolygon(m, p, earcut(p));
      assert polygons[..k][0] == polygons[0];
      assert polygons[..k][1..] == polygons[1..][..k - 1];
      assert forall j :: 0 <= j < k - 1 ==> polygons[1..][j] == polygons[j + 1];
      RejectionMesh(m1, polygons[1..], limitHoles, earcut, k - 1);
    }
  }

  /** Two addGeometry calls in a row, the first ending normally, leave the same
      mesh and outcome as one call over both polygon lists. */
  lemma {:induction false} WithGeometryConcat(m: Mesh, a: seq<Polygon>, b: seq<Polygon>,
                                              limitHoles: (Polygon, nat) -> Polygon, earcut: Polygon -> seq<nat>)
    requires EarcutContract(earcut)
    requires WithGeometry(m, a, limitHoles, earcut).1 == Done
    ensures WithGeometry(WithGeometry(m, a, limitHoles, earcut).0, b, limitHoles, earcut)
         == WithGeometry(m, a + b, limitHoles, earcut)
    decreases |a|
  {
    if a == [] {
      assert a + b == b;
    } else {
      var p := limitHoles(a[0], MaxHoles);
      assert (a + b)[0] == a[0] && (a + b)[1..] == a[1..] + b;
      WithGeometryConcat(WithPolygon(m, p, earcut(p)), a[1..], b, limitHoles, earcut);
    }
  }

  /** Whatever an addGeometry call does, it only appends: the earlier vertices,
      segments and triangles are kept, and so are all groups but the last, which
      can only grow. */
  lemma {:induction false} WithGeometryAppendsOnly(m: Mesh, polygons: seq<Polygon>, limitHoles: (Polygon, nat) -> Polygon,
                                                   earcut: Polygon -> seq<nat>)
    requires EarcutContract(earcut)
    ensures var m' := WithGeometry(m, polygons, limitHoles, earcut).0;
      && m.vertices <= m'.vertices && m.lines <= m'.lines && m.triangles <= m'.triangles
      && GroupsExtend(m.lineGroups, m'.lineGroups) && GroupsExtend(m.triangleGroups, m'.triangleGroups)
    decreases |polygons|
  {
    if polygons != [] {
      var p := limitHoles(polygons[0], MaxHoles);
      if TotalVertices(p) <= MaxGroupVertices {
        var m1 := WithPolygon(m, p, earcut(p));
        WithPolygonAppendsOnly(m, p, earcut(p));
        WithGeometryAppendsOnly(m1, polygons[1..], limitHoles, earcut);
        var m' := WithGeometry(m1, polygons[1..], limitHoles, earcut).0;
        GroupsExtendTransitive(m.lineGroups, m1.lineGroups, m'.lineGroups);
        GroupsExtendTransitive(m.triangleGroups, m1.triangleGroups, m'.triangleGroups);
      }
    }
  }

  /** gs' keeps every group of gs but the last unchanged, and the last one has not shrunk. */
  ghost predicate GroupsExtend(gs: seq<Group>, gs': seq<Group>)
  {
    && |gs| <= |gs'|
    && (forall k :: 0 <= k < |gs| - 1 ==> gs'[k] == gs[k])
    && (gs != [] ==>
          && LastGroup(gs).vertexLength <= gs'[|gs| - 1].vertexLength
          && LastGroup(gs).elementsLength <= gs'[|gs| - 1].elementsLength)
  }

  lemma GroupsExtendTransitive(a: seq<Group>, b: seq<Group>, c: seq<Group>)
    requires GroupsExtend(a, b) && GroupsExtend(b, c)
    ensures GroupsExtend(a, c)
  {
    if a != [] && |a| < |b| {
      assert b[|a| - 1] == c[|a| - 1];
    }
  }

  lemma AppendExtends(gs: seq<Group>, n: nat, de: nat)
    ensures GroupsExtend(gs, Append(gs, n, de))
  {
    AppendAccounting(gs, n, de);
  }

  lemma {:induction false} WithRingsAppendsOnly(m: Mesh, rings: Polygon)
    requires TotalVertices(rings) <= MaxGroupVertices
    ensures var m' := WithRings(m, rings);
      && m.vertices <= m'.vertices && m.lines <= m'.lines && m'.triangles == m.triangles
      && GroupsExtend(m.lineGroups, m'.lineGroups) && m'.triangleGroups == m.triangleGroups
  {
    if rings != [] {
      var mi := WithRings(m, rings[..|rings| - 1]);
      WithRingsAppendsOnly(m, rings[..|rings| - 1]);
      var ring := LastRing(rings);
      var m' := WithRing(mi, ring);
      assert WithRings(m, rings) == m';
      if ring != [] {
        AppendExtends(mi.lineGroups, |ring|, |ring|);
        GroupsExtendTransitive(m.lineGroups, mi.lineGroups, m'.lineGroups);
        assert mi.vertices <= m'.vertices && mi.lines <= m'.lines;
      }
    }
  }

  lemma WithPolygonAppendsOnly(m: Mesh, p: Polygon, indices: seq<nat>)
    requires TotalVertices(p) <= MaxGroupVertices && IsTriangulation(p, indices)
    ensures var m' := WithPolygon(m, p, indices);
      && m.vertices <= m'.vertices && m.lines <= m'.lines && m.triangles <= m'.triangles
      && GroupsExtend(m.lineGroups, m'.lineGroups) && GroupsExtend(m.triangleGroups, m'.triangleGroups)
  {
    WithRingsAppendsOnly(m, p);
    AppendExtends(m.triangleGroups, TotalVertices(p), |indices| / 3);
  }
}
