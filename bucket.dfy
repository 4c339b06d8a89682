/** FillBucket: the object that owns the fill mesh of one tile and one layer.
    addGeometry appends to its member vectors in place; upload hands them to the
    GPU; the draw routines walk the group lists. */
module Bucket {
  import opened Geometry
  import opened Groups
  import opened FillMesh
  import opened Draw

  /** The running ring-size sum of addGeometry, which throws as soon as it passes 65535. */
  method CountVertices(polygon: Polygon) returns (total: nat, tooLong: bool)
    ensures tooLong <==> TotalVertices(polygon) > MaxGroupVertices
    ensures !tooLong ==> total == TotalVertices(polygon)
  {
    total := 0;
    var i := 0;
    while i < |polygon|
      invariant 0 <= i <= |polygon|
      invariant total == TotalVertices(polygon[..i]) <= MaxGroupVertices
    {
      assert polygon[..i + 1][..i] == polygon[..i];
      total := total + |polygon[i]|;
      if total > MaxGroupVertices {
        TotalVerticesOfPrefix(polygon, i + 1);
        return total, true;
      }
      i := i + 1;
    }
    assert polygon[..i] == polygon;
    return total, false;
  }

  class FillBucket {
    var vertices: seq<Vertex>
    var lines: seq<Segment>
    var triangles: seq<Triangle>
    var lineGroups: seq<Group>
    var triangleGroups: seq<Group>
    var uploaded: bool

    function AsMesh(): Mesh
      reads this
    {
      Mesh(vertices, lines, triangles, lineGroups, triangleGroups)
    }

    ghost predicate Valid()
      reads this
    {
      AsMesh().Valid()
    }

    constructor ()
      ensures Valid() && AsMesh() == EmptyMesh && !uploaded && !HasData()
    {
      vertices, lines, triangles := [], [], [];
      lineGroups, triangleGroups := [], [];
      uploaded := false;
    }

    /** Classifies the rings into polygons, then for each polygon: limits its holes,
        rejects it when it has more than 65535 vertices, emits its rings and their
        closed line loops, and emits its triangulation into one triangle group. */
    method AddGeometry(geometry: GeometryCollection, classifyRings: GeometryCollection -> seq<Polygon>,
                       limitHoles: (Polygon, nat) -> Polygon, earcut: Polygon -> seq<nat>)
      returns (outcome: Outcome)
      requires Valid() && EarcutContract(earcut)
      modifies this
      ensures Valid() && uploaded == old(uploaded)
      ensures (AsMesh(), outcome) == WithGeometry(old(AsMesh()), classifyRings(geometry), limitHoles, earcut)
    {
      var polygons := classifyRings(geometry);
      ghost var start := AsMesh();
      var i := 0;
      while i < |polygons|
        invariant 0 <= i <= |polygons|
        invariant Valid() && uploaded == old(uploaded)
        invariant WithGeometry(AsMesh(), polygons[i..], limitHoles, earcut) == WithGeometry(start, polygons, limitHoles, earcut)
      {
        var polygon := limitHoles(polygons[i], MaxHoles);
        assert polygons[i..][0] == polygons[i] && polygons[i..][1..] == polygons[i + 1..];
        var totalVertices, tooLong := CountVertices(polygon);
        if tooLong {
          return GeometryTooLong;
        }
        AddPolygon(polygon, totalVertices, earcut);
        i := i + 1;
      }
      return Done;
    }

    /** The body of addGeometry's polygon loop once the polygon is known to fit:
        every non-empty ring with its line loop, then the earcut triangulation. */
    method AddPolygon(polygon: Polygon, totalVertices: nat, earcut: Polygon -> seq<nat>)
      requires Valid() && EarcutContract(earcut)
      requires totalVertices == TotalVertices(polygon) <= MaxGroupVertices
      modifies this
      ensures Valid() && uploaded == old(uploaded)
      ensures AsMesh() == WithPolygon(old(AsMesh()), polygon, earcut(polygon)) && HasData()
    {
      ghost var before := AsMesh();
      var j := 0;
      while j < |polygon|
        invariant 0 <= j <= |polygon| && TotalVertices(polygon[..j]) <= MaxGroupVertices
        invariant AsMesh() == WithRings(before, polygon[..j]) && uploaded == old(uploaded)
      {
        TotalVerticesOfPrefix(polygon, j + 1);
        assert polygon[..j + 1][..j] == polygon[..j];
        WithRingsValid(before, polygon[..j]);
        if |polygon[j]| > 0 {
          AddRing(polygon[j]);
        }
        j := j + 1;
      }
      assert polygon[..j] == polygon;
      var indices := earcut(polygon);
      WithRingsVertices(before, polygon);
      AddTriangles(totalVertices, indices);
      WithPolygonValid(before, polygon, indices);
    }

    /** One non-empty ring: opens a line group when the current one cannot take all
        n vertices, appends the vertices, the closing segment (last, first) and the
        segments (i-1, i), all relative to the group's vertex_length, then grows the group. */
    method AddRing(ring: Ring)
      requires 0 < |ring| <= MaxGroupVertices && Bounded(lineGroups)
      modifies this
      ensures AsMesh() == WithRing(old(AsMesh()), ring) && uploaded == old(uploaded)
    {
      var n := |ring|;
      WithRingShape(AsMesh(), ring);
      lineGroups := Reserve(lineGroups, n);
      var last := |lineGroups| - 1;
      var lineIndex := Wrap16(lineGroups[last].vertexLength);
      EmitRing(lineIndex, ring);
      lineGroups := lineGroups[last := Group(lineGroups[last].vertexLength + n, lineGroups[last].elementsLength + n)];
    }

    /** The triangulation of one polygon: opens a triangle group when the current one
        cannot take all the polygon's vertices, appends each triple shifted by the
        group's vertex_length, then grows the group by the polygon's vertices and triples. */
    method AddTriangles(totalVertices: nat, indices: seq<nat>)
      requires totalVertices <= MaxGroupVertices && Bounded(triangleGroups)
      requires |indices| % 3 == 0 && forall i :: 0 <= i < |indices| ==> indices[i] < totalVertices
      modifies this
      ensures AsMesh() == WithTriangles(old(AsMesh()), totalVertices, indices) && uploaded == old(uploaded)
    {
      WithTrianglesShape(AsMesh(), totalVertices, indices);
      triangleGroups := Reserve(triangleGroups, totalVertices);
      var last := |triangleGroups| - 1;
      var triangleIndex := Wrap16(triangleGroups[last].vertexLength);
      EmitTriangles(triangleIndex, indices);
      triangleGroups := triangleGroups[last := Group(triangleGroups[last].vertexLength + totalVertices,
                                                     triangleGroups[last].elementsLength + |indices| / 3)];
    }

    /** The ring's vertices and its closed loop of segments: the first vertex with
        the closing segment (n-1, 0), then each later vertex i with the segment
        (i-1, i), all shifted by lineIndex. */
    method EmitRing(lineIndex: nat, ring: Ring)
      requires 0 < |ring| && lineIndex + |ring| <= MaxGroupVertices
      modifies this
      ensures vertices == old(vertices) + ring
      ensures lines == old(lines) + RingLoop(lineIndex, |ring|)
      ensures triangles == old(triangles) && lineGroups == old(lineGroups)
      ensures triangleGroups == old(triangleGroups) && uploaded == old(uploaded)
    {
      var n := |ring|;
      ghost var loop := RingLoop(lineIndex, n);
      vertices := vertices + [ring[0]];
      lines := lines + [Segment(Wrap16(lineIndex + n - 1), Wrap16(lineIndex))];
      RingLoopPrefix(lineIndex, n, 1);
      var i := 1;
      while i < n
        invariant 1 <= i <= n
        invariant vertices == old(vertices) + ring[..i]
        invariant lines == old(lines) + loop[..i]
        invariant triangles == old(triangles) && lineGroups == old(lineGroups)
        invariant triangleGroups == old(triangleGroups) && uploaded == old(uploaded)
      {
        RingLoopPrefix(lineIndex, n, i);
        assert ring[..i + 1] == ring[..i] + [ring[i]];
        vertices := vertices + [ring[i]];
        lines := lines + [Segment(Wrap16(lineIndex + i - 1), Wrap16(lineIndex + i))];
        i := i + 1;
      }
      RingLoopPrefix(lineIndex, n, n);
      assert ring[..n] == ring;
    }

    /** addTriangles' loop over the triples: each is shifted by triangleIndex and
        pushed onto the triangle array. */
    method EmitTriangles(triangleIndex: nat, indices: seq<nat>)
      requires |indices| % 3 == 0 && forall i :: 0 <= i < |indices| ==> triangleIndex + indices[i] < 0x1_0000
      modifies this
      ensures triangles == old(triangles) + Remapped(triangleIndex, indices)
      ensures vertices == old(vertices) && lines == old(lines)
      ensures lineGroups == old(lineGroups) && triangleGroups == old(triangleGroups) && uploaded == old(uploaded)
    {
      ghost var remapped := Remapped(triangleIndex, indices);
      var i := 0;
      ghost var k := 0;
      while i < |indices|
        invariant i == 3 * k && 0 <= k <= |indices| / 3
        invariant triangles == old(triangles) + remapped[..k]
        invariant vertices == old(vertices) && lines == old(lines)
        invariant lineGroups == old(lineGroups) && triangleGroups == old(triangleGroups) && uploaded == old(uploaded)
      {
        RemappedPrefix(triangleIndex, indices, k);
        triangles := triangles + [Triangle(Wrap16(triangleIndex + indices[i]),
                                           Wrap16(triangleIndex + indices[i + 1]),
                                           Wrap16(triangleIndex + indices[i + 2]))];
        i, k := i + 3, k + 1;
      }
      assert remapped[..k] == remapped;
    }

    /** Hands the arrays to the GPU; only the state flag is modelled. */
    method Upload()
      modifies this
      ensures uploaded && AsMesh() == old(AsMesh())
    {
      uploaded := true;
    }

    /** A bucket without groups holds no vertices, segments or triangles. */
    function HasData(): (r: bool)
      reads this
      ensures Valid() && !r ==> vertices == [] && lines == [] && triangles == []
    {
      triangleGroups != [] || lineGroups != []
    }

    /** Fill meshes are always clipped to the tile. */
    function NeedsClipping(): (r: bool)
      ensures r
    {
      true
    }

    /** drawElements for the plain or the pattern shader: one triangle draw per
        triangle group, at the group's running vertex and index offsets. */
    method DrawElements(shading: Shading, mode: PaintMode) returns (calls: seq<DrawCall>)
      requires uploaded
      ensures |calls| == |triangleGroups|
      ensures forall k :: 0 <= k < |calls| ==>
        calls[k] == DrawCall(Triangles, BindingSlot(shading, mode),
                             SumVertices(triangleGroups[..k]) * VertexSize,
                             triangleGroups[k].elementsLength * 3,
                             SumElements(triangleGroups[..k]) * 6)
    {
      calls := Dispatch(triangleGroups, Triangles, BindingSlot(shading, mode));
    }

    /** drawVertices for the outline or the outline-pattern shader: one line draw per
        line group, at the group's running vertex and index offsets. */
    method DrawVertices(shading: Shading, mode: PaintMode) returns (calls: seq<DrawCall>)
      requires uploaded
      ensures |calls| == |lineGroups|
      ensures forall k :: 0 <= k < |calls| ==>
        calls[k] == DrawCall(Lines, BindingSlot(shading, mode),
                             SumVertices(lineGroups[..k]) * VertexSize,
                             lineGroups[k].elementsLength * 2,
                             SumElements(lineGroups[..k]) * 4)
    {
      calls := Dispatch(lineGroups, Lines, BindingSlot(shading, mode));
    }
  }
}
