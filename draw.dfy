/** The draw dispatcher: one indexed draw per group, bound at a running vertex
    byte offset and drawn from a running index byte offset. GL calls are replaced
    by the list of draw calls they would issue. */
module Draw {
  import opened Geometry
  import opened Groups
  import opened FillMesh

  datatype PaintMode = Regular | Overdraw

  /** Plain/outline shaders versus the pattern-textured ones. */
  datatype Shading = Plain | Pattern

  /** GL_LINES or GL_TRIANGLES. */
  datatype Primitive = Lines | Triangles

  /** Byte size of one fill vertex: two 16-bit coordinates. */
  const VertexSize: nat := 4

  /** Indices drawn per element. */
  function IndicesPer(p: Primitive): nat
  {
    match p
    case Lines => 2
    case Triangles => 3
  }

  /** Byte size of one element in its index buffer: 16-bit indices, two or three of them. */
  function PrimitiveSize(p: Primitive): nat
  {
    2 * IndicesPer(p)
  }

  /** Which of a group's four vertex-array bindings a draw uses: 0 and 1 for the
      plain and outline shaders, 2 and 3 for the pattern ones, the odd slot for overdraw. */
  function BindingSlot(shading: Shading, mode: PaintMode): (slot: nat)
    ensures slot < 4
    ensures (slot >= 2) == (shading == Pattern)
    ensures (slot % 2 == 1) == (mode == Overdraw)
  {
    match shading
    case Plain => if mode == Overdraw then 1 else 0
    case Pattern => if mode == Overdraw then 3 else 2
  }

  /** The four (shading, mode) combinations use four different bindings. */
  lemma BindingSlotInjective(s1: Shading, m1: PaintMode, s2: Shading, m2: PaintMode)
    ensures BindingSlot(s1, m1) == BindingSlot(s2, m2) <==> s1 == s2 && m1 == m2
  {
  }

  /** bind(shader, vertexBuffer, indexBuffer, vertexOffset) followed by
      glDrawElements(primitive, indexCount, GL_UNSIGNED_SHORT, elementOffset). */
  datatype DrawCall = DrawCall(primitive: Primitive, slot: nat, vertexOffset: nat, indexCount: nat, elementOffset: nat)

  /** Walks the groups in order, keeping the running vertex_index and elements_index
      byte offsets; group k is bound where the vertices of groups 0..k-1 end and
      drawn where their elements end. */
  method Dispatch(groups: seq<Group>, primitive: Primitive, slot: nat) returns (calls: seq<DrawCall>)
    ensures |calls| == |groups|
    ensures forall k :: 0 <= k < |groups| ==>
      calls[k] == DrawCall(primitive, slot,
                           SumVertices(groups[..k]) * VertexSize,
                           groups[k].elementsLength * IndicesPer(primitive),
                           SumElements(groups[..k]) * PrimitiveSize(primitive))
  {
    var vertexIndex := 0;
    var elementsIndex := 0;
    calls := [];
    for i := 0 to |groups|
      invariant |calls| == i
      invariant vertexIndex == SumVertices(groups[..i]) * VertexSize
      invariant elementsIndex == SumElements(groups[..i]) * PrimitiveSize(primitive)
      invariant forall k :: 0 <= k < i ==>
        calls[k] == DrawCall(primitive, slot,
                             SumVertices(groups[..k]) * VertexSize,
                             groups[k].elementsLength * IndicesPer(primitive),
                             SumElements(groups[..k]) * PrimitiveSize(primitive))
    {
      var group := groups[i];
      calls := calls + [DrawCall(primitive, slot, vertexIndex, group.elementsLength * IndicesPer(primitive), elementsIndex)];
      OffsetStep(groups, i, VertexSize, PrimitiveSize(primitive));
      vertexIndex := vertexIndex + group.vertexLength * VertexSize;
      elementsIndex := elementsIndex + group.elementsLength * PrimitiveSize(primitive);
    }
  }

  /** In a valid mesh, triangle group k's draw reads only triangles of the index
      buffer, and every index it draws, added to the group's vertex offset, names a
      vertex of the vertex buffer. */
  lemma TriangleDrawInBounds(m: Mesh, k: nat, j: nat)
    requires m.Valid() && k < |m.triangleGroups|
    requires var gs := m.triangleGroups;
      SumElements(gs[..k]) <= j < SumElements(gs[..k]) + gs[k].elementsLength
    ensures var gs := m.triangleGroups;
      && SumElements(gs[..k]) + gs[k].elementsLength <= |m.triangles|
      && SumVertices(gs[..k]) + TriangleTop(m.triangles[j]) < |m.vertices|
  {
    WindowInBounds(m.triangleGroups, m.triangles, TriangleTop, k, j);
  }

  /** The same for line group k over the line index buffer. */
  lemma LineDrawInBounds(m: Mesh, k: nat, j: nat)
    requires m.Valid() && k < |m.lineGroups|
    requires var gs := m.lineGroups;
      SumElements(gs[..k]) <= j < SumElements(gs[..k]) + gs[k].elementsLength
    ensures var gs := m.lineGroups;
      && SumElements(gs[..k]) + gs[k].elementsLength <= |m.lines|
      && SumVertices(gs[..k]) + SegmentTop(m.lines[j]) < |m.vertices|
  {
    WindowInBounds(m.lineGroups, m.lines, SegmentTop, k, j);
  }

  lemma WindowInBounds<E>(gs: seq<Group>, es: seq<E>, top: E -> int, k: nat, j: nat)
    requires Within(gs, es, top) && k < |gs|
    requires SumElements(gs[..k]) <= j < SumElements(gs[..k]) + gs[k].elementsLength
    ensures SumElements(gs[..k]) + gs[k].elementsLength <= |es|
    ensures j < |es| && SumVertices(gs[..k]) + top(es[j]) < SumVertices(gs)
  {
    SumVerticesStep(gs, k);
    WithinIndex(gs, es, top, k, j);
    WithinLength(gs, es, top);
    SumElementsOfPrefix(gs, k + 1);
    SumVerticesOfPrefix(gs, k + 1);
  }
}
