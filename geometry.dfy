/** Input geometry of the fill bucket: rings of tile coordinates grouped into
    polygons, the vertex totals the bucket checks against the 16-bit index
    range, and the contract of the external ear-clipping triangulation. */
module Geometry {

  /** A tile-local coordinate pair; ring points and emitted fill vertices share it. */
  datatype Vertex = Vertex(x: int, y: int)

  /** A closed ring without a repeated closing point (the last vertex joins the first). */
  type Ring = seq<Vertex>

  /** Ring 0 is the outer boundary, the rest are holes. */
  type Polygon = seq<Ring>

  /** The raw rings of one feature, before they are classified into polygons. */
  type GeometryCollection = seq<Ring>

  /** Largest number of vertices one group (and one polygon) may address with 16-bit indices. */
  const MaxGroupVertices: nat := 65535

  /** Hole budget handed to the hole-limiting step before triangulation. */
  const MaxHoles: nat := 500

  /** A value of C++ type uint16_t. */
  type Index16 = x: int | 0 <= x < 0x1_0000

  /** static_cast<uint16_t>: reduction modulo 2^16. */
  function Wrap16(x: int): (r: Index16)
    ensures 0 <= x < 0x1_0000 ==> r == x
    ensures (x - r) % 0x1_0000 == 0
  {
    x % 0x1_0000
  }

  function LastRing(p: Polygon): Ring
    requires p != []
  {
    p[|p| - 1]
  }

  /** Number of vertices over all rings of a polygon (empty rings count zero). */
  function TotalVertices(p: Polygon): nat
  {
    if p == [] then 0 else TotalVertices(p[..|p| - 1]) + |LastRing(p)|
  }

  /** The rings of a polygon laid end to end: the vertex numbering the triangulation refers to. */
  function Flatten(p: Polygon): (r: seq<Vertex>)
    ensures |r| == TotalVertices(p)
  {
    if p == [] then [] else Flatten(p[..|p| - 1]) + LastRing(p)
  }

  /** The running ring-size sum never decreases, so it exceeds a bound at some
      ring exactly when the full total does. */
  lemma {:induction false} TotalVerticesOfPrefix(p: Polygon, i: nat)
    requires i <= |p|
    ensures TotalVertices(p[..i]) <= TotalVertices(p)
    decreases |p|
  {
    if i < |p| {
      var q := p[..|p| - 1];
      assert q[..i] == p[..i];
      TotalVerticesOfPrefix(q, i);
    } else {
      assert p[..i] == p;
    }
  }

  /** Each ring alone is no larger than the polygon's total. */
  lemma {:induction false} RingWithinTotal(p: Polygon, k: nat)
    requires k < |p|
    ensures |p[k]| <= TotalVertices(p)
  {
    TotalVerticesOfPrefix(p, k + 1);
    assert p[..k + 1][..k] == p[..k];
  }

  /** Contract of mapbox::earcut: a flat list of vertex triples whose entries
      index the polygon's flattened vertices. */
  predicate IsTriangulation(p: Polygon, indices: seq<nat>)
  {
    |indices| % 3 == 0 &&
    forall i :: 0 <= i < |indices| ==> indices[i] < TotalVertices(p)
  }

  /** earcut honours its contract on every polygon. */
  ghost predicate EarcutContract(earcut: Polygon -> seq<nat>)
  {
    forall p :: IsTriangulation(p, earcut(p))
  }
}
