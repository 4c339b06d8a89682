/** Draw groups: the batches into which the bucket partitions its vertices so
    that every index fits in 16 bits. Groups are only ever appended, and only
    the last one grows. */
module Groups {
  import opened Geometry

  /** vertex_length and elements_length of one LineGroup or TriangleGroup. */
  datatype Group = Group(vertexLength: nat, elementsLength: nat)

  const EmptyGroup: Group := Group(0, 0)

  function LastGroup(gs: seq<Group>): Group
    requires gs != []
  {
    gs[|gs| - 1]
  }

  /** Total vertex_length of a group list: where the next group starts in the vertex buffer. */
  function SumVertices(gs: seq<Group>): nat
  {
    if gs == [] then 0 else SumVertices(gs[..|gs| - 1]) + LastGroup(gs).vertexLength
  }

  /** Total elements_length of a group list: where the next group starts in the index buffer. */
  function SumElements(gs: seq<Group>): nat
  {
    if gs == [] then 0 else SumElements(gs[..|gs| - 1]) + LastGroup(gs).elementsLength
  }

  /** Every group addresses at most 65535 vertices. */
  predicate Bounded(gs: seq<Group>)
  {
    forall k :: 0 <= k < |gs| ==> gs[k].vertexLength <= MaxGroupVertices
  }

  /** The group list after the source's test "empty, or back().vertex_length + n > 65535":
      a fresh empty group is opened when the last one has no room for n more vertices. */
  function Reserve(gs: seq<Group>, n: nat): (r: seq<Group>)
    ensures r != [] && |gs| <= |r| <= |gs| + 1 && r[..|gs|] == gs
    ensures |r| == |gs| + 1 ==> LastGroup(r) == EmptyGroup
    ensures n <= MaxGroupVertices ==> LastGroup(r).vertexLength + n <= MaxGroupVertices
    ensures |r| == |gs| + 1 <==> gs == [] || LastGroup(gs).vertexLength + n > MaxGroupVertices
  {
    if gs == [] || LastGroup(gs).vertexLength + n > MaxGroupVertices then gs + [EmptyGroup] else gs
  }

  /** The last group after it receives dv vertices and de elements. */
  function GrowLast(gs: seq<Group>, dv: nat, de: nat): seq<Group>
    requires gs != []
  {
    gs[..|gs| - 1] + [Group(LastGroup(gs).vertexLength + dv, LastGroup(gs).elementsLength + de)]
  }

  /** Reserve room for n vertices, then account n vertices and de elements to the last group. */
  function Append(gs: seq<Group>, n: nat, de: nat): seq<Group>
  {
    GrowLast(Reserve(gs, n), n, de)
  }

  /** Greedy partitioning: a new group is opened exactly when the list is empty or
      the last group would overflow; earlier groups are untouched; the totals grow by
      exactly what was added; and the 65535 bound survives any addition that fits in
      one group on its own. */
  lemma {:induction false} AppendAccounting(gs: seq<Group>, n: nat, de: nat)
    ensures var r := Append(gs, n, de);
      var isNew := gs == [] || LastGroup(gs).vertexLength + n > MaxGroupVertices;
      && |r| == (if isNew then |gs| + 1 else |gs|)
      && r[..|r| - 1] == (if isNew then gs else gs[..|gs| - 1])
      && LastGroup(r) == (if isNew then Group(n, de)
                          else Group(LastGroup(gs).vertexLength + n, LastGroup(gs).elementsLength + de))
      && SumVertices(r) == SumVertices(gs) + n
      && SumElements(r) == SumElements(gs) + de
      && (Bounded(gs) && n <= MaxGroupVertices ==> Bounded(r))
  {
    var r := Append(gs, n, de);
    var s := Reserve(gs, n);
    assert r[..|r| - 1] == s[..|s| - 1];
    if gs == [] || LastGroup(gs).vertexLength + n > MaxGroupVertices {
      assert s[..|s| - 1] == gs;
    }
  }

  /** The last group of Append starts, in the whole vertex buffer, at the old total
      minus the vertices that group already held before the addition. */
  lemma AppendBase(gs: seq<Group>, n: nat, de: nat)
    ensures var r := Append(gs, n, de);
      SumVertices(r[..|r| - 1]) + LastGroup(Reserve(gs, n)).vertexLength == SumVertices(gs)
  {
    AppendAccounting(gs, n, de);
  }

  lemma {:induction false} SumElementsOfPrefix(gs: seq<Group>, k: nat)
    requires k <= |gs|
    ensures SumElements(gs[..k]) <= SumElements(gs)
    decreases |gs|
  {
    if k < |gs| {
      var q := gs[..|gs| - 1];
      assert q[..k] == gs[..k];
      SumElementsOfPrefix(q, k);
    } else {
      assert gs[..k] == gs;
    }
  }

  lemma {:induction false} SumVerticesOfPrefix(gs: seq<Group>, k: nat)
    requires k <= |gs|
    ensures SumVertices(gs[..k]) <= SumVertices(gs)
    decreases |gs|
  {
    if k < |gs| {
      var q := gs[..|gs| - 1];
      assert q[..k] == gs[..k];
      SumVerticesOfPrefix(q, k);
    } else {
      assert gs[..k] == gs;
    }
  }

  /** Group k of the list occupies the vertex window starting at SumVertices(gs[..k]). */
  lemma SumVerticesStep(gs: seq<Group>, k: nat)
    requires k < |gs|
    ensures SumVertices(gs[..k + 1]) == SumVertices(gs[..k]) + gs[k].vertexLength
    ensures SumElements(gs[..k + 1]) == SumElements(gs[..k]) + gs[k].elementsLength
  {
    assert gs[..k + 1][..k] == gs[..k];
  }

  /** Advancing a byte offset past group k: the offsets after k + 1 groups are the
      offsets after k groups plus group k's own vertices and elements, at any size. */
  lemma OffsetStep(gs: seq<Group>, k: nat, vertexSize: nat, elementSize: nat)
    requires k < |gs|
    ensures SumVertices(gs[..k + 1]) * vertexSize == SumVertices(gs[..k]) * vertexSize + gs[k].vertexLength * vertexSize
    ensures SumElements(gs[..k + 1]) * elementSize == SumElements(gs[..k]) * elementSize + gs[k].elementsLength * elementSize
  {
    SumVerticesStep(gs, k);
    var v, e := SumVertices(gs[..k]), SumElements(gs[..k]);
    assert (v + gs[k].vertexLength) * vertexSize == v * vertexSize + gs[k].vertexLength * vertexSize;
    assert (e + gs[k].elementsLength) * elementSize == e * elementSize + gs[k].elementsLength * elementSize;
  }

  /** The elements (line segments or triangles) are laid out group after group, and
      each element's largest index `top` stays inside its own group's vertices. */
  ghost predicate Within<E>(gs: seq<Group>, es: seq<E>, top: E -> int)
    decreases |gs|
  {
    if gs == [] then es == []
    else
      var g := LastGroup(gs);
      var start := |es| - g.elementsLength;
      && 0 <= start
      && Within(gs[..|gs| - 1], es[..start], top)
      && forall j :: start <= j < |es| ==> top(es[j]) < g.vertexLength
  }

  lemma {:induction false} WithinLength<E>(gs: seq<Group>, es: seq<E>, top: E -> int)
    requires Within(gs, es, top)
    ensures SumElements(gs) == |es|
    decreases |gs|
  {
    if gs != [] {
      WithinLength(gs[..|gs| - 1], es[..|es| - LastGroup(gs).elementsLength], top);
    }
  }

  /** Appending elements whose indices fall below the reserved group's new size
      keeps every element inside its own group. */
  lemma {:induction false} WithinAppend<E>(gs: seq<Group>, es: seq<E>, top: E -> int, n: nat, added: seq<E>)
    requires Within(gs, es, top)
    requires forall j :: 0 <= j < |added| ==> top(added[j]) < LastGroup(Reserve(gs, n)).vertexLength + n
    ensures Within(Append(gs, n, |added|), es + added, top)
  {
    var r := Append(gs, n, |added|);
    var es' := es + added;
    AppendAccounting(gs, n, |added|);
    WithinLength(gs, es, top);
    if gs == [] || LastGroup(gs).vertexLength + n > MaxGroupVertices {
      assert es'[..|es'| - |added|] == es;
    } else {
      var g := LastGroup(gs);
      var start := |es| - g.elementsLength;
      assert es'[..|es'| - LastGroup(r).elementsLength] == es[..start];
      forall j | start <= j < |es'|
        ensures top(es'[j]) < LastGroup(r).vertexLength
      {
        if j < |es| {
          assert es'[j] == es[j];
        } else {
          assert es'[j] == added[j - |es|];
        }
      }
    }
  }

  /** Element j, lying in group k's window of the element list, indexes a vertex
      inside group k. */
  lemma {:induction false} WithinIndex<E>(gs: seq<Group>, es: seq<E>, top: E -> int, k: nat, j: nat)
    requires Within(gs, es, top)
    requires k < |gs| && SumElements(gs[..k]) <= j < SumElements(gs[..k + 1])
    ensures j < |es| && top(es[j]) < gs[k].vertexLength
    decreases |gs|
  {
    WithinLength(gs, es, top);
    SumElementsOfPrefix(gs, k + 1);
    var q := gs[..|gs| - 1];
    var start := |es| - LastGroup(gs).elementsLength;
    if k == |gs| - 1 {
      assert gs[..k] == q;
      assert gs[..k + 1] == gs;
    } else {
      assert q[..k] == gs[..k] && q[..k + 1] == gs[..k + 1];
      SumElementsOfPrefix(q, k + 1);
      WithinIndex(q, es[..start], top, k, j);
    }
  }

  /** With every group bounded, no element indexes past 65534: the 16-bit casts
      of the source never wrap. */
  lemma {:induction false} WithinBounded<E>(gs: seq<Group>, es: seq<E>, top: E -> int, j: nat)
    requires Within(gs, es, top) && Bounded(gs) && j < |es|
    ensures top(es[j]) < MaxGroupVertices
    decreases |gs|
  {
    var start := |es| - LastGroup(gs).elementsLength;
    if j < start {
      WithinBounded(gs[..|gs| - 1], es[..start], top, j);
    }
  }
}
