/**
 * Per-vertex queries of the half-edge mesh (the `Vertex` member functions of
 * FastCat/MeshUtility.cpp): outgoing-edge count, one-ring index emission,
 * one-ring classification, boundary endpoints and the "unevaluable" test.
 *
 * Every query walks the outgoing half-edges of the vertex by vNext, starting
 * from the vertex's anchor `edge` (or, for the one-ring indices of a
 * boundary vertex, from the first half-edge without a dual). The reference
 * definitions below describe what the first `n` half-edges of such a walk
 * `es` contribute; a query that completes its walk is proved equal to the
 * reference at n = |es|.
 */
module VertexQueries {
  import opened Wrappers
  import opened Orbits
  import opened WalkRecords
  import opened HalfEdgeMesh

  // ---------------------------------------------------------------------------
  // Reference definitions

  /** Some half-edge of the walk has no dual: the walk touches the mesh boundary. */
  ghost predicate HasBoundaryEdge(m: Mesh, es: seq<nat>)
    requires Navigable(m) && InArena(m, es)
  {
    exists k :: 0 <= k < |es| && m.edges[es[k]].dual.None?
  }

  /** The walk position of the first half-edge without a dual (|es| when there is none). */
  function FirstDualless(m: Mesh, es: seq<nat>): (r: nat)
    requires Navigable(m) && InArena(m, es)
    ensures r <= |es|
    ensures forall j :: 0 <= j < r ==> m.edges[es[j]].dual.Some?
    ensures r < |es| <==> HasBoundaryEdge(m, es)
    ensures r < |es| ==> m.edges[es[r]].dual.None?
  {
    if es == [] then 0
    else if m.edges[es[0]].dual.None? then 0
    else 1 + FirstDualless(m, es[1..])
  }

  /** The first half-edge without a dual met walking round `v` from its anchor. */
  function BoundaryEdge(m: Mesh, v: nat): (b: nat)
    requires Navigable(m) && v < |m.verts|
    requires HasBoundaryEdge(m, VOrbit(m, m.verts[v].edge))
    ensures b < |m.edges|
  {
    var es := VOrbit(m, m.verts[v].edge);
    es[FirstDualless(m, es)]
  }

  /** Where the one-ring walk of `v` starts: its anchor, or for a boundary vertex its boundary edge. */
  function WalkStart(m: Mesh, v: nat): (s: nat)
    requires Navigable(m) && v < |m.verts|
    requires m.verts[v].valence < 0 ==> HasBoundaryEdge(m, VOrbit(m, m.verts[v].edge))
    ensures s < |m.edges|
  {
    if m.verts[v].valence < 0 then BoundaryEdge(m, v) else m.verts[v].edge
  }

  /** The two vertex indices bracketing the boundary at `v`. */
  function BoundaryPair(m: Mesh, v: nat): seq<int>
    requires Navigable(m) && v < |m.verts|
    requires HasBoundaryEdge(m, VOrbit(m, m.verts[v].edge))
  {
    var b := BoundaryEdge(m, v);
    [DestIdx(m, b), OriginIdx(m, m.fPrev[m.vPrev[b]])]
  }

  function LeftValence(m: Mesh, e: nat): int
    requires Navigable(m) && e < |m.edges|
  {
    m.faces[m.edges[e].leftFace].valence
  }

  function LeftNewIdx(m: Mesh, e: nat): int
    requires Navigable(m) && e < |m.edges|
  {
    m.faces[m.edges[e].leftFace].newIdx
  }

  function Sharpness(m: Mesh, e: nat): real
    requires Navigable(m) && e < |m.edges|
  {
    m.edges[e].sharpness
  }

  /** Some half-edge of the walk borders a face excluded from the patch set. */
  ghost predicate MeetsExcludedFace(m: Mesh, es: seq<nat>)
    requires Navigable(m) && InArena(m, es)
  {
    exists k :: 0 <= k < |es| && LeftNewIdx(m, es[k]) < 0
  }

  /** The destination index of each half-edge of the walk, plus `offset`. */
  function Dests(m: Mesh, es: seq<nat>, offset: int): (ds: seq<int>)
    requires Navigable(m) && InArena(m, es)
    ensures |ds| == |es|
  {
    seq(|es|, k requires 0 <= k < |es| => offset + DestIdx(m, es[k]))
  }

  /** The destination index of the fNext of each half-edge of the walk, plus `offset`. */
  function FaceNextDests(m: Mesh, es: seq<nat>, offset: int): (ds: seq<int>)
    requires Navigable(m) && InArena(m, es)
    ensures |ds| == |es|
  {
    seq(|es|, k requires 0 <= k < |es| => offset + DestIdx(m, m.fNext[es[k]]))
  }

  /** The `newIdx` of the left face of each half-edge of the walk. */
  function LeftNewIdxs(m: Mesh, es: seq<nat>): (ns: seq<int>)
    requires Navigable(m) && InArena(m, es)
    ensures |ns| == |es|
  {
    seq(|es|, k requires 0 <= k < |es| => LeftNewIdx(m, es[k]))
  }

  /** The sharpness of each half-edge of the walk. */
  function Sharpnesses(m: Mesh, es: seq<nat>): (ss: seq<real>)
    requires Navigable(m) && InArena(m, es)
    ensures |ss| == |es|
  {
    seq(|es|, k requires 0 <= k < |es| => Sharpness(m, es[k]))
  }

  /** What Vertex::getOneRingIndices emits for a walk: per half-edge its destination, then the destination of its fNext, offset. */
  function RingIndices(m: Mesh, es: seq<nat>, offset: int): seq<int>
    requires Navigable(m) && InArena(m, es)
  {
    Interleave(Dests(m, es, offset), FaceNextDests(m, es, offset), |es|)
  }

  /** What Vertex::getOneRingMeta records for a walk: per half-edge its destination, then its left face's `newIdx`. */
  function NeighbourEntries(m: Mesh, es: seq<nat>): seq<int>
    requires Navigable(m) && InArena(m, es)
  {
    Interleave(Dests(m, es, 0), LeftNewIdxs(m, es), |es|)
  }

  /** The destinations of the creased half-edges of the walk, in walk order. */
  function CreasedDests(m: Mesh, es: seq<nat>): seq<int>
    requires Navigable(m) && InArena(m, es)
  {
    Select(Creased(Sharpnesses(m, es)), Dests(m, es, 0), |es|)
  }

  /** The number of creased half-edges of the walk. */
  function CreaseCount(m: Mesh, es: seq<nat>): nat
    requires Navigable(m) && InArena(m, es)
  {
    Count(Creased(Sharpnesses(m, es)))
  }

  /** The total sharpness of the creased half-edges of the walk. */
  function CreasedSharpness(m: Mesh, es: seq<nat>): real
    requires Navigable(m) && InArena(m, es)
  {
    SumSelected(Creased(Sharpnesses(m, es)), Sharpnesses(m, es), |es|)
  }

  // ---------------------------------------------------------------------------
  // Properties of the reference definitions

  /** The one-ring indices hold two entries per walked half-edge, at positions 2t and 2t + 1. */
  lemma RingIndicesAt(m: Mesh, es: seq<nat>, offset: int)
    requires Navigable(m) && InArena(m, es)
    ensures |RingIndices(m, es, offset)| == 2 * |es|
    ensures forall t :: 0 <= t < |es| ==>
      RingIndices(m, es, offset)[2 * t] == offset + DestIdx(m, es[t]) &&
      RingIndices(m, es, offset)[2 * t + 1] == offset + DestIdx(m, m.fNext[es[t]])
  {
    var xs, ys := Dests(m, es, offset), FaceNextDests(m, es, offset);
    InterleaveAt(xs, ys, |es|);
    forall t | 0 <= t < |es|
      ensures RingIndices(m, es, offset)[2 * t] == offset + DestIdx(m, es[t])
      ensures RingIndices(m, es, offset)[2 * t + 1] == offset + DestIdx(m, m.fNext[es[t]])
    {
      assert xs[t] == offset + DestIdx(m, es[t]);
      assert ys[t] == offset + DestIdx(m, m.fNext[es[t]]);
    }
  }

  /**
   * The neighbour list holds two entries per walked half-edge, at positions
   * 2t and 2t + 1; a completed walk thus records twice as many entries as
   * the vertex has outgoing half-edges.
   */
  lemma NeighbourEntriesAt(m: Mesh, es: seq<nat>)
    requires Navigable(m) && InArena(m, es)
    ensures |NeighbourEntries(m, es)| == 2 * |es|
    ensures forall t :: 0 <= t < |es| ==>
      NeighbourEntries(m, es)[2 * t] == DestIdx(m, es[t]) &&
      NeighbourEntries(m, es)[2 * t + 1] == LeftNewIdx(m, es[t])
  {
    var ds, ns := Dests(m, es, 0), LeftNewIdxs(m, es);
    InterleaveAt(ds, ns, |es|);
    forall t | 0 <= t < |es|
      ensures NeighbourEntries(m, es)[2 * t] == DestIdx(m, es[t])
      ensures NeighbourEntries(m, es)[2 * t + 1] == LeftNewIdx(m, es[t])
    {
      assert ds[t] == DestIdx(m, es[t]);
      assert ns[t] == LeftNewIdx(m, es[t]);
    }
  }

  /**
   * On a well-formed mesh an interior vertex of valence n has n outgoing
   * half-edges, so its neighbour list holds exactly 2n entries.
   */
  lemma NeighbourCountIsTwiceValence(m: Mesh, v: nat)
    requires Valid(m) && v < |m.verts| && m.verts[v].valence > 0
    ensures |NeighbourEntries(m, VOrbit(m, m.verts[v].edge))| == 2 * m.verts[v].valence
  {
    NeighbourEntriesAt(m, VOrbit(m, m.verts[v].edge));
  }

  /**
   * There is one crease destination per creased half-edge; when there are
   * exactly two, at walk positions a < b, they are the destinations of
   * those two half-edges, in walk order.
   */
  lemma CreasedDestsOfTwo(m: Mesh, es: seq<nat>, a: nat, b: nat)
    requires Navigable(m) && InArena(m, es)
    requires a < b < |es| && Sharpness(m, es[a]) > 0.0 && Sharpness(m, es[b]) > 0.0
    requires forall k :: 0 <= k < |es| && k != a && k != b ==> Sharpness(m, es[k]) <= 0.0
    ensures CreaseCount(m, es) == 2
    ensures CreasedDests(m, es) == [DestIdx(m, es[a]), DestIdx(m, es[b])]
  {
    var bs := Creased(Sharpnesses(m, es));
    forall k | 0 <= k < |bs| && bs[k]
      ensures k == a || k == b
    {
      assert Sharpness(m, es[k]) > 0.0;
    }
    SelectTwo(bs, Dests(m, es, 0), a, b);
    CountOnlyTwo(bs, a, b, |bs|);
  }

  /**
   * When every crease of the walk has one sharpness s, the reported average
   * (taken only over two or more creases) is s.
   */
  lemma UniformCreaseAverage(m: Mesh, es: seq<nat>, s: real)
    requires Navigable(m) && InArena(m, es)
    requires forall t :: 0 <= t < |es| && Sharpness(m, es[t]) > 0.0 ==> Sharpness(m, es[t]) == s
    requires CreaseCount(m, es) >= 2
    ensures CreasedSharpness(m, es) / (CreaseCount(m, es) as real) == s
  {
    var ss := Sharpnesses(m, es);
    var bs := Creased(ss);
    forall t | 0 <= t < |es| && bs[t]
      ensures ss[t] == s
    {
      assert Sharpness(m, es[t]) > 0.0;
    }
    SumSelectedAverage(bs, ss, s);
  }

  /**
   * The boundary edge leaves `v` and has no dual, and the half-edge reached
   * by vPrev then fPrev from it arrives at `v`: the two indices bracket the
   * two boundary directions leaving `v`.
   */
  lemma BoundaryEdgeBrackets(m: Mesh, v: nat)
    requires Valid(m) && v < |m.verts|
    requires HasBoundaryEdge(m, VOrbit(m, m.verts[v].edge))
    ensures m.edges[BoundaryEdge(m, v)].origin == v
    ensures m.edges[BoundaryEdge(m, v)].dual.None?
    ensures m.edges[m.fPrev[m.vPrev[BoundaryEdge(m, v)]]].dest == v
  {
    var edge := m.verts[v].edge;
    var es := VOrbit(m, edge);
    var b := BoundaryEdge(m, v);
    VOrbitOrigin(m, edge, FirstDualless(m, es));
    var p := m.vPrev[b];
    assert m.edges[m.vNext[p]].origin == m.edges[p].origin;
    var q := m.fPrev[p];
    assert m.edges[m.fNext[q]].origin == m.edges[q].dest;
  }

  // ---------------------------------------------------------------------------
  // Queries

  /** Vertex::numTrackableOutgoingEdges: the number of vNext steps that bring the walk back to the anchor. */
  method NumTrackableOutgoingEdges(m: Mesh, v: nat) returns (count: int)
    requires Navigable(m) && v < |m.verts|
    ensures count >= 1
    ensures Iter(m.vNext, m.verts[v].edge, count) == m.verts[v].edge
    ensures forall j :: 1 <= j < count ==> Iter(m.vNext, m.verts[v].edge, j) != m.verts[v].edge
  {
    var edge := m.verts[v].edge;
    ghost var orb := VOrbit(m, edge);
    VOrbitCloses(m, edge);
    var cur := edge;
    count := 0;
    while true
      invariant 0 <= count < |orb|
      invariant cur == Iter(m.vNext, edge, count)
      decreases |orb| - count
    {
      count := count + 1;
      cur := m.vNext[cur];
      if cur == edge {
        break;
      }
    }
  }

  /** The `while (cur->dual)` scan of Vertex::getOneRingIndices: the first dual-less half-edge round `v`. */
  method ScanToBoundary(m: Mesh, v: nat) returns (b: nat)
    requires Navigable(m) && v < |m.verts|
    requires HasBoundaryEdge(m, VOrbit(m, m.verts[v].edge))
    ensures b < |m.edges| && m.edges[b].dual.None?
    ensures b == BoundaryEdge(m, v)
  {
    var edge := m.verts[v].edge;
    ghost var orb := VOrbit(m, edge);
    ghost var j := FirstDualless(m, orb);
    b := edge;
    ghost var k := 0;
    while m.edges[b].dual.Some?
      invariant 0 <= k <= j && b == orb[k]
      decreases j - k
    {
      VStep(m, edge, k);
      b := m.vNext[b];
      k := k + 1;
    }
  }

  /** The list after the emission loop of Vertex::getOneRingIndices has visited the first n half-edges of the walk. */
  function EmitFirst(m: Mesh, es: seq<nat>, n: nat, offset: int, init: seq<int>): seq<int>
    requires Navigable(m) && InArena(m, es) && n <= |es|
  {
    if n == 0 then init
    else EmitFirst(m, es, n - 1, offset, init) + [offset + DestIdx(m, es[n - 1])] + [offset + DestIdx(m, m.fNext[es[n - 1]])]
  }

  /** The emitted list is the initial one followed by the one-ring indices of the half-edges visited. */
  lemma {:induction false} EmitFirstRing(m: Mesh, es: seq<nat>, n: nat, offset: int, init: seq<int>)
    requires Navigable(m) && InArena(m, es) && n <= |es|
    ensures EmitFirst(m, es, n, offset, init) ==
      init + Interleave(Dests(m, es, offset), FaceNextDests(m, es, offset), n)
  {
    if n > 0 {
      EmitFirstRing(m, es, n - 1, offset, init);
      var xs, ys := Dests(m, es, offset), FaceNextDests(m, es, offset);
      AppendAssoc(init, Interleave(xs, ys, n - 1), [xs[n - 1], ys[n - 1]]);
    }
  }

  /** The do/while emission loop of Vertex::getOneRingIndices, walking round from `start`. */
  method EmitRing(m: Mesh, start: nat, firstVertexOffset: int, indices: seq<int>) returns (out: seq<int>)
    requires Navigable(m) && start < |m.edges|
    ensures out == indices + RingIndices(m, VOrbit(m, start), firstVertexOffset)
  {
    ghost var s := VOrbit(m, start);
    var cur := start;
    out := indices;
    ghost var i := 0;
    while true
      invariant 0 <= i < |s| && cur == s[i]
      invariant out == EmitFirst(m, s, i, firstVertexOffset, indices)
      decreases |s| - i
    {
      VStep(m, start, i);
      out := out + [firstVertexOffset + DestIdx(m, cur)];
      out := out + [firstVertexOffset + DestIdx(m, m.fNext[cur])];
      cur := m.vNext[cur];
      i := i + 1;
      if cur == start {
        break;
      }
    }
    EmitFirstRing(m, s, |s|, firstVertexOffset, indices);
  }

  /**
   * Vertex::getOneRingIndices: appends the offset one-ring indices of the
   * walk round `v`; a boundary vertex starts at its boundary edge and adds
   * one trailing index, the origin of vPrev then fPrev of that edge.
   */
  method GetOneRingIndices(m: Mesh, v: nat, firstVertexOffset: int, indices: seq<int>)
    returns (out: seq<int>)
    requires Navigable(m) && v < |m.verts|
    requires m.verts[v].valence < 0 ==> HasBoundaryEdge(m, VOrbit(m, m.verts[v].edge))
    requires forall t :: 0 <= t < |VOrbit(m, WalkStart(m, v))| ==> LeftValence(m, VOrbit(m, WalkStart(m, v))[t]) == 4
    ensures m.verts[v].valence >= 0 ==>
      out == indices + RingIndices(m, VOrbit(m, WalkStart(m, v)), firstVertexOffset)
    ensures m.verts[v].valence < 0 ==>
      out == indices + RingIndices(m, VOrbit(m, WalkStart(m, v)), firstVertexOffset) +
             [firstVertexOffset + OriginIdx(m, m.fPrev[m.vPrev[WalkStart(m, v)]])]
  {
    var start := m.verts[v].edge;
    if m.verts[v].valence < 0 {
      start := ScanToBoundary(m, v);
    }
    out := EmitRing(m, start, firstVertexOffset, indices);
    if m.verts[v].valence < 0 {
      out := out + [firstVertexOffset + OriginIdx(m, m.fPrev[m.vPrev[start]])];
    }
  }

  /**
   * Vertex::findBoundaryIndices: for a general boundary vertex (valence below
   * -2) appends the destination of its boundary edge and the origin of that
   * edge's vPrev then fPrev; appends nothing otherwise.
   */
  method FindBoundaryIndices(m: Mesh, v: nat, bis: seq<int>) returns (out: seq<int>)
    requires Navigable(m) && v < |m.verts|
    requires m.verts[v].valence < -2 ==> HasBoundaryEdge(m, VOrbit(m, m.verts[v].edge))
    ensures m.verts[v].valence >= -2 ==> out == bis
    ensures m.verts[v].valence < -2 ==> out == bis + BoundaryPair(m, v)
  {
    if m.verts[v].valence >= -2 {
      return bis;
    }
    var edge := m.verts[v].edge;
    ghost var orb := VOrbit(m, edge);
    ghost var j := FirstDualless(m, orb);
    var e := edge;
    ghost var k := 0;
    while true
      invariant 0 <= k <= j && e == orb[k]
      decreases j - k
    {
      if m.edges[e].dual.None? {
        break;
      }
      VStep(m, edge, k);
      e := m.vNext[e];
      k := k + 1;
      if e == edge {
        break;
      }
    }
    out := bis + [DestIdx(m, e)];
    e := m.fPrev[m.vPrev[e]];
    out := out + [OriginIdx(m, e)];
  }

  /** The four records Vertex::getOneRingMeta keeps while it walks. */
  datatype MetaRecords = MetaRecords(neighbours: seq<int>, creases: seq<int>, count: int, totalSharpness: real)

  /** The records after one more half-edge `e` whose left face is in the patch set. */
  function MetaVisit(m: Mesh, r: MetaRecords, e: nat): MetaRecords
    requires Navigable(m) && e < |m.edges|
  {
    var nb := r.neighbours + [DestIdx(m, e)] + [LeftNewIdx(m, e)];
    if Sharpness(m, e) > 0.0 then
      MetaRecords(nb, r.creases + [DestIdx(m, e)], r.count + 1, r.totalSharpness + Sharpness(m, e))
    else
      MetaRecords(nb, r.creases, r.count, r.totalSharpness)
  }

  /**
   * The records after the first n half-edges of the walk, starting from
   * `init`; None once a half-edge whose left face is excluded from the patch
   * set has been met.
   */
  function MetaWalk(m: Mesh, es: seq<nat>, n: nat, init: MetaRecords): Option<MetaRecords>
    requires Navigable(m) && InArena(m, es) && n <= |es|
  {
    if n == 0 then Some(init)
    else
      match MetaWalk(m, es, n - 1, init)
      case None => None
      case Some(r) => if LeftNewIdx(m, es[n - 1]) < 0 then None else Some(MetaVisit(m, r, es[n - 1]))
  }

  /** The walk gives up exactly when one of the first n half-edges borders an excluded face. */
  lemma {:induction false} MetaWalkExcluded(m: Mesh, es: seq<nat>, n: nat, init: MetaRecords)
    requires Navigable(m) && InArena(m, es) && n <= |es|
    ensures MetaWalk(m, es, n, init).None? <==> exists t :: 0 <= t < n && LeftNewIdx(m, es[t]) < 0
  {
    if n > 0 {
      MetaWalkExcluded(m, es, n - 1, init);
    }
  }

  /** A walk that is not stopped grows the neighbour list by the destination and face index of each half-edge. */
  lemma {:induction false} MetaWalkNeighbours(m: Mesh, es: seq<nat>, n: nat, init: MetaRecords)
    requires Navigable(m) && InArena(m, es) && n <= |es|
    requires MetaWalk(m, es, n, init).Some?
    ensures MetaWalk(m, es, n, init).value.neighbours ==
      init.neighbours + Interleave(Dests(m, es, 0), LeftNewIdxs(m, es), n)
  {
    if n > 0 {
      MetaWalkNeighbours(m, es, n - 1, init);
      var ds, ns := Dests(m, es, 0), LeftNewIdxs(m, es);
      var r := MetaWalk(m, es, n - 1, init).value;
      assert MetaWalk(m, es, n, init).value.neighbours == r.neighbours + [ds[n - 1]] + [ns[n - 1]];
      AppendAssoc(init.neighbours, Interleave(ds, ns, n - 1), [ds[n - 1], ns[n - 1]]);
    }
  }

  /** A walk that is not stopped extends the crease list by the destination of each creased half-edge. */
  lemma {:induction false} MetaWalkCreases(m: Mesh, es: seq<nat>, n: nat, init: MetaRecords)
    requires Navigable(m) && InArena(m, es) && n <= |es|
    requires MetaWalk(m, es, n, init).Some?
    ensures MetaWalk(m, es, n, init).value.creases ==
      init.creases + Select(Creased(Sharpnesses(m, es)), Dests(m, es, 0), n)
  {
    if n > 0 {
      MetaWalkCreases(m, es, n - 1, init);
      var ds, bs := Dests(m, es, 0), Creased(Sharpnesses(m, es));
      assert bs[n - 1] == (Sharpness(m, es[n - 1]) > 0.0);
      AppendAssoc(init.creases, Select(bs, ds, n - 1), [ds[n - 1]]);
    }
  }

  /** A walk that is not stopped adds the number and the summed sharpness of the creased half-edges. */
  lemma {:induction false} MetaWalkCreaseTotals(m: Mesh, es: seq<nat>, n: nat, init: MetaRecords)
    requires Navigable(m) && InArena(m, es) && n <= |es|
    requires MetaWalk(m, es, n, init).Some?
    ensures MetaWalk(m, es, n, init).value.count == init.count + CountFirst(Creased(Sharpnesses(m, es)), n)
    ensures MetaWalk(m, es, n, init).value.totalSharpness ==
      init.totalSharpness + SumSelected(Creased(Sharpnesses(m, es)), Sharpnesses(m, es), n)
  {
    if n > 0 {
      MetaWalkCreaseTotals(m, es, n - 1, init);
    }
  }

  /**
   * The body of the loop of Vertex::getOneRingMeta for half-edge `e`: it
   * records the destination index and, unless the left face is excluded from
   * the patch set (which stops the walk), the face's `newIdx` and the crease.
   */
  method VisitMeta(m: Mesh, e: nat, r: MetaRecords) returns (stop: bool, r': MetaRecords)
    requires Navigable(m) && e < |m.edges|
    ensures stop <==> LeftNewIdx(m, e) < 0
    ensures stop ==> r' == r.(neighbours := r.neighbours + [DestIdx(m, e)])
    ensures !stop ==> r' == MetaVisit(m, r, e)
  {
    r' := r.(neighbours := r.neighbours + [DestIdx(m, e)]);
    if LeftNewIdx(m, e) < 0 {
      return true, r';
    }
    r' := r'.(neighbours := r'.neighbours + [LeftNewIdx(m, e)]);
    if Sharpness(m, e) > 0.0 {
      r' := r'.(creases := r'.creases + [DestIdx(m, e)]);
      r' := r'.(totalSharpness := r'.totalSharpness + Sharpness(m, e));
      r' := r'.(count := r'.count + 1);
    }
    stop := false;
  }

  /**
   * The do/while loop of Vertex::getOneRingMeta, walking round from `edge`:
   * it stops early at the first face excluded from the patch set, and
   * otherwise returns the records after the whole walk.
   */
  method WalkOneRingMeta(m: Mesh, edge: nat, init: MetaRecords) returns (excluded: bool, r: MetaRecords)
    requires Navigable(m) && edge < |m.edges|
    ensures excluded <==> MeetsExcludedFace(m, VOrbit(m, edge))
    ensures !excluded ==> MetaWalk(m, VOrbit(m, edge), |VOrbit(m, edge)|, init) == Some(r)
  {
    ghost var es := VOrbit(m, edge);
    var cur := edge;
    r := init;
    ghost var k := 0;
    while true
      invariant 0 <= k < |es| && cur == es[k]
      invariant MetaWalk(m, es, k, init) == Some(r)
      decreases |es| - k
    {
      VStep(m, edge, k);
      excluded, r := VisitMeta(m, cur, r);
      if excluded {
        return;
      }
      cur := m.vNext[cur];
      k := k + 1;
      if cur == edge {
        break;
      }
    }
    MetaWalkExcluded(m, es, |es|, init);
  }

  /**
   * Vertex::getOneRingMeta. A general boundary vertex (valence below -2)
   * reports its boundary pair in `creases`; a corner (-2) reports the pair
   * -1, -1. Every other valence, -1 included, walks the one-ring: a face
   * excluded from the patch set anywhere on the walk turns the answer into
   * the corner rule; otherwise `neighbours` gains each destination index
   * and face `newIdx`, the creased half-edges are counted and their
   * destinations kept only when there are exactly two, and the average
   * sharpness is kept only when there are at least two.
   */
  method GetOneRingMeta(m: Mesh, v: nat, neighbours: seq<int>, creases: seq<int>)
    returns (code: int, neighboursOut: seq<int>, numCreases: int, averageSharpness: real, creasesOut: seq<int>)
    requires Navigable(m) && v < |m.verts|
    requires m.verts[v].valence < -2 ==> HasBoundaryEdge(m, VOrbit(m, m.verts[v].edge))
    ensures m.verts[v].valence < -2 ==>
      code == m.verts[v].valence && neighboursOut == [] && numCreases == 0 && averageSharpness == 0.0 &&
      creasesOut == creases + BoundaryPair(m, v)
    ensures m.verts[v].valence == -2 ==>
      code == -2 && neighboursOut == [] && numCreases == 0 && averageSharpness == 0.0 &&
      creasesOut == creases + [-1, -1]
    ensures var es := VOrbit(m, m.verts[v].edge);
      m.verts[v].valence >= -1 && MeetsExcludedFace(m, es) ==>
        code == -2 && neighboursOut == [] && numCreases == 0 && averageSharpness == 0.0 &&
        creasesOut == [-1, -1]
    ensures var es := VOrbit(m, m.verts[v].edge);
      m.verts[v].valence >= -1 && !MeetsExcludedFace(m, es) ==>
        code == m.verts[v].valence &&
        neighboursOut == neighbours + NeighbourEntries(m, es) &&
        numCreases == CreaseCount(m, es) &&
        creasesOut == (if numCreases == 2 then creases + CreasedDests(m, es) else [-1, -1]) &&
        averageSharpness == (if numCreases < 2 then 0.0 else CreasedSharpness(m, es) / (numCreases as real))
    ensures Valid(m) && m.verts[v].valence > 0 && !MeetsExcludedFace(m, VOrbit(m, m.verts[v].edge)) ==>
      |neighboursOut| == |neighbours| + 2 * m.verts[v].valence
  {
    var valence := m.verts[v].valence;
    if valence < -2 {
      neighboursOut := [];
      numCreases := 0;
      averageSharpness := 0.0;
      creasesOut := FindBoundaryIndices(m, v, creases);
      return valence, neighboursOut, numCreases, averageSharpness, creasesOut;
    }
    if valence == -2 {
      neighboursOut := [];
      numCreases := 0;
      averageSharpness := 0.0;
      creasesOut := creases + [-1, -1];
      return valence, neighboursOut, numCreases, averageSharpness, creasesOut;
    }

    var edge := m.verts[v].edge;
    var excluded, r := WalkOneRingMeta(m, edge, MetaRecords(neighbours, creases, 0, 0.0));
    if !excluded {
      ghost var es, init := VOrbit(m, edge), MetaRecords(neighbours, creases, 0, 0.0);
      MetaWalkNeighbours(m, es, |es|, init);
      MetaWalkCreases(m, es, |es|, init);
      MetaWalkCreaseTotals(m, es, |es|, init);
      if Valid(m) && valence > 0 {
        NeighbourCountIsTwiceValence(m, v);
      }
    }
    var count, totalSharpness := r.count, r.totalSharpness;
    neighboursOut, creasesOut := r.neighbours, r.creases;
    if excluded {
      neighboursOut := [];
      numCreases := 0;
      averageSharpness := 0.0;
      creasesOut := [-1, -1];
      return -2, neighboursOut, numCreases, averageSharpness, creasesOut;
    }
    numCreases := count;
    if count != 2 {
      creasesOut := [-1, -1];
    }
    if count < 2 {
      averageSharpness := 0.0;
    } else {
      averageSharpness := totalSharpness / (count as real);
    }
    return valence, neighboursOut, numCreases, averageSharpness, creasesOut;
  }

  /**
   * Vertex::isUnevaluable: boundary vertices are always evaluable; any other
   * valence but 4 is not; a valence-4 vertex is evaluable exactly when its
   * creases form one straight crease of a single sharpness.
   */
  method IsUnevaluable(m: Mesh, v: nat) returns (r: bool)
    requires Navigable(m) && v < |m.verts|
    ensures m.verts[v].valence < 0 ==> !r
    ensures 0 <= m.verts[v].valence && m.verts[v].valence != 4 ==> r
    ensures m.verts[v].valence == 4 ==> (r <==> !StraightCrease(Sharpnesses(m, VOrbit(m, m.verts[v].edge))))
  {
    var valence := m.verts[v].valence;
    if valence < 0 {
      return false;
    }
    if valence != 4 {
      return true;
    }

    var edge := m.verts[v].edge;
    ghost var es := VOrbit(m, edge);
    ghost var ss := Sharpnesses(m, es);
    ghost var flags := Creased(ss);
    var cur := edge;
    var numCreases, index := 0, 0;
    var firstAt, secondAt := 0, 0;
    var lastSharpness := -1.0;
    while true
      invariant 0 <= index < |es| && cur == es[index]
      invariant numCreases == CountFirst(flags, index)
      invariant numCreases == 0 ==> lastSharpness == -1.0
      invariant numCreases >= 1 ==>
        firstAt < index && ss[firstAt] > 0.0 && CountFirst(flags, firstAt) == 0 && lastSharpness == ss[firstAt]
      invariant numCreases >= 2 ==>
        secondAt < index && ss[secondAt] > 0.0 && CountFirst(flags, secondAt) == 1
      invariant forall t :: 0 <= t < index && ss[t] > 0.0 ==> ss[t] == lastSharpness
      decreases |es| - index
    {
      VStep(m, edge, index);
      if Sharpness(m, cur) > 0.0 {
        if lastSharpness < 0.0 {
          lastSharpness := Sharpness(m, cur);
        } else if lastSharpness != Sharpness(m, cur) {
          MixedSharpnessNotStraight(ss, firstAt, index);
          return true; // two creases of different sharpness
        }
        if numCreases == 0 {
          firstAt := index;
        }
        if numCreases == 1 {
          secondAt := index;
        }
        numCreases := numCreases + 1;
      }
      index := index + 1;
      cur := m.vNext[cur];
      if cur == edge {
        break;
      }
    }

    assert index == |es|;
    if numCreases != 2 {
      if StraightCrease(ss) {
        StraightCreaseHasTwo(ss);
      }
      return true;
    }
    StraightCreaseByFirstTwo(ss, firstAt, secondAt);
    if secondAt - firstAt != 2 {
      return true; // bent crease
    }
    return false;
  }
}
