/**
 * The half-edge graph as an immutable arena.
 *
 * Vertices, half-edges and faces are held in sequences and refer to each
 * other by index. The four navigation relations (`vNext`/`vPrev` around a
 * vertex, `fNext`/`fPrev` around a face) are index-to-index maps; their
 * construction belongs to the mesh builder and is taken as given, subject to
 * `Valid`.
 */
module HalfEdgeMesh {
  import opened Wrappers
  import opened Orbits

  /** `idx` is the render index; `valence` the signed classification code; `edge` one outgoing half-edge. */
  datatype Vertex = Vertex(idx: int, valence: int, edge: nat)

  /** A directed half-edge; `dual` is the oppositely directed twin, absent on the mesh boundary. */
  datatype Edge = Edge(
    origin: nat,
    dest: nat,
    leftFace: nat,
    rightFace: Option<nat>,
    dual: Option<nat>,
    sharpness: real,
    isTriangleHead: bool)

  /** `right` is one half-edge of the face; a negative `newIdx` marks a face excluded from the patch set. */
  datatype Face = Face(valence: int, right: nat, newIdx: int)

  datatype Mesh = Mesh(
    verts: seq<Vertex>,
    edges: seq<Edge>,
    faces: seq<Face>,
    vNext: seq<nat>,
    vPrev: seq<nat>,
    fNext: seq<nat>,
    fPrev: seq<nat>)

  /** Every reference held by a half-edge names an element of the arena. */
  ghost predicate EdgeInArena(m: Mesh, e: Edge)
  {
    e.origin < |m.verts| && e.dest < |m.verts| && e.leftFace < |m.faces| &&
    (e.rightFace.Some? ==> e.rightFace.value < |m.faces|) &&
    (e.dual.Some? ==> e.dual.value < |m.edges|)
  }

  /**
   * The guarantees every walk and every lookup needs: the navigation maps
   * and all references stay inside the arena, and every walk round a vertex
   * or a face comes back to its start.
   */
  ghost predicate Navigable(m: Mesh)
  {
    IsMap(m.vNext) && IsMap(m.fNext) && IsMap(m.vPrev) && IsMap(m.fPrev) &&
    |m.vNext| == |m.edges| && |m.fNext| == |m.edges| &&
    |m.vPrev| == |m.edges| && |m.fPrev| == |m.edges| &&
    (forall e :: 0 <= e < |m.edges| ==> EdgeInArena(m, m.edges[e])) &&
    (forall e :: 0 <= e < |m.edges| ==> Returns(m.vNext, e) && Returns(m.fNext, e)) &&
    (forall v :: 0 <= v < |m.verts| ==> m.verts[v].edge < |m.edges|) &&
    (forall f :: 0 <= f < |m.faces| ==> m.faces[f].right < |m.edges|)
  }

  /** The structural guarantees the mesh builder provides before any query runs. */
  ghost predicate Valid(m: Mesh)
  {
    Navigable(m) &&
    // vPrev and fPrev are the two-sided inverses of vNext and fNext
    (forall e {:trigger m.vPrev[e]} :: 0 <= e < |m.edges| ==> m.vNext[m.vPrev[e]] == e) &&
    (forall e {:trigger m.vNext[e]} :: 0 <= e < |m.edges| ==> m.vPrev[m.vNext[e]] == e) &&
    (forall e {:trigger m.fPrev[e]} :: 0 <= e < |m.edges| ==> m.fNext[m.fPrev[e]] == e) &&
    (forall e {:trigger m.fNext[e]} :: 0 <= e < |m.edges| ==> m.fPrev[m.fNext[e]] == e) &&
    // stepping around a vertex keeps the origin; stepping around a face continues from the destination
    (forall e {:trigger m.vNext[e]} :: 0 <= e < |m.edges| ==> m.edges[m.vNext[e]].origin == m.edges[e].origin) &&
    (forall e {:trigger m.fNext[e]} :: 0 <= e < |m.edges| ==> m.edges[m.fNext[e]].origin == m.edges[e].dest) &&
    (forall v :: 0 <= v < |m.verts| ==> m.edges[m.verts[v].edge].origin == v) &&
    // a positive vertex valence is the number of its outgoing half-edges
    (forall v {:trigger Period(m.vNext, m.verts[v].edge)} :: 0 <= v < |m.verts| && m.verts[v].valence > 0 ==>
       m.verts[v].valence == Period(m.vNext, m.verts[v].edge)) &&
    // a face's valence is the number of its half-edges
    (forall f {:trigger Period(m.fNext, m.faces[f].right)} :: 0 <= f < |m.faces| ==>
       m.faces[f].valence == Period(m.fNext, m.faces[f].right))
  }

  /** Every element of `es` names a half-edge of the arena. */
  ghost predicate InArena(m: Mesh, es: seq<nat>)
  {
    forall k :: 0 <= k < |es| ==> es[k] < |m.edges|
  }

  /** The outgoing half-edges met walking round a vertex from `e` by vNext. */
  function VOrbit(m: Mesh, e: nat): (es: seq<nat>)
    requires Navigable(m) && e < |m.edges|
    ensures 1 <= |es| <= |m.edges| && es[0] == e
    ensures forall k :: 0 <= k < |es| ==> es[k] < |m.edges|
  {
    Orbit(m.vNext, e)
  }

  /** The half-edges met walking round a face from `e` by fNext. */
  function FOrbit(m: Mesh, e: nat): (es: seq<nat>)
    requires Navigable(m) && e < |m.edges|
    ensures 1 <= |es| <= |m.edges| && es[0] == e
    ensures forall k :: 0 <= k < |es| ==> es[k] < |m.edges|
  {
    Orbit(m.fNext, e)
  }

  /** The half-edges of face `f` in walk order from its `right` edge. */
  function FaceEdges(m: Mesh, f: nat): (es: seq<nat>)
    requires Navigable(m) && f < |m.faces|
    ensures 1 <= |es| && es[0] == m.faces[f].right
    ensures forall k :: 0 <= k < |es| ==> es[k] < |m.edges|
  {
    FOrbit(m, m.faces[f].right)
  }

  function OriginIdx(m: Mesh, e: nat): int
    requires Navigable(m) && e < |m.edges|
  {
    m.verts[m.edges[e].origin].idx
  }

  function DestIdx(m: Mesh, e: nat): int
    requires Navigable(m) && e < |m.edges|
  {
    m.verts[m.edges[e].dest].idx
  }

  function OriginValence(m: Mesh, e: nat): int
    requires Navigable(m) && e < |m.edges|
  {
    m.verts[m.edges[e].origin].valence
  }

  /** Every half-edge met walking round a vertex leaves that vertex. */
  lemma {:induction false} VOrbitOrigin(m: Mesh, e: nat, k: nat)
    requires Valid(m) && e < |m.edges|
    ensures m.edges[Iter(m.vNext, e, k)].origin == m.edges[e].origin
    decreases k
  {
    if k > 0 {
      VOrbitOrigin(m, e, k - 1);
    }
  }

  /** The walk round a vertex or a face stops exactly when it is back at its start. */
  lemma VOrbitCloses(m: Mesh, e: nat)
    requires Navigable(m) && e < |m.edges|
    ensures Iter(m.vNext, e, |VOrbit(m, e)|) == e
  {
    PeriodReturns(m.vNext, e);
  }

  /**
   * One step of a do/while walk round a vertex: position k + 1 is the vNext
   * of position k and differs from the start; after the last position the
   * walk is back at the start.
   */
  lemma VStep(m: Mesh, e: nat, k: nat)
    requires Navigable(m) && e < |m.edges| && k < |VOrbit(m, e)|
    ensures k + 1 < |VOrbit(m, e)| ==> VOrbit(m, e)[k + 1] == m.vNext[VOrbit(m, e)[k]] != e
    ensures k + 1 == |VOrbit(m, e)| ==> m.vNext[VOrbit(m, e)[k]] == e
  {
    assert VOrbit(m, e)[k] == Iter(m.vNext, e, k);
    PeriodReturns(m.vNext, e);
  }

  /** One step of a do/while walk round a face. */
  lemma FStep(m: Mesh, e: nat, k: nat)
    requires Navigable(m) && e < |m.edges| && k < |FOrbit(m, e)|
    ensures k + 1 < |FOrbit(m, e)| ==> FOrbit(m, e)[k + 1] == m.fNext[FOrbit(m, e)[k]] != e
    ensures k + 1 == |FOrbit(m, e)| ==> m.fNext[FOrbit(m, e)[k]] == e
  {
    assert FOrbit(m, e)[k] == Iter(m.fNext, e, k);
    PeriodReturns(m.fNext, e);
  }

  /** The walk round a face visits each of its half-edges once, so it has `valence` distinct half-edges. */
  lemma FaceEdgesDistinct(m: Mesh, f: nat)
    requires Valid(m) && f < |m.faces|
    ensures |FaceEdges(m, f)| == m.faces[f].valence
    ensures forall i, j :: 0 <= i < j < |FaceEdges(m, f)| ==> FaceEdges(m, f)[i] != FaceEdges(m, f)[j]
  {
    OrbitDistinct(m.fNext, m.fPrev, m.faces[f].right);
  }
}
