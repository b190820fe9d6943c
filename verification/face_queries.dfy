/**
 * Per-face queries of the half-edge mesh (the `Face` member functions of
 * FastCat/MeshUtility.cpp other than the one-ring index emission): corner
 * and crease counts, the boundary and triangle-head tests, the partial-patch
 * classification, the corner and edge lists, and the faces of the one ring.
 *
 * Every query walks the face's half-edges by fNext from its `right` edge,
 * visiting `FaceEdges(m, f)` in order. A per-position flag sequence says what
 * each visited half-edge contributes; the queries are proved against the
 * counts and lists of those flags.
 */
module FaceQueries {
  import opened Wrappers
  import opened Orbits
  import opened WalkRecords
  import opened HalfEdgeMesh

  // ---------------------------------------------------------------------------
  // What each half-edge of the walk contributes

  /** Which half-edges of the walk leave a boundary vertex (negative valence code). */
  function BoundaryCorners(m: Mesh, es: seq<nat>): (bs: seq<bool>)
    requires Navigable(m) && InArena(m, es)
    ensures |bs| == |es|
  {
    seq(|es|, k requires 0 <= k < |es| => OriginValence(m, es[k]) < 0)
  }

  /** Which sides of the walk count as creases: the sharp ones and those with no dual. */
  function CreaseEdges(m: Mesh, es: seq<nat>): (bs: seq<bool>)
    requires Navigable(m) && InArena(m, es)
    ensures |bs| == |es|
  {
    seq(|es|, k requires 0 <= k < |es| => m.edges[es[k]].sharpness > 0.0 || m.edges[es[k]].dual.None?)
  }

  /** The boundary valence codes that make a patch non-regular: -2, and anything below -3. */
  predicate NonregularCode(valence: int)
  {
    valence == -2 || valence < -3
  }

  function TriangleHeads(m: Mesh, es: seq<nat>): (bs: seq<bool>)
    requires Navigable(m) && InArena(m, es)
    ensures |bs| == |es|
  {
    seq(|es|, k requires 0 <= k < |es| => m.edges[es[k]].isTriangleHead)
  }

  /** The origin vertices of the walk, in walk order. */
  function Corners(m: Mesh, es: seq<nat>): (vs: seq<nat>)
    requires Navigable(m) && InArena(m, es)
    ensures |vs| == |es|
    ensures forall k :: 0 <= k < |es| ==> vs[k] < |m.verts|
  {
    seq(|es|, k requires 0 <= k < |es| => m.edges[es[k]].origin)
  }

  /**
   * A partial (transition) patch is connected when exactly two of its sides
   * are triangle heads and they are neighbours: one position apart, or at the
   * two ends of the walk (valence - 1 apart).
   */
  ghost predicate HeadsConnected(heads: seq<bool>, valence: int)
  {
    exists i: nat, j: nat :: FlaggedExactlyAt(heads, i, j) && (j - i == 1 || j - i == valence - 1)
  }

  // ---------------------------------------------------------------------------
  // Counting queries

  /** Face::numBoundaryVertices: how many corners of the face are boundary vertices. */
  method NumBoundaryVertices(m: Mesh, f: nat) returns (count: int)
    requires Navigable(m) && f < |m.faces|
    ensures count == Count(BoundaryCorners(m, FaceEdges(m, f)))
    ensures 0 <= count <= |FaceEdges(m, f)|
  {
    var right := m.faces[f].right;
    ghost var es := FaceEdges(m, f);
    ghost var bs := BoundaryCorners(m, es);
    var cur := right;
    count := 0;
    ghost var k := 0;
    while true
      invariant 0 <= k < |es| && cur == es[k]
      invariant count == CountFirst(bs, k)
      decreases |es| - k
    {
      FStep(m, right, k);
      if OriginValence(m, cur) < 0 {
        count := count + 1;
      }
      cur := m.fNext[cur];
      k := k + 1;
      if cur == right {
        break;
      }
    }
  }

  /** The count is the number of walk positions whose origin is a boundary vertex. */
  lemma BoundaryCornersCounted(m: Mesh, es: seq<nat>)
    requires Navigable(m) && InArena(m, es)
    ensures Count(BoundaryCorners(m, es)) == |set k | 0 <= k < |es| && OriginValence(m, es[k]) < 0|
  {
    var bs := BoundaryCorners(m, es);
    CountFirstIsCardinality(bs, |es|);
    assert (set k | 0 <= k < |es| && bs[k]) == (set k | 0 <= k < |es| && OriginValence(m, es[k]) < 0);
  }

  /** Face::numCreases: how many sides of the face are sharp or lie on the mesh boundary. */
  method NumCreases(m: Mesh, f: nat) returns (count: int)
    requires Navigable(m) && f < |m.faces|
    ensures count == Count(CreaseEdges(m, FaceEdges(m, f)))
    ensures 0 <= count <= |FaceEdges(m, f)|
  {
    var right := m.faces[f].right;
    ghost var es := FaceEdges(m, f);
    ghost var bs := CreaseEdges(m, es);
    var cur := right;
    count := 0;
    ghost var k := 0;
    while true
      invariant 0 <= k < |es| && cur == es[k]
      invariant count == CountFirst(bs, k)
      decreases |es| - k
    {
      FStep(m, right, k);
      if m.edges[cur].sharpness > 0.0 || m.edges[cur].dual.None? {
        count := count + 1;
      }
      cur := m.fNext[cur];
      k := k + 1;
      if cur == right {
        break;
      }
    }
  }

  /** The count is the number of sides that are sharp or have no dual. */
  lemma CreaseEdgesCounted(m: Mesh, es: seq<nat>)
    requires Navigable(m) && InArena(m, es)
    ensures Count(CreaseEdges(m, es)) ==
      |set k | 0 <= k < |es| && (m.edges[es[k]].sharpness > 0.0 || m.edges[es[k]].dual.None?)|
  {
    var bs := CreaseEdges(m, es);
    CountFirstIsCardinality(bs, |es|);
    assert (set k | 0 <= k < |es| && bs[k]) ==
      (set k | 0 <= k < |es| && (m.edges[es[k]].sharpness > 0.0 || m.edges[es[k]].dual.None?));
  }

  /** On a well-formed mesh both counts are bounded by the face's valence. */
  lemma CountsBoundedByValence(m: Mesh, f: nat)
    requires Valid(m) && f < |m.faces|
    ensures Count(BoundaryCorners(m, FaceEdges(m, f))) <= m.faces[f].valence
    ensures Count(CreaseEdges(m, FaceEdges(m, f))) <= m.faces[f].valence
  {
    FaceEdgesDistinct(m, f);
  }

  // ---------------------------------------------------------------------------
  // Tests with an early return

  /** Face::hasNonregularBoundary: some corner carries the boundary code -2 or one below -3. */
  method HasNonregularBoundary(m: Mesh, f: nat) returns (r: bool)
    requires Navigable(m) && f < |m.faces|
    ensures r <==> exists k :: 0 <= k < |FaceEdges(m, f)| && NonregularCode(OriginValence(m, FaceEdges(m, f)[k]))
  {
    var right := m.faces[f].right;
    ghost var es := FaceEdges(m, f);
    var cur := right;
    ghost var k := 0;
    while true
      invariant 0 <= k < |es| && cur == es[k]
      invariant forall t :: 0 <= t < k ==> !NonregularCode(OriginValence(m, es[t]))
      decreases |es| - k
    {
      FStep(m, right, k);
      var valence := OriginValence(m, cur);
      if valence == -2 || valence < -3 {
        return true;
      }
      cur := m.fNext[cur];
      k := k + 1;
      if cur == right {
        break;
      }
    }
    return false;
  }

  /** A non-regular boundary code is a boundary code: such a face has a boundary corner. */
  lemma NonregularHasBoundaryCorner(m: Mesh, f: nat, k: nat)
    requires Navigable(m) && f < |m.faces|
    requires k < |FaceEdges(m, f)| && NonregularCode(OriginValence(m, FaceEdges(m, f)[k]))
    ensures Count(BoundaryCorners(m, FaceEdges(m, f))) >= 1
  {
    var bs := BoundaryCorners(m, FaceEdges(m, f));
    CountGrows(bs, 0, k, |bs|);
  }

  /** Face::hasTriangleHead: some side of the face is a triangle head. */
  method HasTriangleHead(m: Mesh, f: nat) returns (r: bool)
    requires Navigable(m) && f < |m.faces|
    ensures r <==> exists k :: 0 <= k < |FaceEdges(m, f)| && m.edges[FaceEdges(m, f)[k]].isTriangleHead
  {
    var right := m.faces[f].right;
    ghost var es := FaceEdges(m, f);
    var cur := right;
    ghost var k := 0;
    while true
      invariant 0 <= k < |es| && cur == es[k]
      invariant forall t :: 0 <= t < k ==> !m.edges[es[t]].isTriangleHead
      decreases |es| - k
    {
      FStep(m, right, k);
      if m.edges[cur].isTriangleHead {
        return true;
      }
      cur := m.fNext[cur];
      k := k + 1;
      if cur == right {
        break;
      }
    }
    return false;
  }

  /** A face has a triangle head exactly when its triangle-head count is positive. */
  lemma TriangleHeadCounted(m: Mesh, f: nat)
    requires Navigable(m) && f < |m.faces|
    ensures (exists k :: 0 <= k < |FaceEdges(m, f)| && m.edges[FaceEdges(m, f)[k]].isTriangleHead)
      <==> Count(TriangleHeads(m, FaceEdges(m, f))) > 0
  {
    var es := FaceEdges(m, f);
    var bs := TriangleHeads(m, es);
    CountFirstZero(bs, |bs|);
    assert forall k :: 0 <= k < |es| ==> (bs[k] <==> m.edges[es[k]].isTriangleHead);
  }

  // ---------------------------------------------------------------------------
  // Partial patches

  /**
   * The walk of Face::getPartialPatchInfo: counts the triangle heads and
   * records the walk positions of the first two.
   */
  method ScanTriangleHeads(m: Mesh, f: nat) returns (numTriHeads: int, triHeadIdx0: nat, triHeadIdx1: nat)
    requires Navigable(m) && f < |m.faces|
    ensures numTriHeads == Count(TriangleHeads(m, FaceEdges(m, f)))
    ensures numTriHeads >= 1 ==>
      triHeadIdx0 < |FaceEdges(m, f)| && TriangleHeads(m, FaceEdges(m, f))[triHeadIdx0] &&
      CountFirst(TriangleHeads(m, FaceEdges(m, f)), triHeadIdx0) == 0
    ensures numTriHeads >= 2 ==>
      triHeadIdx1 < |FaceEdges(m, f)| && TriangleHeads(m, FaceEdges(m, f))[triHeadIdx1] &&
      CountFirst(TriangleHeads(m, FaceEdges(m, f)), triHeadIdx1) == 1
  {
    var right := m.faces[f].right;
    ghost var es := FaceEdges(m, f);
    ghost var heads := TriangleHeads(m, es);
    var cur := right;
    numTriHeads, triHeadIdx0, triHeadIdx1 := 0, 0, 0;
    var idx := 0;
    while true
      invariant 0 <= idx < |es| && cur == es[idx]
      invariant numTriHeads == CountFirst(heads, idx)
      invariant numTriHeads >= 1 ==> triHeadIdx0 < idx && heads[triHeadIdx0] && CountFirst(heads, triHeadIdx0) == 0
      invariant numTriHeads >= 2 ==> triHeadIdx1 < idx && heads[triHeadIdx1] && CountFirst(heads, triHeadIdx1) == 1
      decreases |es| - idx
    {
      FStep(m, right, idx);
      assert heads[idx] == m.edges[cur].isTriangleHead;
      assert CountFirst(heads, idx + 1) == numTriHeads + (if heads[idx] then 1 else 0);
      if m.edges[cur].isTriangleHead {
        if numTriHeads == 0 {
          triHeadIdx0 := idx;
        }
        if numTriHeads == 1 {
          triHeadIdx1 := idx;
        }
        numTriHeads := numTriHeads + 1;
      }
      idx := idx + 1;
      cur := m.fNext[cur];
      if cur == right {
        break;
      }
    }
  }

  /**
   * Face::getPartialPatchInfo. A face that is not a quad is reported
   * (`notQuad`, standing for the error message) and the caller's two outputs
   * come back unchanged; otherwise they are the number of triangle heads
   * among the sides and whether the patch is connected.
   */
  method GetPartialPatchInfo(m: Mesh, f: nat, numTriHeads: int, connected: bool)
    returns (notQuad: bool, numTriHeads': int, connected': bool)
    requires Navigable(m) && f < |m.faces|
    ensures notQuad <==> m.faces[f].valence != 4
    ensures notQuad ==> numTriHeads' == numTriHeads && connected' == connected
    ensures !notQuad ==> numTriHeads' == Count(TriangleHeads(m, FaceEdges(m, f)))
    ensures !notQuad ==> (connected' <==> HeadsConnected(TriangleHeads(m, FaceEdges(m, f)), 4))
  {
    var valence := m.faces[f].valence;
    if valence != 4 {
      return true, numTriHeads, connected;
    }
    notQuad, connected' := false, false;
    var triHeadIdx0, triHeadIdx1;
    numTriHeads', triHeadIdx0, triHeadIdx1 := ScanTriangleHeads(m, f);

    ghost var heads := TriangleHeads(m, FaceEdges(m, f));
    FlaggedExactlyCount(heads);
    if numTriHeads' == 2 {
      FirstTwoExactly(heads, triHeadIdx0, triHeadIdx1);
      if triHeadIdx1 - triHeadIdx0 == 1 || triHeadIdx1 - triHeadIdx0 == valence - 1 {
        connected' := true;
      }
    }
  }

  /**
   * On a well-formed quad, the two triangle heads of a connected patch are
   * consecutive sides of the face: one is the fNext of the other.
   */
  lemma ConnectedHeadsAdjacent(m: Mesh, f: nat, i: nat, j: nat)
    requires Valid(m) && f < |m.faces| && m.faces[f].valence == 4
    requires FlaggedExactlyAt(TriangleHeads(m, FaceEdges(m, f)), i, j)
    requires j - i == 1 || j - i == 3
    ensures m.fNext[FaceEdges(m, f)[i]] == FaceEdges(m, f)[j] || m.fNext[FaceEdges(m, f)[j]] == FaceEdges(m, f)[i]
  {
    FaceEdgesDistinct(m, f);
    FStep(m, m.faces[f].right, i);
    FStep(m, m.faces[f].right, j);
  }

  /** The connectivity rule on the three ways two heads can sit on a quad. */
  lemma HeadsConnectedOnQuad()
    ensures HeadsConnected([true, true, false, false], 4)
    ensures HeadsConnected([true, false, false, true], 4)
    ensures !HeadsConnected([true, false, true, false], 4)
  {
    assert FlaggedExactlyAt([true, true, false, false], 0, 1);
    assert FlaggedExactlyAt([true, false, false, true], 0, 3);
    var bs := [true, false, true, false];
    assert CountFirst(bs, 2) == 1 && CountFirst(bs, 3) == 2 && Count(bs) == 2;
    FirstTwoExactly(bs, 0, 2);
  }

  // ---------------------------------------------------------------------------
  // Corner and edge lists

  /** Face::getVertices (vector form): appends the corners in walk order. */
  method GetVerticesList(m: Mesh, f: nat, vs: seq<nat>) returns (out: seq<nat>)
    requires Navigable(m) && f < |m.faces|
    ensures out == vs + Corners(m, FaceEdges(m, f))
  {
    var right := m.faces[f].right;
    ghost var es := FaceEdges(m, f);
    var cur := right;
    out := vs;
    ghost var k := 0;
    while true
      invariant 0 <= k < |es| && cur == es[k]
      invariant out == vs + Corners(m, es)[..k]
      decreases |es| - k
    {
      FStep(m, right, k);
      assert Corners(m, es)[..k + 1] == Corners(m, es)[..k] + [m.edges[cur].origin];
      out := out + [m.edges[cur].origin];
      cur := m.fNext[cur];
      k := k + 1;
      if cur == right {
        break;
      }
    }
    assert Corners(m, es)[..k] == Corners(m, es);
  }

  /**
   * On a well-formed mesh the corners close up round the face: each side
   * ends at the corner the next side starts from.
   */
  lemma CornersCycle(m: Mesh, f: nat)
    requires Valid(m) && f < |m.faces|
    ensures forall k :: 0 <= k < |FaceEdges(m, f)| - 1 ==>
      m.edges[FaceEdges(m, f)[k]].dest == Corners(m, FaceEdges(m, f))[k + 1]
    ensures m.edges[FaceEdges(m, f)[|FaceEdges(m, f)| - 1]].dest == Corners(m, FaceEdges(m, f))[0]
  {
    var es := FaceEdges(m, f);
    forall k | 0 <= k < |es|
      ensures k + 1 < |es| ==> m.edges[es[k]].dest == m.edges[es[k + 1]].origin
      ensures k + 1 == |es| ==> m.edges[es[k]].dest == m.edges[es[0]].origin
    {
      FStep(m, m.faces[f].right, k);
    }
  }

  /** Face::getVertices (set form): adds the corners to the set. */
  method GetVerticesSet(m: Mesh, f: nat, vs: set<nat>) returns (out: set<nat>)
    requires Navigable(m) && f < |m.faces|
    ensures out == vs + Elements(Corners(m, FaceEdges(m, f)), |FaceEdges(m, f)|)
  {
    var right := m.faces[f].right;
    ghost var es := FaceEdges(m, f);
    ghost var cs := Corners(m, es);
    var cur := right;
    out := vs;
    ghost var k := 0;
    while true
      invariant 0 <= k < |es| && cur == es[k]
      invariant out == vs + Elements(cs, k)
      decreases |es| - k
    {
      FStep(m, right, k);
      out := out + {m.edges[cur].origin};
      cur := m.fNext[cur];
      k := k + 1;
      if cur == right {
        break;
      }
    }
  }

  /** The set form adds exactly the vertices the list form appends. */
  lemma CornerSetIsCornerList(m: Mesh, f: nat)
    requires Navigable(m) && f < |m.faces|
    ensures forall v :: v in Elements(Corners(m, FaceEdges(m, f)), |FaceEdges(m, f)|) <==> v in Corners(m, FaceEdges(m, f))
  {
    ElementsAt(Corners(m, FaceEdges(m, f)), |FaceEdges(m, f)|);
  }

  /** Face::getEdges (vector form): appends the sides in walk order. */
  method GetEdgesList(m: Mesh, f: nat, es0: seq<nat>) returns (out: seq<nat>)
    requires Navigable(m) && f < |m.faces|
    ensures out == es0 + FaceEdges(m, f)
  {
    var right := m.faces[f].right;
    ghost var es := FaceEdges(m, f);
    var cur := right;
    out := es0;
    ghost var k := 0;
    while true
      invariant 0 <= k < |es| && cur == es[k]
      invariant out == es0 + es[..k]
      decreases |es| - k
    {
      FStep(m, right, k);
      assert es[..k + 1] == es[..k] + [cur];
      out := out + [cur];
      cur := m.fNext[cur];
      k := k + 1;
      if cur == right {
        break;
      }
    }
    assert es[..k] == es;
  }

  /** Face::getEdges (set form): adds the sides to the set. */
  method GetEdgesSet(m: Mesh, f: nat, es0: set<nat>) returns (out: set<nat>)
    requires Navigable(m) && f < |m.faces|
    ensures out == es0 + Elements(FaceEdges(m, f), |FaceEdges(m, f)|)
  {
    var right := m.faces[f].right;
    ghost var es := FaceEdges(m, f);
    var cur := right;
    out := es0;
    ghost var k := 0;
    while true
      invariant 0 <= k < |es| && cur == es[k]
      invariant out == es0 + Elements(es, k)
      decreases |es| - k
    {
      FStep(m, right, k);
      out := out + {cur};
      cur := m.fNext[cur];
      k := k + 1;
      if cur == right {
        break;
      }
    }
  }

  /** On a well-formed mesh the set form adds `valence` distinct sides. */
  lemma EdgeSetSize(m: Mesh, f: nat)
    requires Valid(m) && f < |m.faces|
    ensures |Elements(FaceEdges(m, f), |FaceEdges(m, f)|)| == m.faces[f].valence
  {
    FaceEdgesDistinct(m, f);
    ElementsDistinct(FaceEdges(m, f), |FaceEdges(m, f)|);
  }

  // ---------------------------------------------------------------------------
  // Faces of the one ring

  /** The faces on either side of the first `n` half-edges of `ws`. */
  function SideFaces(m: Mesh, ws: seq<nat>, n: nat): set<nat>
    requires Navigable(m) && InArena(m, ws) && n <= |ws|
  {
    if n == 0 then {}
    else
      var e := m.edges[ws[n - 1]];
      SideFaces(m, ws, n - 1) + {e.leftFace} + (if e.rightFace.Some? then {e.rightFace.value} else {})
  }

  /** A face is collected exactly when it lies on one side of one of the first `n` half-edges. */
  lemma {:induction false} SideFacesAt(m: Mesh, ws: seq<nat>, n: nat)
    requires Navigable(m) && InArena(m, ws) && n <= |ws|
    ensures forall g :: g in SideFaces(m, ws, n) <==>
      exists t :: 0 <= t < n && (m.edges[ws[t]].leftFace == g || m.edges[ws[t]].rightFace == Some(g))
  {
    if n > 0 {
      SideFacesAt(m, ws, n - 1);
    }
  }

  /** The faces touching vertex `v`: those on either side of its outgoing half-edges. */
  function VertexFaces(m: Mesh, v: nat): set<nat>
    requires Navigable(m) && v < |m.verts|
  {
    var ws := VOrbit(m, m.verts[v].edge);
    SideFaces(m, ws, |ws|)
  }

  /** Position k holds the outgoing half-edges of the origin of es[k], walked from its anchor. */
  function CornerRings(m: Mesh, es: seq<nat>): (rs: seq<seq<nat>>)
    requires Navigable(m) && InArena(m, es)
    ensures |rs| == |es|
    ensures forall k :: 0 <= k < |rs| ==> InArena(m, rs[k])
  {
    seq(|es|, k requires 0 <= k < |es| => VOrbit(m, m.verts[m.edges[es[k]].origin].edge))
  }

  /** `init` with the faces on either side of the half-edges of the first `n` rings added. */
  function AddRingFaces(m: Mesh, rs: seq<seq<nat>>, n: nat, init: set<nat>): set<nat>
    requires Navigable(m) && n <= |rs| && forall k :: 0 <= k < |rs| ==> InArena(m, rs[k])
  {
    if n == 0 then init else AddRingFaces(m, rs, n - 1, init) + SideFaces(m, rs[n - 1], |rs[n - 1]|)
  }

  /** The inner walk of Face::getOneRingNeighbourFaces: round the corner `v` from its anchor. */
  method AddVertexFaces(m: Mesh, v: nat, neighbours: set<nat>) returns (out: set<nat>)
    requires Navigable(m) && v < |m.verts|
    ensures out == neighbours + VertexFaces(m, v)
  {
    var edge := m.verts[v].edge;
    ghost var ws := VOrbit(m, edge);
    var e := edge;
    out := neighbours;
    ghost var t := 0;
    while true
      invariant 0 <= t < |ws| && e == ws[t]
      invariant out == neighbours + SideFaces(m, ws, t)
      decreases |ws| - t
    {
      VStep(m, edge, t);
      out := out + {m.edges[e].leftFace};
      if m.edges[e].rightFace.Some? {
        out := out + {m.edges[e].rightFace.value};
      }
      e := m.vNext[e];
      t := t + 1;
      if e == edge {
        break;
      }
    }
  }

  /** Face::getOneRingNeighbourFaces: adds every face touching a corner of the face. */
  method GetOneRingNeighbourFaces(m: Mesh, f: nat, neighbours: set<nat>) returns (out: set<nat>)
    requires Navigable(m) && f < |m.faces|
    ensures out == AddRingFaces(m, CornerRings(m, FaceEdges(m, f)), |FaceEdges(m, f)|, neighbours)
  {
    var right := m.faces[f].right;
    ghost var es := FaceEdges(m, f);
    ghost var rs := CornerRings(m, es);
    var cur := right;
    out := neighbours;
    ghost var k := 0;
    while true
      invariant 0 <= k < |es| && cur == es[k]
      invariant out == AddRingFaces(m, rs, k, neighbours)
      decreases |es| - k
    {
      FStep(m, right, k);
      assert rs[k] == VOrbit(m, m.verts[m.edges[cur].origin].edge);
      out := AddVertexFaces(m, m.edges[cur].origin, out);
      cur := m.fNext[cur];
      k := k + 1;
      assert out == AddRingFaces(m, rs, k, neighbours);
      if cur == right {
        break;
      }
    }
    assert k == |es|;
  }

  /**
   * A face is added exactly when it lies on a side of a half-edge of one of
   * the first `n` rings.
   */
  lemma {:induction false} AddRingFacesAt(m: Mesh, rs: seq<seq<nat>>, n: nat, init: set<nat>)
    requires Navigable(m) && n <= |rs| && forall k :: 0 <= k < |rs| ==> InArena(m, rs[k])
    ensures forall g :: g in AddRingFaces(m, rs, n, init) <==>
      g in init || exists k :: 0 <= k < n && g in SideFaces(m, rs[k], |rs[k]|)
  {
    if n > 0 {
      AddRingFacesAt(m, rs, n - 1, init);
    }
  }

  /**
   * The one-ring faces are exactly the faces touching a corner: those on a
   * side of some half-edge that leaves a corner of the face.
   */
  lemma OneRingFacesAt(m: Mesh, f: nat, init: set<nat>)
    requires Navigable(m) && f < |m.faces|
    ensures forall g :: g in AddRingFaces(m, CornerRings(m, FaceEdges(m, f)), |FaceEdges(m, f)|, init) <==>
      g in init || exists k :: 0 <= k < |FaceEdges(m, f)| && g in VertexFaces(m, Corners(m, FaceEdges(m, f))[k])
  {
    var es := FaceEdges(m, f);
    var rs := CornerRings(m, es);
    AddRingFacesAt(m, rs, |es|, init);
    forall k | 0 <= k < |es|
      ensures SideFaces(m, rs[k], |rs[k]|) == VertexFaces(m, Corners(m, es)[k])
    {
    }
  }

  /** Membership of the faces round one vertex, written out. */
  lemma VertexFacesAt(m: Mesh, v: nat)
    requires Navigable(m) && v < |m.verts|
    ensures forall g :: g in VertexFaces(m, v) <==>
      exists t :: 0 <= t < |VOrbit(m, m.verts[v].edge)| &&
        (m.edges[VOrbit(m, m.verts[v].edge)[t]].leftFace == g ||
         m.edges[VOrbit(m, m.verts[v].edge)[t]].rightFace == Some(g))
  {
    var ws := VOrbit(m, m.verts[v].edge);
    SideFacesAt(m, ws, |ws|);
  }
}
