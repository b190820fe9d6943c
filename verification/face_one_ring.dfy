/**
 * The 16 control-point indices of a quad patch (Face::getOneRingIndices in
 * FastCat/MeshUtility.cpp).
 *
 * Each of the four corners contributes four entries to a cache: the corner
 * itself, then three neighbours found by stepping round the corner vertex.
 * The cache is then scattered into the caller's array through a fixed
 * reordering of the 16 slots, which places the four corners on the inner
 * 2 x 2 block of the 4 x 4 control grid.
 */
module FaceOneRing {
  import opened Wrappers
  import opened Orbits
  import opened HalfEdgeMesh

  /** The target's 32-bit unsigned index type. */
  newtype uint32 = x: int | 0 <= x < 0x1_0000_0000

  /** Conversion of a (signed) sum to `unsigned`: reduction modulo 2^32. */
  function ToUnsigned(x: int): (u: uint32)
    ensures 0 <= x < 0x1_0000_0000 ==> u as int == x
  {
    (x % 0x1_0000_0000) as uint32
  }

  /** The conversion keeps the value modulo 2^32: a negative sum wraps round to the top of the range. */
  lemma ToUnsignedWraps(x: int)
    ensures (ToUnsigned(x) as int - x) % 0x1_0000_0000 == 0
    ensures -0x1_0000_0000 <= x < 0 ==> ToUnsigned(x) as int == x + 0x1_0000_0000
  {
  }

  /** Cache position i goes to output slot ReorderMap[i]. */
  const ReorderMap: seq<int> := [6, 7, 2, 3, 10, 14, 11, 15, 9, 8, 13, 12, 5, 1, 4, 0]

  /** The cache position written to each output slot: the inverse of ReorderMap. */
  const SlotSource: seq<int> := [15, 13, 2, 3, 14, 12, 0, 1, 9, 8, 4, 6, 11, 10, 5, 7]

  /** ReorderMap is a permutation of 0..15, and SlotSource undoes it on both sides. */
  lemma ReorderIsPermutation()
    ensures |ReorderMap| == 16 && |SlotSource| == 16
    ensures forall i :: 0 <= i < 16 ==> 0 <= ReorderMap[i] < 16 && SlotSource[ReorderMap[i]] == i
    ensures forall s :: 0 <= s < 16 ==> 0 <= SlotSource[s] < 16 && ReorderMap[SlotSource[s]] == s
    ensures forall i, j :: 0 <= i < j < 16 ==> ReorderMap[i] != ReorderMap[j]
  {
    forall i, j | 0 <= i < j < 16
      ensures ReorderMap[i] != ReorderMap[j]
    {
      assert SlotSource[ReorderMap[i]] == i && SlotSource[ReorderMap[j]] == j;
    }
  }

  /** The first entry of each corner lands on the inner 2 x 2 block (slots 5, 6, 9, 10) of the 4 x 4 grid. */
  lemma CornersOnInnerBlock()
    ensures ReorderMap[0] == 6 && ReorderMap[4] == 10 && ReorderMap[8] == 9 && ReorderMap[12] == 5
    ensures forall k :: 0 <= k < 4 ==> ReorderMap[4 * k] in {5, 6, 9, 10}
  {
    forall k | 0 <= k < 4
      ensures ReorderMap[4 * k] in {5, 6, 9, 10}
    {
      assert k == 0 || k == 1 || k == 2 || k == 3;
    }
  }

  /**
   * The four cache entries of corner half-edge `e`: the corner, then three
   * neighbours chosen by the corner's kind. A boundary corner whose side has
   * negative sharpness repeats the corner and one more vertex; another
   * boundary corner lists the vertex before it, itself, and that vertex
   * again; an interior corner lists three vertices found by stepping back
   * round it.
   */
  function CornerEntries(m: Mesh, e: nat, offset: int): (c: seq<int>)
    requires Navigable(m) && e < |m.edges|
    ensures |c| == 4 && c[0] == OriginIdx(m, e) + offset
  {
    var own := OriginIdx(m, e) + offset;
    var back := m.vPrev[e];
    if OriginValence(m, e) < 0 then
      if m.edges[e].sharpness < 0.0 then
        var across := OriginIdx(m, m.fPrev[m.vNext[e]]) + offset;
        [own, own, across, across]
      else
        var before := DestIdx(m, back) + offset;
        [own, before, own, before]
    else
      [own, DestIdx(m, back) + offset, DestIdx(m, m.vPrev[back]) + offset, DestIdx(m, m.fNext[m.vPrev[back]]) + offset]
  }

  /** The blocks of four entries of the corners of the walk `es`, one per corner. */
  function CornerBlocks(m: Mesh, es: seq<nat>, offset: int): (bs: seq<seq<int>>)
    requires Navigable(m) && InArena(m, es)
    ensures |bs| == |es|
  {
    seq(|es|, k requires 0 <= k < |es| => CornerEntries(m, es[k], offset))
  }

  /** The first `n` blocks, one after another. */
  function Concat(bs: seq<seq<int>>, n: nat): seq<int>
    requires n <= |bs|
  {
    if n == 0 then [] else Concat(bs, n - 1) + bs[n - 1]
  }

  /** Blocks of four laid end to end: block k occupies positions 4k to 4k + 3. */
  lemma {:induction false} ConcatLayout(bs: seq<seq<int>>, n: nat)
    requires n <= |bs| && forall k :: 0 <= k < |bs| ==> |bs[k]| == 4
    ensures |Concat(bs, n)| == 4 * n
    ensures forall k, j :: 0 <= k < n && 0 <= j < 4 ==> Concat(bs, n)[4 * k + j] == bs[k][j]
  {
    if n > 0 {
      ConcatLayout(bs, n - 1);
      var prev := Concat(bs, n - 1);
      var c := Concat(bs, n);
      forall k, j | 0 <= k < n && 0 <= j < 4
        ensures c[4 * k + j] == bs[k][j]
      {
        if k < n - 1 {
          assert c[4 * k + j] == prev[4 * k + j];
        }
      }
    }
  }

  /** The boundary corner kinds repeat entries: the cache block of such a corner holds two vertices, each twice. */
  lemma BoundaryCornerRepeats(m: Mesh, e: nat, offset: int)
    requires Navigable(m) && e < |m.edges| && OriginValence(m, e) < 0
    ensures m.edges[e].sharpness < 0.0 ==>
      CornerEntries(m, e, offset)[1] == CornerEntries(m, e, offset)[0] &&
      CornerEntries(m, e, offset)[3] == CornerEntries(m, e, offset)[2]
    ensures m.edges[e].sharpness >= 0.0 ==>
      CornerEntries(m, e, offset)[2] == CornerEntries(m, e, offset)[0] &&
      CornerEntries(m, e, offset)[3] == CornerEntries(m, e, offset)[1]
  {
  }

  /** The cache-building walk: four entries per corner, in walk order. */
  method FillCache(m: Mesh, right: nat, offset: int) returns (cache: seq<int>)
    requires Navigable(m) && right < |m.edges|
    ensures cache == Concat(CornerBlocks(m, FOrbit(m, right), offset), |FOrbit(m, right)|)
  {
    ghost var es := FOrbit(m, right);
    ghost var blocks := CornerBlocks(m, es, offset);
    var cur := right;
    cache := [];
    ghost var k := 0;
    while true
      invariant 0 <= k < |es| && cur == es[k]
      invariant cache == Concat(blocks, k)
      decreases |es| - k
    {
      FStep(m, right, k);
      assert blocks[k] == CornerEntries(m, cur, offset);
      cache := cache + CornerEntries(m, cur, offset);
      cur := m.fNext[cur];
      k := k + 1;
      if cur == right {
        break;
      }
    }
  }

  /**
   * The final loop: cache position i is written, as an unsigned value, to
   * slot ReorderMap[i]; slots from 16 on are left alone.
   */
  method Scatter(cache: seq<int>, outIndices: array<uint32>)
    requires |cache| == 16 && outIndices.Length >= 16
    modifies outIndices
    ensures forall i :: 0 <= i < 16 ==> outIndices[ReorderMap[i]] == ToUnsigned(cache[i])
    ensures forall s :: 0 <= s < 16 ==> outIndices[s] == ToUnsigned(cache[SlotSource[s]])
    ensures forall s :: 16 <= s < outIndices.Length ==> outIndices[s] == old(outIndices[s])
  {
    ReorderIsPermutation();
    for i := 0 to 16
      invariant forall j :: 0 <= j < i ==> outIndices[ReorderMap[j]] == ToUnsigned(cache[j])
      invariant forall s :: 16 <= s < outIndices.Length ==> outIndices[s] == old(outIndices[s])
    {
      outIndices[ReorderMap[i]] := ToUnsigned(cache[i]);
    }
    forall s | 0 <= s < 16
      ensures outIndices[s] == ToUnsigned(cache[SlotSource[s]])
    {
      assert ReorderMap[SlotSource[s]] == s;
    }
  }

  /** The cache of a face: its corners' blocks, in walk order. */
  function QuadCache(m: Mesh, f: nat, offset: int): (c: seq<int>)
    requires Navigable(m) && f < |m.faces|
  {
    Concat(CornerBlocks(m, FaceEdges(m, f), offset), |FaceEdges(m, f)|)
  }

  /** A four-sided face has 16 cache entries, and entry 4k + j is entry j of corner k's block. */
  lemma QuadCacheLayout(m: Mesh, f: nat, offset: int)
    requires Navigable(m) && f < |m.faces| && |FaceEdges(m, f)| == 4
    ensures |QuadCache(m, f, offset)| == 16
    ensures forall k, j :: 0 <= k < 4 && 0 <= j < 4 ==>
      QuadCache(m, f, offset)[4 * k + j] == CornerEntries(m, FaceEdges(m, f)[k], offset)[j]
  {
    var es := FaceEdges(m, f);
    var bs := CornerBlocks(m, es, offset);
    ConcatLayout(bs, 4);
    forall k, j | 0 <= k < 4 && 0 <= j < 4
      ensures QuadCache(m, f, offset)[4 * k + j] == CornerEntries(m, es[k], offset)[j]
    {
      assert bs[k][j] == CornerEntries(m, es[k], offset)[j];
    }
  }

  /** Entry 4k of the cache of a four-sided face is corner k's own index. */
  lemma QuadCacheCorners(m: Mesh, f: nat, offset: int)
    requires Navigable(m) && f < |m.faces| && |FaceEdges(m, f)| == 4
    ensures |QuadCache(m, f, offset)| == 16
    ensures forall k :: 0 <= k < 4 ==> QuadCache(m, f, offset)[4 * k] == OriginIdx(m, FaceEdges(m, f)[k]) + offset
  {
    QuadCacheLayout(m, f, offset);
    forall k | 0 <= k < 4
      ensures QuadCache(m, f, offset)[4 * k] == OriginIdx(m, FaceEdges(m, f)[k]) + offset
    {
      assert QuadCache(m, f, offset)[4 * k + 0] == CornerEntries(m, FaceEdges(m, f)[k], offset)[0];
    }
  }

  /** The body of Face::getOneRingIndices once the face is known to have four sides. */
  method FillQuadSlots(m: Mesh, f: nat, firstVertexOffset: int, outIndices: array<uint32>)
    requires Navigable(m) && f < |m.faces| && |FaceEdges(m, f)| == 4
    requires outIndices.Length >= 16
    modifies outIndices
    ensures |QuadCache(m, f, firstVertexOffset)| == 16
    ensures forall s :: 0 <= s < 16 ==> outIndices[s] == ToUnsigned(QuadCache(m, f, firstVertexOffset)[SlotSource[s]])
    ensures forall k :: 0 <= k < 4 ==>
      outIndices[ReorderMap[4 * k]] == ToUnsigned(OriginIdx(m, FaceEdges(m, f)[k]) + firstVertexOffset)
    ensures forall s :: 16 <= s < outIndices.Length ==> outIndices[s] == old(outIndices[s])
  {
    var indexCache := FillCache(m, m.faces[f].right, firstVertexOffset);
    QuadCacheLayout(m, f, firstVertexOffset);
    QuadCacheCorners(m, f, firstVertexOffset);
    Scatter(indexCache, outIndices);
  }

  /**
   * Face::getOneRingIndices: fills slots 0..15 of `outIndices` with the quad's
   * one-ring control points (each offset by `firstVertexOffset` and taken
   * modulo 2^32). Every slot is written exactly once, slot s from cache
   * position SlotSource[s]; corner k's own index lands in slot ReorderMap[4k].
   */
  method GetOneRingIndices(m: Mesh, f: nat, firstVertexOffset: int, outIndices: array<uint32>)
    requires Valid(m) && f < |m.faces| && m.faces[f].valence == 4
    requires outIndices.Length >= 16
    modifies outIndices
    ensures |QuadCache(m, f, firstVertexOffset)| == 16
    ensures forall s :: 0 <= s < 16 ==> outIndices[s] == ToUnsigned(QuadCache(m, f, firstVertexOffset)[SlotSource[s]])
    ensures forall k :: 0 <= k < 4 ==>
      outIndices[ReorderMap[4 * k]] == ToUnsigned(OriginIdx(m, FaceEdges(m, f)[k]) + firstVertexOffset)
    ensures forall s :: 16 <= s < outIndices.Length ==> outIndices[s] == old(outIndices[s])
  {
    FaceEdgesDistinct(m, f);
    FillQuadSlots(m, f, firstVertexOffset, outIndices);
  }
}
