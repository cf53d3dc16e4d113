/**
 * The buffer pool of src/webgl/webgl1/BufferManager.js: regions, buffers
 * with their staging memory and counters, the vertex and index packers,
 * the region fill loop, and the LRU selection of a buffer for a region.
 *
 * The WebGL calls are not modelled: allocating a buffer either succeeds or
 * fails (`allocOk`), and the upload of the filled prefixes is left out.
 */
module BufferManagement {
  import opened VertexLayout
  import opened RegionFill
  import opened LruOrder

  /** Most buffers the pool ever holds. */
  const MAX_BUFFERS: nat := 256

  /**
   * A region of the entity sequence (`BufferRegion`): its lower bound and
   * the mark that says its buffer must be regenerated.
   */
  class Region {
    const minIndex: MinIndex
    var marked: bool

    constructor (minIndex: MinIndex)
      ensures this.minIndex == minIndex && !marked
    {
      this.minIndex := minIndex;
      marked := false;
    }

    method Mark()
      modifies this
      ensures marked
    {
      marked := true;
    }

    method Unmark()
      modifies this
      ensures !marked
    {
      marked := false;
    }
  }

  /**
   * One pooled buffer as `_allocBuffer` hands it out after a successful
   * `allocate`: zero-filled staging memory for NUM_VERTS vertex records and
   * NUM_INDICES 16-bit indices, the region it renders (null when vacant)
   * and the counts of vertices and indices written.
   */
  class Buffer {
    var region: Region?
    const vboData: array<Byte>
    const iboData: array<U16>
    var numVerts: nat
    var numIndices: nat

    ghost predicate Valid()
    {
      vboData.Length == NUM_VERTS * VERTEX_SIZE_BYTES && iboData.Length == NUM_INDICES
    }

    constructor ()
      ensures Valid() && fresh(vboData) && fresh(iboData)
      ensures region == null && numVerts == 0 && numIndices == 0
      ensures forall k :: 0 <= k < vboData.Length ==> vboData[k] == 0
      ensures forall k :: 0 <= k < iboData.Length ==> iboData[k] == 0
    {
      region := null;
      vboData := new Byte[NUM_VERTS * VERTEX_SIZE_BYTES](_ => 0);
      iboData := new U16[NUM_INDICES](_ => 0);
      numVerts, numIndices := 0, 0;
    }

    /**
     * `pushVert`: stores the fields of vertex `numVerts` at their offsets in
     * record `numVerts` (bytes [24n, 24n+24)), touching no other byte, and
     * returns the old count as the vertex's number.  Stores past the end of
     * the staging memory are dropped, as the typed arrays drop them.
     */
    method PushVert(v: Vertex) returns (n: nat)
      modifies this`numVerts, vboData
      ensures n == old(numVerts) && numVerts == n + 1
      ensures vboData[..] == Overwrite(old(vboData[..]), VERTEX_SIZE_BYTES * n, EncodeVertex(v))
    {
      var byteBase := VERTEX_SIZE_BYTES * numVerts;
      ghost var before := vboData[..];
      ghost var e := EncodeVertex(v);
      EncodeSlices(v);
      assert Overwrite(before, byteBase, e[..0]) == before;
      Store(vboData, byteBase, LittleEndian(v.xBits, 4));
      FieldStoreStep(before, byteBase, e, 0, 4);
      Store(vboData, byteBase + 4, LittleEndian(v.yBits, 4));
      FieldStoreStep(before, byteBase, e, 4, 8);
      Store(vboData, byteBase + 8, LittleEndian(v.refDx, 2));
      FieldStoreStep(before, byteBase, e, 8, 10);
      Store(vboData, byteBase + 10, LittleEndian(v.refDy, 2));
      FieldStoreStep(before, byteBase, e, 10, 12);
      Store(vboData, byteBase + 12, LittleEndian(v.baryUnitLength, 2));
      FieldStoreStep(before, byteBase, e, 12, 14);
      Store(vboData, byteBase + 14, LittleEndian(v.baryIndex, 1));
      FieldStoreStep(before, byteBase, e, 14, 15);
      Store(vboData, byteBase + 15, [0]);
      FieldStoreStep(before, byteBase, e, 15, 16);
      Store(vboData, byteBase + 16, LittleEndian(v.radius, 2));
      FieldStoreStep(before, byteBase, e, 16, 18);
      Store(vboData, byteBase + 18, LittleEndian(v.nx, 1));
      FieldStoreStep(before, byteBase, e, 18, 19);
      Store(vboData, byteBase + 19, LittleEndian(v.ny, 1));
      FieldStoreStep(before, byteBase, e, 19, 20);
      Store(vboData, byteBase + 20, LittleEndian(v.color.r, 1));
      FieldStoreStep(before, byteBase, e, 20, 21);
      Store(vboData, byteBase + 21, LittleEndian(v.color.g, 1));
      FieldStoreStep(before, byteBase, e, 21, 22);
      Store(vboData, byteBase + 22, LittleEndian(v.color.b, 1));
      FieldStoreStep(before, byteBase, e, 22, 23);
      Store(vboData, byteBase + 23, LittleEndian(v.color.a, 1));
      FieldStoreStep(before, byteBase, e, 23, 24);
      assert e[..24] == e;
      n := numVerts;
      numVerts := numVerts + 1;
    }

    /** `pushIndex`: stores `vert` at index slot `numIndices` and counts it. */
    method PushIndex(vert: int)
      modifies this`numIndices, iboData
      ensures numIndices == old(numIndices) + 1
      ensures iboData[..] == Overwrite(old(iboData[..]), old(numIndices), [ToUint16(vert)])
    {
      if numIndices < iboData.Length {
        iboData[numIndices] := ToUint16(vert);
      }
      numIndices := numIndices + 1;
    }

    /** `pushIndices`: `pushIndex` for each argument in turn. */
    method PushIndices(verts: seq<int>)
      modifies this`numIndices, iboData
      ensures numIndices == old(numIndices) + |verts|
      ensures iboData[..] == Overwrite(old(iboData[..]), old(numIndices), ToUint16s(verts))
    {
      for k := 0 to |verts|
        invariant numIndices == old(numIndices) + k
        invariant iboData[..] == Overwrite(old(iboData[..]), old(numIndices), ToUint16s(verts[..k]))
      {
        PushIndex(verts[k]);
        OverwriteAdjacent(old(iboData[..]), old(numIndices), ToUint16s(verts[..k]), [ToUint16(verts[k])]);
        assert ToUint16s(verts[..k + 1]) == ToUint16s(verts[..k]) + [ToUint16(verts[k])];
      }
      assert verts[..|verts|] == verts;
    }
  }

  /** A store of `bytes` through a view of `a` starting at byte `at`. */
  method Store(a: array<Byte>, at: nat, bytes: seq<Byte>)
    modifies a
    ensures a[..] == Overwrite(old(a[..]), at, bytes)
  {
    forall k | 0 <= k < |bytes| && at + k < a.Length {
      a[at + k] := bytes[k];
    }
  }

  /**
   * After the field stores covering bytes [0, lo) of record `e`, one more
   * store of bytes [lo, hi) leaves the stores covering [0, hi).
   */
  lemma FieldStoreStep(before: seq<Byte>, at: nat, e: seq<Byte>, lo: nat, hi: nat)
    requires lo <= hi <= |e|
    ensures Overwrite(Overwrite(before, at, e[..lo]), at + lo, e[lo..hi]) == Overwrite(before, at, e[..hi])
  {
    OverwriteAdjacent(before, at, e[..lo], e[lo..hi]);
    assert e[..lo] + e[lo..hi] == e[..hi];
  }

  /**
   * The vertex generator (`vertgen.generate`), which is not part of this
   * model, taken as one that honours `costOf`: it pushes the entity's
   * vertices through `pushVert` and then its indices, as offsets from the
   * number of its first vertex, through `pushIndices`.
   */
  method Generate(buffer: Buffer, g: Geometry)
    modifies buffer`numVerts, buffer`numIndices, buffer.vboData, buffer.iboData
    ensures buffer.numVerts == old(buffer.numVerts) + |g.verts|
    ensures buffer.numIndices == old(buffer.numIndices) + |g.indices|
    ensures buffer.vboData[..] ==
      Overwrite(old(buffer.vboData[..]), VERTEX_SIZE_BYTES * old(buffer.numVerts), EncodeAll(g.verts))
    ensures buffer.iboData[..] ==
      Overwrite(old(buffer.iboData[..]), old(buffer.numIndices), Shifted(g.indices, old(buffer.numVerts)))
  {
    var first := buffer.numVerts;
    for k := 0 to |g.verts|
      invariant buffer.numVerts == first + k
      invariant buffer.numIndices == old(buffer.numIndices)
      invariant buffer.iboData[..] == old(buffer.iboData[..])
      invariant buffer.vboData[..] ==
        Overwrite(old(buffer.vboData[..]), VERTEX_SIZE_BYTES * first, EncodeAll(g.verts[..k]))
    {
      var n := buffer.PushVert(g.verts[k]);
      assert g.verts[..k + 1][..k] == g.verts[..k];
      OverwriteAdjacent(old(buffer.vboData[..]), VERTEX_SIZE_BYTES * first,
                        EncodeAll(g.verts[..k]), EncodeVertex(g.verts[k]));
    }
    assert g.verts[..|g.verts|] == g.verts;
    var verts := seq(|g.indices|, k requires 0 <= k < |g.indices| => first + g.indices[k]);
    buffer.PushIndices(verts);
    assert ToUint16s(verts) == Shifted(g.indices, first);
  }

  /**
   * A region that a buffer already renders and that is not marked is never
   * regenerated; every other way of obtaining a buffer for an unmarked
   * region regenerates exactly when the buffer had no region.
   */
  lemma RegenerationCondition(rs: seq<Region?>, region: Region, allocOk: bool, marked: bool)
    ensures Regenerates(Select(rs, region, allocOk), marked)
        <==> marked || (region !in rs && (null in rs || (|rs| < MAX_BUFFERS && allocOk)))
    ensures region in rs && !marked ==> !Regenerates(Select(rs, region, allocOk), marked)
  {
  }

  /**
   * Eviction of an unmarked region: the front buffer is taken but, since it
   * had a region and the region is clean, it is not regenerated, so it is
   * handed out still holding another region.
   */
  lemma StaleEviction(rs: seq<Region?>, region: Region, allocOk: bool)
    requires Select(rs, region, allocOk).Evict?
    ensures rs[0] != null && rs[0] != region
    ensures !Regenerates(Select(rs, region, allocOk), false)
  {
  }

  /**
   * After the fill loop has generated entities `s` to `i - 1`: the counters
   * count what was emitted, within capacity, and the staging memory starts
   * with the emitted vertex records and indices.
   */
  ghost predicate EmittedUpTo(b: Buffer, es: seq<Entity>, gen: Entity -> Geometry, s: nat, i: nat)
    reads b, b.vboData, b.iboData
  {
    && b.Valid()
    && s <= i <= |es|
    && b.numVerts == |EmittedVerts(es, gen, s, i)| && b.numIndices == |EmittedIndices(es, gen, s, i)|
    && b.numVerts <= NUM_VERTS && b.numIndices <= NUM_INDICES
    && b.vboData[..VERTEX_SIZE_BYTES * b.numVerts] == EncodeAll(EmittedVerts(es, gen, s, i))
    && b.iboData[..b.numIndices] == EmittedIndices(es, gen, s, i)
  }

  /** One iteration of the fill loop for an entity that fits: `vertgen.generate` into the buffer. */
  method GenerateNext(buffer: Buffer, es: seq<Entity>, gen: Entity -> Geometry, s: nat, i: nat, endIndex: int)
    requires i < |es| && es[i].zIndex < endIndex && EmittedUpTo(buffer, es, gen, s, i)
    requires Fits(CostOf(gen, es[i]), buffer.numVerts, buffer.numIndices)
    modifies buffer`numVerts, buffer`numIndices, buffer.vboData, buffer.iboData
    ensures EmittedUpTo(buffer, es, gen, s, i + 1)
    ensures Walk(es, gen, i + 1, endIndex, buffer.numVerts, buffer.numIndices)
         == Walk(es, gen, i, endIndex, old(buffer.numVerts), old(buffer.numIndices))
  {
    WalkStep(es, gen, i, endIndex, buffer.numVerts, buffer.numIndices);
    ghost var nv, ni := buffer.numVerts, buffer.numIndices;
    ghost var vbo, ibo := buffer.vboData[..], buffer.iboData[..];
    var g := gen(es[i]);
    Generate(buffer, g);
    OverwritePrefix(vbo, VERTEX_SIZE_BYTES * nv, EncodeAll(g.verts));
    OverwritePrefix(ibo, ni, Shifted(g.indices, nv));
    assert vbo[..VERTEX_SIZE_BYTES * nv] == EncodeAll(EmittedVerts(es, gen, s, i));
    EncodeAllConcat(EmittedVerts(es, gen, s, i), g.verts);
  }

  /** One step of `Walk` over an entity below `endIndex` that fits. */
  lemma WalkStep(es: seq<Entity>, gen: Entity -> Geometry, i: nat, endIndex: int, numVerts: nat, numIndices: nat)
    requires i < |es| && es[i].zIndex < endIndex && Fits(CostOf(gen, es[i]), numVerts, numIndices)
    ensures Walk(es, gen, i, endIndex, numVerts, numIndices)
      == Walk(es, gen, i + 1, endIndex, numVerts + CostOf(gen, es[i]).verts, numIndices + CostOf(gen, es[i]).indices)
  {
  }

  /** Where the fill loop leaves off, the buffer holds the fill and the loop stopped where `Fill` does. */
  lemma LoopExit(b: Buffer, es: seq<Entity>, gen: Entity -> Geometry, endIndex: int, s: nat, i: nat)
    requires EmittedUpTo(b, es, gen, s, i)
    requires Walk(es, gen, s, endIndex, 0, 0) == Walk(es, gen, i, endIndex, b.numVerts, b.numIndices)
    requires i == |es| || es[i].zIndex >= endIndex || !Fits(CostOf(gen, es[i]), b.numVerts, b.numIndices)
    ensures HoldsWalk(b, es, gen, s, endIndex)
    ensures Walk(es, gen, s, endIndex, 0, 0).stop == i
    ensures Walk(es, gen, s, endIndex, 0, 0).overflow <==> i < |es| && es[i].zIndex < endIndex
  {
  }

  /** The regions the buffers of `bs` render, in order. */
  ghost function RegionsOf(bs: seq<Buffer>): (rs: seq<Region?>)
    reads set b | b in bs
    ensures |rs| == |bs|
    ensures forall j :: 0 <= j < |bs| ==> rs[j] == bs[j].region
    ensures forall b :: b in bs ==> b.region in rs
  {
    seq(|bs|, j requires 0 <= j < |bs| reads bs => bs[j].region)
  }

  /** How `getBufferForRegion` picks a buffer, in its order of priority. */
  datatype Selection =
    | Identity(i: nat)   // the buffer at i already renders the region
    | Vacant(i: nat)     // the buffer at i is the first with no region
    | Allocate           // a new buffer is allocated and appended
    | Evict              // the front (least recently used) buffer is taken
    | Exhausted          // no buffer at all: "no buffers available!"

  /** The choice for `region` over the pool's regions `rs`, given whether an allocation would succeed. */
  function Select(rs: seq<Region?>, region: Region, allocOk: bool): (sel: Selection)
    ensures sel.Identity? <==> region in rs
    ensures sel.Identity? ==> sel.i < |rs| && rs[sel.i] == region && forall j :: 0 <= j < sel.i ==> rs[j] != region
    ensures sel.Vacant? <==> region !in rs && null in rs
    ensures sel.Vacant? ==> sel.i < |rs| && rs[sel.i] == null && forall j :: 0 <= j < sel.i ==> rs[j] != null
    ensures sel.Allocate? <==> region !in rs && null !in rs && |rs| < MAX_BUFFERS && allocOk
    ensures sel.Evict? <==> region !in rs && null !in rs && |rs| > 0 && (|rs| >= MAX_BUFFERS || !allocOk)
    ensures sel.Exhausted? <==> |rs| == 0 && !allocOk
  {
    match FirstIndexOf(rs, region)
    case Some(i) => Identity(i)
    case None =>
      match FirstIndexOf(rs, null)
      case Some(i) => Vacant(i)
      case None =>
        if |rs| < MAX_BUFFERS && allocOk then Allocate
        else if |rs| == 0 then Exhausted
        else Evict
  }

  /**
   * The regeneration test `region.isMarked() || !buffer.region`, in terms of
   * the selection: only a vacant or a new buffer has no region, so a marked
   * region is always regenerated and an unmarked one never is on the
   * identity and eviction paths.
   */
  predicate Regenerates(sel: Selection, marked: bool)
    ensures marked ==> Regenerates(sel, marked)
    ensures !marked && (sel.Identity? || sel.Evict? || sel.Exhausted?) ==> !Regenerates(sel, marked)
  {
    marked || sel.Vacant? || sel.Allocate?
  }

  /**
   * The buffer `b` holds exactly what a fill starting at entity `s`
   * writes: its counters, the vertex records of the emitted vertices and
   * the emitted indices at the front of its staging memory.
   */
  ghost predicate HoldsWalk(b: Buffer, es: seq<Entity>, gen: Entity -> Geometry, s: nat, endIndex: int)
    requires s <= |es|
    reads b, b.vboData, b.iboData
  {
    var o := Walk(es, gen, s, endIndex, 0, 0);
    && b.numVerts == o.verts && b.numIndices == o.indices
    && VERTEX_SIZE_BYTES * o.verts <= b.vboData.Length && o.indices <= b.iboData.Length
    && b.vboData[..VERTEX_SIZE_BYTES * o.verts] == EncodeAll(EmittedVerts(es, gen, s, o.stop))
    && b.iboData[..o.indices] == EmittedIndices(es, gen, s, o.stop)
  }

  /**
   * A buffer of the pool: its staging memory has the fixed sizes, its
   * counters are within capacity, and it is the recorded owner of its
   * region.
   */
  ghost predicate Owned(b: Buffer, owner: map<Region, Buffer>)
    reads b
  {
    && b.Valid() && b.numVerts <= NUM_VERTS && b.numIndices <= NUM_INDICES
    && (b.region != null ==> b.region in owner && owner[b.region] == b)
  }

  /**
   * The list step of `getBufferForRegion`: for the selection `sel` over the
   * list `before`, the buffer handed out (`null` where the source throws)
   * and the list `after` once that buffer is moved to, or appended at, the
   * most recently used end.
   */
  predicate Moved(sel: Selection, before: seq<Buffer>, after: seq<Buffer>, buffer: Buffer?)
  {
    match sel
    case Identity(i) => i < |before| && buffer == before[i] && after == MoveToBack(before, i)
    case Vacant(i) => i < |before| && buffer == before[i] && after == MoveToBack(before, i)
    case Allocate => buffer != null && buffer !in before && after == before + [buffer]
    case Evict => 0 < |before| && buffer == before[0] && after == MoveToBack(before, 0)
    case Exhausted => buffer == null && after == before
  }

  /**
   * Whatever the selection, the buffer handed out ends up last (most
   * recently used), the other buffers keep their relative order, the list
   * stays free of repetitions, and unless a buffer was allocated it is a
   * permutation of the old list.  Only an empty pool that cannot allocate
   * hands out nothing, and then the list is unchanged.
   */
  lemma {:induction false} ChosenIsLast(sel: Selection, before: seq<Buffer>, after: seq<Buffer>, buffer: Buffer?)
    requires Distinct(before) && Moved(sel, before, after, buffer)
    ensures buffer == null <==> sel.Exhausted?
    ensures buffer == null ==> after == before
    ensures buffer != null ==> |after| > 0 && after[|after| - 1] == buffer && after[..|after| - 1] == Without(before, buffer)
    ensures !sel.Allocate? ==> multiset(after) == multiset(before)
    ensures Distinct(after)
  {
    match sel
    case Identity(i) => MovedToBack(before, i, after, buffer);
    case Vacant(i) => MovedToBack(before, i, after, buffer);
    case Evict => MovedToBack(before, 0, after, buffer);
    case Allocate =>
      WithoutAbsent(before, buffer);
      assert after[..|after| - 1] == before;
      forall a, b | 0 <= a < b < |after|
        ensures after[a] != after[b]
      {
        assert after[a] in before;
      }
    case Exhausted =>
  }

  /** `ChosenIsLast` for the paths that move the buffer at `i` to the back. */
  lemma {:induction false} MovedToBack(before: seq<Buffer>, i: nat, after: seq<Buffer>, buffer: Buffer?)
    requires Distinct(before) && i < |before| && buffer == before[i] && after == MoveToBack(before, i)
    ensures |after| > 0 && after[|after| - 1] == buffer && after[..|after| - 1] == Without(before, buffer)
    ensures multiset(after) == multiset(before) && Distinct(after)
  {
    WithoutAt<Buffer?>(before, i);
    MoveToBackPermutes(before, i);
    MoveToBackDistinct(before, i);
    assert after[..|before| - 1] == before[..i] + before[i + 1..];
  }

  /**
   * Lines 109-110 of `getBufferForRegion` have run: the buffer renders
   * `region`, holds its fill, the region is unmarked, and `extra` is the
   * marked continuation exactly when the fill overflowed.
   */
  ghost predicate Refilled(b: Buffer, region: Region, es: seq<Entity>, gen: Entity -> Geometry, endIndex: int, extra: Region?)
    reads b, b.vboData, b.iboData, region, extra
  {
    && b.region == region && !region.marked
    && HoldsWalk(b, es, gen, StartIndex(region.minIndex, es), endIndex)
    && (extra != null <==> Fill(es, gen, region.minIndex, endIndex).overflow)
    && (extra != null ==> extra.marked && extra.minIndex == At(es[Fill(es, gen, region.minIndex, endIndex).stop].zIndex))
  }

  datatype Acquired =
    | Acquired(buffer: Buffer, extraRegions: Region?)
    | NoBuffersAvailable

  /**
   * The pool (`BufferManager`): `buffers` is the LRU list, least recently
   * used first.  Every way of obtaining a buffer moves it to the back
   * (`MoveToBack`), so by `MoveToBackIncreasing` and `AppendIncreasing` the
   * list stays ordered by time of last use and `FrontIsLeastRecent` holds
   * of the buffer that eviction takes.
   */
  class BufferManager {
    var buffers: seq<Buffer>
    // The buffers of the list, as a set.
    ghost var members: set<Buffer>
    // Witness that no region is rendered by two buffers.
    ghost var owner: map<Region, Buffer>

    ghost function Repr(): set<object>
      reads this
    {
      {this} + members + (set b | b in members :: b.vboData) + (set b | b in members :: b.iboData)
    }

    /**
     * The pool invariant: at most MAX_BUFFERS distinct buffers, each with
     * its own staging memory of the fixed sizes and counters within
     * capacity, and no region rendered by two buffers.
     */
    ghost predicate Valid()
      reads this, members
    {
      && |buffers| <= MAX_BUFFERS
      && Distinct(buffers)
      && (forall b :: b in buffers ==> b in members)
      && (forall b :: b in members ==> b in buffers)
      && (forall b :: b in members ==> Owned(b, owner))
      && (forall b, c :: b in members && c in members && b != c ==> b.vboData != c.vboData && b.iboData != c.iboData)
    }

    ghost function Regions(): seq<Region?>
      reads this, buffers
    {
      RegionsOf(buffers)
    }

    constructor ()
      ensures Valid() && buffers == []
    {
      buffers := [];
      members := {};
      owner := map[];
    }

    /** The forward scan of `buffers` for one whose region is `r` (`null` finds a vacant one). */
    method IndexOfRegion(r: Region?) returns (found: bool, i: nat)
      ensures (if found then Some(i) else None) == FirstIndexOf(Regions(), r)
    {
      i := 0;
      while i < |buffers| && buffers[i].region != r
        invariant i <= |buffers|
        invariant forall j :: 0 <= j < i ==> buffers[j].region != r
      {
        i := i + 1;
      }
      found := i < |buffers|;
    }

    /** `_allocBuffer`: a new buffer while the pool is below MAX_BUFFERS and allocation succeeds. */
    method AllocBuffer(allocOk: bool) returns (buffer: Buffer?)
      ensures buffer == null <==> |buffers| >= MAX_BUFFERS || !allocOk
      ensures buffer != null ==> fresh(buffer) && fresh(buffer.vboData) && fresh(buffer.iboData)
      ensures buffer != null ==> buffer.Valid() && buffer.region == null && buffer.numVerts == 0 && buffer.numIndices == 0
    {
      var numAllocated := |buffers|;
      if numAllocated >= MAX_BUFFERS {
        return null;
      }
      if !allocOk {
        return null;
      }
      buffer := new Buffer();
    }

    /** `splice(i, 1)` and `push`: the buffer at `i` becomes the most recently used. */
    method MoveToEnd(i: nat, ghost region: Region) returns (buffer: Buffer)
      requires Valid() && i < |buffers|
      requires buffers[i].region == region || region !in Regions()
      modifies this
      ensures Valid()
      ensures forall b :: b in buffers && b != buffer ==> b.region != region
      ensures forall b :: b in buffers <==> b in old(buffers)
      ensures buffer == old(buffers[i]) && buffers == MoveToBack(old(buffers), i)
    {
      buffer := buffers[i];
      assert Owned(buffer, owner);
      assert forall b :: b in buffers && b != buffer ==> b.region != region;
      MoveToBackDistinct(buffers, i);
      buffers := buffers[..i] + buffers[i + 1..];
      buffers := buffers + [buffer];
    }

    /** `shift` and `push`: the least recently used buffer becomes the most recently used. */
    method RotateFront(ghost region: Region) returns (buffer: Buffer)
      requires Valid() && |buffers| > 0 && region !in Regions()
      modifies this
      ensures Valid()
      ensures forall b :: b in buffers && b != buffer ==> b.region != region
      ensures forall b :: b in buffers <==> b in old(buffers)
      ensures buffer == old(buffers[0]) && buffers == MoveToBack(old(buffers), 0)
    {
      buffer := buffers[0];
      MoveToBackDistinct(buffers, 0);
      ShiftPush(buffers);
      buffers := buffers[1..];
      buffers := buffers + [buffer];
    }

    /** `push` of a newly allocated buffer. */
    method Append(buffer: Buffer, ghost region: Region)
      requires Valid() && |buffers| < MAX_BUFFERS && buffer !in buffers && region !in Regions()
      requires buffer.Valid() && buffer.numVerts == 0 && buffer.numIndices == 0
      requires buffer.region == null
      requires forall b :: b in members ==> b.vboData != buffer.vboData && b.iboData != buffer.iboData
      modifies this
      ensures Valid()
      ensures forall b :: b in buffers && b != buffer ==> b.region != region
      ensures buffers == old(buffers) + [buffer]
    {
      buffers := buffers + [buffer];
      members := members + {buffer};
    }

    /**
     * `getBufferForRegion`: selects a buffer by identity, vacancy,
     * allocation or eviction (see `Select`), moves it to the most recently
     * used end, and regenerates it when the region is marked or the buffer
     * had no region.  An empty pool in which allocation fails yields
     * `NoBuffersAvailable`.
     */
    method GetBufferForRegion(region: Region, endIndex: int, entities: seq<Entity>, gen: Entity -> Geometry, allocOk: bool)
      returns (result: Acquired)
      requires Valid()
      modifies Repr(), region
      ensures Valid()
      ensures Moved(Select(old(Regions()), region, allocOk), old(buffers), buffers, if result.Acquired? then result.buffer else null)
      ensures result.Acquired? && Select(old(Regions()), region, allocOk).Allocate? ==> fresh(result.buffer)
      ensures result.Acquired? && Regenerates(Select(old(Regions()), region, allocOk), old(region.marked)) ==>
        && Refilled(result.buffer, region, entities, gen, endIndex, result.extraRegions)
        && (result.extraRegions != null ==> fresh(result.extraRegions))
      ensures result.Acquired? && !Regenerates(Select(old(Regions()), region, allocOk), old(region.marked)) ==>
        && result.extraRegions == null
        && result.buffer in old(buffers)
        && result.buffer.region == old(result.buffer.region)
        && result.buffer.numVerts == old(result.buffer.numVerts)
        && result.buffer.numIndices == old(result.buffer.numIndices)
        && result.buffer.vboData[..] == old(result.buffer.vboData[..])
        && result.buffer.iboData[..] == old(result.buffer.iboData[..])
      ensures (result.NoBuffersAvailable? || !Regenerates(Select(old(Regions()), region, allocOk), old(region.marked))) ==>
        region.marked == old(region.marked)
      ensures forall b :: b in old(buffers) && (result.NoBuffersAvailable? || b != result.buffer) ==>
        b.region == old(b.region) && b.numVerts == old(b.numVerts) && b.numIndices == old(b.numIndices)
        && b.vboData[..] == old(b.vboData[..]) && b.iboData[..] == old(b.iboData[..])
    {
      var buffer := Choose(region, allocOk);
      if buffer == null {
        return NoBuffersAvailable;
      }
      var extraRegions: Region? := null;
      if region.marked || buffer.region == null {
        extraRegions := Regenerate(buffer, region, endIndex, entities, gen);
      }
      return Acquired(buffer, extraRegions);
    }

    /**
     * Lines 63-106 of `getBufferForRegion`: the four searches in order of
     * priority, each moving the buffer it finds to the most recently used
     * end; `null` where the source throws "no buffers available!".
     */
    method Choose(region: Region, allocOk: bool) returns (buffer: Buffer?)
      requires Valid()
      modifies this
      ensures Valid()
      ensures Moved(Select(old(Regions()), region, allocOk), old(buffers), buffers, buffer)
      ensures forall b :: b in old(buffers) ==> b in buffers
      ensures buffer != null ==>
        && buffer in buffers
        && (buffer.region == null <==> Select(old(Regions()), region, allocOk).Vacant? || Select(old(Regions()), region, allocOk).Allocate?)
        && (forall b :: b in buffers && b != buffer ==> b.region != region)
        && (buffer in old(buffers) || (fresh(buffer) && fresh(buffer.vboData) && fresh(buffer.iboData)))
      ensures Select(old(Regions()), region, allocOk).Allocate? ==> fresh(buffer)
    {
      ghost var sel := Select(Regions(), region, allocOk);
      var found, i := IndexOfRegion(region);
      if found {
        assert sel == Identity(i);
        buffer := MoveToEnd(i, region);
        return;
      }
      found, i := IndexOfRegion(null);
      if found {
        assert sel == Vacant(i);
        buffer := MoveToEnd(i, region);
        return;
      }
      buffer := AllocBuffer(allocOk);
      if buffer != null {
        assert sel == Allocate;
        Append(buffer, region);
        return;
      }
      if |buffers| == 0 {
        assert sel == Exhausted;
        return null;
      }
      assert sel == Evict;
      buffer := RotateFront(region);
    }

    /** Lines 109-110 of `getBufferForRegion`: assigns the region to the buffer and refills it. */
    method Regenerate(buffer: Buffer, region: Region, endIndex: int, entities: seq<Entity>, gen: Entity -> Geometry)
      returns (extraRegions: Region?)
      requires Valid() && buffer in buffers
      requires forall b :: b in buffers && b != buffer ==> b.region != region
      modifies this, buffer, buffer.vboData, buffer.iboData, region
      ensures Valid() && buffers == old(buffers)
      ensures Refilled(buffer, region, entities, gen, endIndex, extraRegions)
      ensures extraRegions != null ==> fresh(extraRegions)
      ensures forall b :: b in buffers && b != buffer ==>
        b.region == old(b.region) && b.numVerts == old(b.numVerts) && b.numIndices == old(b.numIndices)
        && b.vboData[..] == old(b.vboData[..]) && b.iboData[..] == old(b.iboData[..])
    {
      forall b | b in members && b != buffer
        ensures Owned(b, owner[region := buffer])
      {
      }
      buffer.region := region;
      owner := owner[region := buffer];
      extraRegions := VertGenBuffer(buffer, region, endIndex, entities, gen);
      FillWithinCapacity(entities, gen, region.minIndex, endIndex);
      assert Owned(buffer, owner);
    }

    /**
     * `_vertGenBuffer`: resets the counters, walks the entities from the
     * region's start while they are below `endIndex`, generates each one
     * that fits, and on the first that does not returns a marked
     * continuation region keyed at its zIndex.  The region ends unmarked.
     */
    method VertGenBuffer(buffer: Buffer, region: Region, endIndex: int, entities: seq<Entity>, gen: Entity -> Geometry)
      returns (extraRegions: Region?)
      requires buffer.Valid()
      modifies buffer`numVerts, buffer`numIndices, buffer.vboData, buffer.iboData, region
      ensures HoldsWalk(buffer, entities, gen, StartIndex(region.minIndex, entities), endIndex)
      ensures extraRegions != null <==> Fill(entities, gen, region.minIndex, endIndex).overflow
      ensures extraRegions != null ==>
        fresh(extraRegions) && extraRegions.marked
        && extraRegions.minIndex == At(entities[Fill(entities, gen, region.minIndex, endIndex).stop].zIndex)
      ensures !region.marked
    {
      buffer.numVerts := 0;
      buffer.numIndices := 0;

      var i: nat;
      if region.minIndex == MinValue {
        i := 0;
      } else {
        i := LowerBound(entities, region.minIndex.z);
      }
      assert i == StartIndex(region.minIndex, entities);
      extraRegions := FillFrom(buffer, entities, gen, i, endIndex);
      region.Unmark();
    }
  }

  /**
   * The loop of `_vertGenBuffer`, from the start index `start` with the
   * counters at zero: exactly `Walk` from `start`, writing what it emits.
   */
  method FillFrom(buffer: Buffer, entities: seq<Entity>, gen: Entity -> Geometry, start: nat, endIndex: int)
    returns (extraRegions: Region?)
    requires buffer.Valid() && start <= |entities|
    requires buffer.numVerts == 0 && buffer.numIndices == 0
    modifies buffer`numVerts, buffer`numIndices, buffer.vboData, buffer.iboData
    ensures HoldsWalk(buffer, entities, gen, start, endIndex)
    ensures extraRegions != null <==> Walk(entities, gen, start, endIndex, 0, 0).overflow
    ensures extraRegions != null ==>
      fresh(extraRegions) && extraRegions.marked
      && extraRegions.minIndex == At(entities[Walk(entities, gen, start, endIndex, 0, 0).stop].zIndex)
  {
    var i := start;
    assert EmittedVerts(entities, gen, start, start) == [] && EmittedIndices(entities, gen, start, start) == [];
    extraRegions := null;
    while i < |entities| && entities[i].zIndex < endIndex
      invariant start <= i <= |entities|
      invariant Walk(entities, gen, start, endIndex, 0, 0) == Walk(entities, gen, i, endIndex, buffer.numVerts, buffer.numIndices)
      invariant EmittedUpTo(buffer, entities, gen, start, i)
      invariant extraRegions == null
    {
      var costs := CostOf(gen, entities[i]);
      if costs.verts + buffer.numVerts > NUM_VERTS || costs.indices + buffer.numIndices > NUM_INDICES {
        extraRegions := new Region(At(entities[i].zIndex));
        extraRegions.Mark();
        LoopExit(buffer, entities, gen, endIndex, start, i);
        break;
      }
      GenerateNext(buffer, entities, gen, start, i, endIndex);
      i := i + 1;
    }
    if extraRegions == null {
      LoopExit(buffer, entities, gen, endIndex, start, i);
    }
  }
}
