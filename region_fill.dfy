/**
 * What one run of the region fill loop (`_vertGenBuffer` in
 * src/webgl/webgl1/BufferManager.js) computes, as pure functions over the
 * entity sequence: where the walk starts, where it stops, whether it stops
 * on an entity that does not fit, and what it writes.  The imperative fill
 * in module BufferManagement is proved against these functions.
 *
 * The entity sequence and the vertex generator are collaborators: entities
 * are values with a zIndex, and the generator is a function from an entity
 * to the geometry it emits.  The cost the generator reports for an entity is
 * the size of that geometry, so "generate emits exactly what costOf
 * reports" holds by construction.
 */
module RegionFill {
  import opened VertexLayout

  /** Vertex capacity of one buffer (indices are 16-bit). */
  const NUM_VERTS: nat := 65536
  /** Index capacity of one buffer: three indices per vertex. */
  const NUM_INDICES: nat := NUM_VERTS * 3

  /** A region's lower bound: the `Number.MIN_VALUE` sentinel ("from the start") or a zIndex. */
  datatype MinIndex = MinValue | At(z: int)

  /** An entity of the sorted sequence; `data` stands for everything the vertex generator reads. */
  datatype Entity = Entity(zIndex: int, data: int)

  /**
   * What the generator emits for one entity: its vertices, in order, and its
   * indices, each given as an offset from the number `pushVert` returned for
   * the entity's first vertex.
   */
  datatype Geometry = Geometry(verts: seq<Vertex>, indices: seq<nat>)

  datatype Cost = Cost(verts: nat, indices: nat)

  /** `vertgen.costOf`: the vertex and index counts the generator will emit. */
  function CostOf(gen: Entity -> Geometry, e: Entity): Cost
  {
    Cost(|gen(e).verts|, |gen(e).indices|)
  }

  /**
   * The negation of the capacity test of the fill loop.  Whatever fits in
   * a partly filled buffer is no larger than a whole buffer.
   */
  predicate Fits(c: Cost, numVerts: nat, numIndices: nat)
    ensures Fits(c, numVerts, numIndices) ==> c.verts <= NUM_VERTS && c.indices <= NUM_INDICES
  {
    c.verts + numVerts <= NUM_VERTS && c.indices + numIndices <= NUM_INDICES
  }

  predicate Sorted(es: seq<Entity>)
  {
    forall i, j :: 0 <= i < j < |es| ==> es[i].zIndex <= es[j].zIndex
  }

  predicate StrictlySorted(es: seq<Entity>)
  {
    forall i, j :: 0 <= i < j < |es| ==> es[i].zIndex < es[j].zIndex
  }

  /**
   * The index `findIndexWithBinarySearch` is taken to return for the
   * comparator `entity.zIndex - minIndex`: the first entity whose zIndex is
   * at least `z`, or the length when there is none.
   */
  function LowerBound(es: seq<Entity>, z: int): (k: nat)
    ensures k <= |es|
    ensures forall j :: 0 <= j < k ==> es[j].zIndex < z
    ensures k < |es| ==> es[k].zIndex >= z
  {
    if es == [] || es[0].zIndex >= z then 0 else 1 + LowerBound(es[1..], z)
  }

  /**
   * Where the fill loop starts for a region's lower bound: at 0 for the
   * sentinel, otherwise at the first entity whose zIndex is at least the
   * bound.
   */
  function StartIndex(m: MinIndex, es: seq<Entity>): (k: nat)
    ensures k <= |es|
    ensures m.MinValue? ==> k == 0
    ensures m.At? ==> (forall j :: 0 <= j < k ==> es[j].zIndex < m.z) && (k < |es| ==> es[k].zIndex >= m.z)
  {
    match m
    case MinValue => 0
    case At(z) => LowerBound(es, z)
  }

  /**
   * How a fill run ended: `stop` is the index of the first entity not
   * generated, `overflow` says the run stopped because that entity did not
   * fit, and `verts`/`indices` are the counters at the end.
   */
  datatype Outcome = Outcome(stop: nat, overflow: bool, verts: nat, indices: nat)

  /**
   * The fill loop from entity `i` with counters `numVerts`, `numIndices`:
   * it generates entities while they are below `endIndex` and fit, and
   * stops at the first one that does not fit.
   */
  function Walk(es: seq<Entity>, gen: Entity -> Geometry, i: nat, endIndex: int,
                numVerts: nat, numIndices: nat): (o: Outcome)
    requires i <= |es|
    ensures i <= o.stop <= |es|
    ensures numVerts <= o.verts && numIndices <= o.indices
    ensures forall j :: i <= j < o.stop ==> es[j].zIndex < endIndex
    ensures o.overflow ==>
      o.stop < |es| && es[o.stop].zIndex < endIndex && !Fits(CostOf(gen, es[o.stop]), o.verts, o.indices)
    ensures !o.overflow ==> o.stop == |es| || es[o.stop].zIndex >= endIndex
    decreases |es| - i
  {
    if i == |es| || es[i].zIndex >= endIndex then
      Outcome(i, false, numVerts, numIndices)
    else
      var c := CostOf(gen, es[i]);
      if !Fits(c, numVerts, numIndices) then
        Outcome(i, true, numVerts, numIndices)
      else
        Walk(es, gen, i + 1, endIndex, numVerts + c.verts, numIndices + c.indices)
  }

  /**
   * The fill of a region that starts at `minIndex`, with the counters reset
   * to zero: it passes only entities below `endIndex` from the start index
   * on, and it overflows exactly on an entity below `endIndex` that does
   * not fit.
   */
  function Fill(es: seq<Entity>, gen: Entity -> Geometry, minIndex: MinIndex, endIndex: int): (o: Outcome)
    ensures StartIndex(minIndex, es) <= o.stop <= |es|
    ensures forall j :: StartIndex(minIndex, es) <= j < o.stop ==> es[j].zIndex < endIndex
    ensures o.overflow <==> o.stop < |es| && es[o.stop].zIndex < endIndex
    ensures o.overflow ==> !Fits(CostOf(gen, es[o.stop]), o.verts, o.indices)
  {
    Walk(es, gen, StartIndex(minIndex, es), endIndex, 0, 0)
  }

  /** The vertices the generator pushes for entities `s` up to (not including) `t`. */
  function EmittedVerts(es: seq<Entity>, gen: Entity -> Geometry, s: nat, t: nat): (vs: seq<Vertex>)
    requires s <= t <= |es|
    decreases t - s
  {
    if t == s then [] else EmittedVerts(es, gen, s, t - 1) + gen(es[t - 1]).verts
  }

  /** Index values as the 16-bit index view stores them, for offsets from vertex `base`. */
  function Shifted(offsets: seq<nat>, base: nat): (r: seq<U16>)
    ensures |r| == |offsets|
  {
    seq(|offsets|, k requires 0 <= k < |offsets| => ToUint16(base + offsets[k]))
  }

  /** The index values pushed for entities `s` up to (not including) `t`. */
  function EmittedIndices(es: seq<Entity>, gen: Entity -> Geometry, s: nat, t: nat): (xs: seq<U16>)
    requires s <= t <= |es|
    decreases t - s
  {
    if t == s then []
    else EmittedIndices(es, gen, s, t - 1) + Shifted(gen(es[t - 1]).indices, |EmittedVerts(es, gen, s, t - 1)|)
  }

  /** Counters that start within capacity stay within capacity. */
  lemma {:induction false} WalkWithinCapacity(es: seq<Entity>, gen: Entity -> Geometry, i: nat, endIndex: int,
                                              numVerts: nat, numIndices: nat)
    requires i <= |es| && numVerts <= NUM_VERTS && numIndices <= NUM_INDICES
    ensures Walk(es, gen, i, endIndex, numVerts, numIndices).verts <= NUM_VERTS
    ensures Walk(es, gen, i, endIndex, numVerts, numIndices).indices <= NUM_INDICES
    decreases |es| - i
  {
    if i < |es| && es[i].zIndex < endIndex {
      var c := CostOf(gen, es[i]);
      if Fits(c, numVerts, numIndices) {
        WalkWithinCapacity(es, gen, i + 1, endIndex, numVerts + c.verts, numIndices + c.indices);
      }
    }
  }

  /** The counters a walk ends with are the sizes of what it emitted. */
  lemma {:induction false} WalkCounts(es: seq<Entity>, gen: Entity -> Geometry, s: nat, i: nat, endIndex: int)
    requires s <= i <= |es|
    ensures var o := Walk(es, gen, i, endIndex, |EmittedVerts(es, gen, s, i)|, |EmittedIndices(es, gen, s, i)|);
      o.verts == |EmittedVerts(es, gen, s, o.stop)| && o.indices == |EmittedIndices(es, gen, s, o.stop)|
    decreases |es| - i
  {
    var nv, ni := |EmittedVerts(es, gen, s, i)|, |EmittedIndices(es, gen, s, i)|;
    if i < |es| && es[i].zIndex < endIndex {
      var c := CostOf(gen, es[i]);
      if Fits(c, nv, ni) {
        assert EmittedVerts(es, gen, s, i + 1) == EmittedVerts(es, gen, s, i) + gen(es[i]).verts;
        assert |EmittedIndices(es, gen, s, i + 1)| == ni + c.indices;
        WalkCounts(es, gen, s, i + 1, endIndex);
      }
    }
  }

  /**
   * A fill, whatever the entities cost, ends within capacity, and its counters
   * are the sizes of what it emitted.
   */
  lemma FillWithinCapacity(es: seq<Entity>, gen: Entity -> Geometry, minIndex: MinIndex, endIndex: int)
    ensures var o := Fill(es, gen, minIndex, endIndex);
      && o.verts <= NUM_VERTS && o.indices <= NUM_INDICES
      && o.verts == |EmittedVerts(es, gen, StartIndex(minIndex, es), o.stop)|
      && o.indices == |EmittedIndices(es, gen, StartIndex(minIndex, es), o.stop)|
  {
    var s := StartIndex(minIndex, es);
    WalkWithinCapacity(es, gen, s, endIndex, 0, 0);
    WalkCounts(es, gen, s, s, endIndex);
  }

  /**
   * A fill stops at its first entity without generating anything exactly
   * when that entity is below `endIndex` and alone exceeds a capacity.
   */
  lemma StallsIffOversize(es: seq<Entity>, gen: Entity -> Geometry, s: nat, endIndex: int)
    requires s <= |es|
    ensures var o := Walk(es, gen, s, endIndex, 0, 0);
      (o.overflow && o.stop == s) <==> (s < |es| && es[s].zIndex < endIndex && !Fits(CostOf(gen, es[s]), 0, 0))
  {
  }

  /**
   * A continuation keyed at the zIndex of entity k starts its own fill at k
   * when zIndex values are distinct; with repeated values it starts at the
   * first entity sharing entity k's zIndex, so those entities are drawn again.
   */
  lemma ContinuationStart(es: seq<Entity>, k: nat)
    requires Sorted(es) && k < |es|
    ensures StartIndex(At(es[k].zIndex), es) <= k
    ensures forall j :: StartIndex(At(es[k].zIndex), es) <= j <= k ==> es[j].zIndex == es[k].zIndex
    ensures StrictlySorted(es) ==> StartIndex(At(es[k].zIndex), es) == k
  {
  }

  /**
   * Nothing guards against an entity that alone exceeds a buffer: its fill
   * generates nothing and returns a continuation at the same zIndex, whose
   * own fill does exactly the same, so re-filling the continuation never
   * makes progress.
   */
  lemma OversizeEntityRepeats(es: seq<Entity>, gen: Entity -> Geometry, k: nat, endIndex: int)
    requires StrictlySorted(es) && k < |es| && es[k].zIndex < endIndex
    requires !Fits(CostOf(gen, es[k]), 0, 0)
    ensures Fill(es, gen, At(es[k].zIndex), endIndex) == Outcome(k, true, 0, 0)
  {
    ContinuationStart(es, k);
  }

  /**
   * `costOf` reports what `generate` emits: generating one more entity adds
   * exactly its cost to the emitted vertices and indices.
   */
  lemma CostIsEmitted(es: seq<Entity>, gen: Entity -> Geometry, s: nat, t: nat)
    requires s <= t < |es|
    ensures |EmittedVerts(es, gen, s, t + 1)| == |EmittedVerts(es, gen, s, t)| + CostOf(gen, es[t]).verts
    ensures |EmittedIndices(es, gen, s, t + 1)| == |EmittedIndices(es, gen, s, t)| + CostOf(gen, es[t]).indices
  {
  }

  /**
   * With repeated zIndex values the continuation need not make progress
   * even though every entity fits in a buffer on its own: three entities at
   * zIndex 5 of 40000 vertices each.  The fill from the start overflows at
   * entity 1, whose continuation is keyed at zIndex 5 again, and the fill
   * of that continuation restarts at entity 0 and overflows at entity 1
   * once more.
   */
  lemma RepeatedZIndexRepeats()
    ensures var es := [Entity(5, 0), Entity(5, 1), Entity(5, 2)];
      var gen := (e: Entity) => Geometry(seq(40000, _ => Vertex(0, 0, 0, 0, 0, 0, 0, 0, 0, Color(0, 0, 0, 0))), []);
      && Sorted(es)
      && (forall j :: 0 <= j < |es| ==> Fits(CostOf(gen, es[j]), 0, 0))
      && Fill(es, gen, MinValue, 10) == Outcome(1, true, 40000, 0)
      && es[1].zIndex == 5
      && Fill(es, gen, At(5), 10) == Outcome(1, true, 40000, 0)
  {
    var es := [Entity(5, 0), Entity(5, 1), Entity(5, 2)];
    var gen := (e: Entity) => Geometry(seq(40000, _ => Vertex(0, 0, 0, 0, 0, 0, 0, 0, 0, Color(0, 0, 0, 0))), []);
    assert forall e :: CostOf(gen, e) == Cost(40000, 0);
    assert StartIndex(At(5), es) == 0;
    assert Walk(es, gen, 1, 10, 40000, 0) == Outcome(1, true, 40000, 0);
    assert Walk(es, gen, 0, 10, 0, 0) == Outcome(1, true, 40000, 0);
  }
}
