# Buffer pool of the WebGL 1 renderer, in Dafny

This project models the buffer pool in `src/webgl/webgl1/BufferManager.js`. The renderer draws a sorted, z-ordered sequence of entities through a bounded pool of GPU geometry buffers. Each buffer renders one *region* of the entity sequence, meaning the entities from the region's lower bound `minIndex` onward. A region carries a *mark* that says its geometry changed.

The model has four modules:

- `VertexLayout` (`vertex_layout.dfy`) models the 24-byte vertex record that `pushVert` writes.
  - Every field sits at a fixed byte offset, little-endian as on a little-endian host.
  - Each store through a narrow typed-array view keeps its value modulo 2^width. The signed views use two's complement.
  - A store past the end of a typed array is dropped (`Overwrite`).
  - The record has a decoder, and round trips are proved in both directions.
- `RegionFill` (`region_fill.dfy`) gives pure definitions of one fill run of `_vertGenBuffer`:
  - where the run starts (`StartIndex`, `LowerBound`);
  - where and why it stops (`Walk`, `Fill`);
  - what it writes (`EmittedVerts`, `EmittedIndices`).

  It also proves the capacity, overflow and continuation properties.
- `LruOrder` (`lru_order.dfy`) models the recency list:
  - `splice(i, 1)` followed by `push` is `MoveToBack`;
  - `shift` followed by `push` is the same move for position 0;
  - it includes the lemmas about order, permutation and recency.
- `BufferManagement` (`buffer_manager.dfy`) is the imperative model.
  - `Region` has a fixed lower bound and a mark.
  - `Buffer` has its staging arrays, region and counters. It has the `pushVert`, `pushIndex` and `pushIndices` stores as methods.
  - `BufferManager` holds the LRU list `buffers`, least recently used first. Its methods are `getBufferForRegion`, `_allocBuffer` and `_vertGenBuffer`.
  - Each method is proved against the functions above. The class invariant says:
    - the pool holds at most `MAX_BUFFERS` distinct buffers, each with its own staging memory;
    - every buffer's counters are within capacity;
    - no region is rendered by two buffers.

The selection order of `getBufferForRegion` is:

1. the buffer already rendering the region;
2. otherwise the first buffer with no region;
3. otherwise a newly allocated buffer, while the pool is below `MAX_BUFFERS` and allocation succeeds;
4. otherwise the front (least recently used) buffer.

This order is the function `Select`. If the pool is empty and allocation fails, the source throws "no buffers available!". The model returns `NoBuffersAvailable` instead.

Two behaviours of the code are modelled as written, although neither is what a pool with guaranteed progress would do:

- **Eviction does not reassign an unmarked region.** The code regenerates only when `region.isMarked() || !buffer.region`. So when the region is unmarked, eviction hands out the front buffer still holding its previous region and does not refill it. `StaleEviction` states this.
- **Continuations need not make progress.** Nothing checks that a continuation region starts after the region it came from.
  - An entity that alone exceeds a buffer's capacity: with strictly increasing zIndex values, its fill generates nothing and returns a marked continuation at its own zIndex, whose fill does exactly the same again. `OversizeEntityRepeats` states this.
  - Repeated zIndex values: a continuation keyed at the zIndex of the entity that did not fit restarts at the first entity with that zIndex (`ContinuationStart`). So the continuation's fill can repeat the original fill exactly, even when every entity fits on its own. `RepeatedZIndexRepeats` gives three such entities.

The collaborators are parameters:

- The vertex generator is a function `gen` from an entity to the geometry it emits, meaning its vertices and its indices as offsets from its first vertex. `costOf` is the size of that geometry, so `generate` emits exactly what `costOf` reports.
- Whether a GPU allocation succeeds is the boolean `allocOk`.
- The entity sequence is a `seq<Entity>`. The binary search is taken to return the first index whose zIndex is at least `minIndex`.

## Model

| member | source | states |
|---|---|---|
| VertexLayout.EncodeVertex | src/webgl/webgl1/BufferManager.js:146-167 | a vertex record is `VERTEX_SIZE_BYTES` (24) bytes and its padding byte 15 is always 0 |
| VertexLayout.DecodeEncode | src/webgl/webgl1/BufferManager.js:154-167 | reading each field back through its view gives the value as that view stored it: 32-bit patterns, Int16, Uint16, Uint8 and Int8 wrap-around; a vertex whose fields are in range reads back unchanged |
| VertexLayout.EncodeDecode | src/webgl/webgl1/BufferManager.js:154-167 | the field offsets cover the record exactly: every 24-byte record whose byte 15 is clear is the encoding of the vertex it decodes to |
| VertexLayout.UnsignedField | src/webgl/webgl1/BufferManager.js:158-167 | an unsigned view of width 1, 2 or 4 bytes reads back the stored value modulo 2^8, 2^16 or 2^32 |
| VertexLayout.SignedField | src/webgl/webgl1/BufferManager.js:156-163 | an Int8 or Int16 view reads back the stored value wrapped into the signed range of its width |
| VertexLayout.LittleEndianOfSigned | src/webgl/webgl1/BufferManager.js:156-163 | storing the value a signed view reads gives back the same bytes |
| VertexLayout.Overwrite | src/webgl/webgl1/BufferManager.js:154-173 | a typed-array store of a run of elements from a position keeps the array's length (what it writes is stated by the two lemmas below) |
| VertexLayout.OverwriteInBounds | src/webgl/webgl1/BufferManager.js:154-173 | a store that fits in the array replaces exactly its own range and leaves every other element as it was |
| VertexLayout.OverwriteOutOfBounds | src/webgl/webgl1/BufferManager.js:154-173 | a typed-array store that starts past the end changes nothing |
| VertexLayout.RecordAt | src/webgl/webgl1/BufferManager.js:147-148 | in a run of records, bytes [24k, 24k+24) read back as vertex k, as its views stored it |
| RegionFill.LowerBound | src/webgl/webgl1/BufferManager.js:187-189 | the start index for a lower bound `z`: every entity before it has zIndex below `z`, and the entity at it (if any) has zIndex at least `z` |
| RegionFill.StartIndex | src/webgl/webgl1/BufferManager.js:183-190 | the start index is 0 for the `Number.MIN_VALUE` sentinel; for a lower bound `z` every entity before it has zIndex below `z` and the entity at it (if any) has zIndex at least `z` |
| RegionFill.Fits | src/webgl/webgl1/BufferManager.js:196-197 | an entity whose cost passes the capacity test is no larger than a whole buffer |
| RegionFill.CostIsEmitted | src/webgl/webgl1/BufferManager.js:194-204 | `costOf` of an entity is exactly the number of vertices and indices its generation adds to what was emitted |
| RegionFill.Walk | src/webgl/webgl1/BufferManager.js:193-205 | the fill loop: it stops at or after its start, every entity it passes is below `endIndex`, counters only grow; it overflows only at an entity below `endIndex` that does not fit, and otherwise it stops at the end of the sequence or at the first entity at or above `endIndex` |
| RegionFill.Fill | src/webgl/webgl1/BufferManager.js:139-205 | the fill with reset counters passes only entities below `endIndex` from the start index on, overflows exactly when it stops at an entity below `endIndex`, and that entity does not fit |
| RegionFill.WalkWithinCapacity | src/webgl/webgl1/BufferManager.js:196-204 | counters that start within capacity end within `NUM_VERTS` and `NUM_INDICES` |
| RegionFill.WalkCounts | src/webgl/webgl1/BufferManager.js:196-204 | the counters a run ends with are the numbers of vertices and indices emitted for the entities it generated |
| RegionFill.FillWithinCapacity | src/webgl/webgl1/BufferManager.js:139-205 | a fill with reset counters ends with `numVerts <= NUM_VERTS` and `numIndices <= NUM_INDICES`, whatever the entities cost, and its counters are the sizes of what it emitted |
| RegionFill.StallsIffOversize | src/webgl/webgl1/BufferManager.js:193-201 | a run with reset counters stops at its first entity having generated nothing exactly when that entity is below `endIndex` and alone exceeds a capacity |
| RegionFill.ContinuationStart | src/webgl/webgl1/BufferManager.js:183-199 | a continuation keyed at entity k's zIndex starts at or before k, on entities of that same zIndex; with distinct zIndex values it starts exactly at k |
| RegionFill.OversizeEntityRepeats | src/webgl/webgl1/BufferManager.js:196-201 | for strictly increasing zIndex values, the fill of the continuation for an oversize entity again generates nothing and overflows at that same entity |
| RegionFill.RepeatedZIndexRepeats | src/webgl/webgl1/BufferManager.js:187-201 | with three entities of the same zIndex that each fit alone but not two together, the fill from the start and the fill of its continuation are the same run, overflowing at the same entity |
| LruOrder.FirstIndexOf | src/webgl/webgl1/BufferManager.js:68-86 | the forward scan finds the first position holding the value, or reports that it is absent |
| LruOrder.MoveToBack | src/webgl/webgl1/BufferManager.js:71-72 | `splice(i, 1)` then `push` keeps the list's length and puts the element from position i last |
| LruOrder.ShiftPush | src/webgl/webgl1/BufferManager.js:104-105 | `shift` then `push` of the shifted element is the move of position 0 to the back |
| LruOrder.MoveToBackPermutes | src/webgl/webgl1/BufferManager.js:71-72 | `splice` then `push` puts the element last, keeps the others in order, each shifted past the gap, and is a permutation |
| LruOrder.MoveToBackDistinct | src/webgl/webgl1/BufferManager.js:71-72 | moving to the back keeps exactly the same elements and keeps them free of repetitions |
| LruOrder.MoveToBackMembers | src/webgl/webgl1/BufferManager.js:71-72 | moving to the back keeps exactly the same elements |
| LruOrder.WithoutAt | src/webgl/webgl1/BufferManager.js:71 | in a list without repetitions, removing position i is removing the value at i |
| LruOrder.MoveToBackIncreasing | src/webgl/webgl1/BufferManager.js:59-72 | stamping the buffer moved to the back with the current time keeps the list ordered by time of last use |
| LruOrder.AppendIncreasing | src/webgl/webgl1/BufferManager.js:93-95 | appending a new buffer stamped with the current time keeps the list ordered by time of last use |
| LruOrder.FrontIsLeastRecent | src/webgl/webgl1/BufferManager.js:98-104 | in a list ordered by time of last use, the front buffer that eviction takes is the least recently used |
| BufferManagement.Region.constructor | src/webgl/webgl1/BufferManager.js:199 | a new region has the given lower bound and is not marked |
| BufferManagement.Region.Mark | src/webgl/webgl1/BufferManager.js:200 | the region is marked |
| BufferManagement.Region.Unmark | src/webgl/webgl1/BufferManager.js:207 | the region is not marked |
| BufferManagement.Buffer.constructor | src/webgl/webgl1/BufferManager.js:6-31 | a new buffer has no region, zero counters, and fresh zero-filled staging memory of `NUM_VERTS * 24` bytes and `NUM_INDICES` 16-bit slots |
| BufferManagement.Buffer.PushVert | src/webgl/webgl1/BufferManager.js:146-170 | returns the old `numVerts` n, adds exactly 1 to it, and changes only bytes [24n, 24n+24) of the vertex memory, which become the record of the vertex; stores past the end are dropped |
| BufferManagement.Buffer.PushIndex | src/webgl/webgl1/BufferManager.js:172-174 | stores the index, wrapped to 16 bits, at slot `numIndices` only, and then adds 1 to `numIndices` |
| BufferManagement.Buffer.PushIndices | src/webgl/webgl1/BufferManager.js:176-180 | stores the indices, in argument order, at consecutive slots from `numIndices`, and adds their number to `numIndices` |
| BufferManagement.Store | src/webgl/webgl1/BufferManager.js:154-167 | a store of bytes through a view from a byte offset leaves the array as `Overwrite` of its old contents: those bytes at their positions, nothing else changed, nothing past the end |
| BufferManagement.Generate | src/webgl/webgl1/BufferManager.js:204 | generating an entity appends the records of its vertices after the existing ones and its indices, offset by its first vertex's number, after the existing indices |
| BufferManagement.GenerateNext | src/webgl/webgl1/BufferManager.js:194-204 | one iteration for an entity that fits: the buffer then holds exactly what was emitted up to and including it, and the rest of the fill is unchanged |
| BufferManagement.LoopExit | src/webgl/webgl1/BufferManager.js:193-201 | where the loop leaves off, the buffer holds the run's output, and the loop stopped where the run stops, overflowing exactly when it broke out on an entity below `endIndex` |
| BufferManagement.Select | src/webgl/webgl1/BufferManager.js:62-106 | the selection priority: identity exactly when a buffer renders the region (the first such); vacancy exactly when none does and one has no region (the first such); allocation exactly when neither holds, the pool is below `MAX_BUFFERS` and allocation succeeds; eviction exactly when none of those holds and the pool is non-empty; no buffer exactly when the pool is empty and allocation fails |
| BufferManagement.Regenerates | src/webgl/webgl1/BufferManager.js:108 | a marked region is always regenerated; an unmarked one never is on the identity and eviction paths |
| BufferManagement.RegenerationCondition | src/webgl/webgl1/BufferManager.js:108-111 | the buffer is regenerated if and only if the region is marked, or it is not rendered yet and a vacant buffer exists or one is allocated; a clean region that a buffer already renders is never regenerated |
| BufferManagement.StaleEviction | src/webgl/webgl1/BufferManager.js:98-111 | eviction for an unmarked region takes a front buffer that renders another region and does not regenerate it |
| BufferManagement.ChosenIsLast | src/webgl/webgl1/BufferManager.js:68-106 | the buffer handed out ends last, the others keep their relative order, the list stays free of repetitions and, except when a buffer was allocated, is a permutation of the old list; only the empty pool that cannot allocate hands out nothing, and then the list is unchanged |
| BufferManagement.BufferManager.constructor | src/webgl/webgl1/BufferManager.js:57-60 | a new pool is empty and satisfies the pool invariant |
| BufferManagement.BufferManager.IndexOfRegion | src/webgl/webgl1/BufferManager.js:68-86 | the scan finds the first buffer whose region is the given one (null for a vacant buffer), or reports that none is |
| BufferManagement.BufferManager.AllocBuffer | src/webgl/webgl1/BufferManager.js:116-128 | no buffer exactly when the pool already holds `MAX_BUFFERS` or allocation fails; otherwise a new buffer with no region, zero counters and staging memory of the fixed sizes |
| BufferManagement.BufferManager.MoveToEnd | src/webgl/webgl1/BufferManager.js:71-72 | the buffer at i is moved to the back, the list keeps its members, and the pool invariant holds |
| BufferManagement.BufferManager.RotateFront | src/webgl/webgl1/BufferManager.js:104-105 | the front buffer is moved to the back, the list keeps its members, and the pool invariant holds |
| BufferManagement.BufferManager.Append | src/webgl/webgl1/BufferManager.js:94 | the new buffer is appended, which keeps the pool within `MAX_BUFFERS` and keeps the invariant |
| BufferManagement.BufferManager.Choose | src/webgl/webgl1/BufferManager.js:63-106 | the four searches in priority order: the list after the call is the list before with the chosen buffer moved to (or appended at) the back, as `Select` dictates, with no buffer only for an empty pool that cannot allocate; the chosen buffer has no region exactly on the vacancy and allocation paths, and no other buffer renders the region |
| BufferManagement.BufferManager.GetBufferForRegion | src/webgl/webgl1/BufferManager.js:62-114 | selection as `Select` and list update as `Chose`; when the region is marked or the buffer had none, the buffer is given the region and holds its fill, the region ends unmarked, and the continuation is returned exactly on overflow; otherwise the buffer keeps its region, counters and staging-memory contents, no continuation is returned and the mark is untouched; every other buffer keeps its region, counters and staging-memory contents; the pool invariant holds |
| BufferManagement.BufferManager.Regenerate | src/webgl/webgl1/BufferManager.js:108-111 | the buffer is given the region and holds its fill, the list and the other buffers' regions, counters and staging-memory contents are unchanged, and still no region is rendered by two buffers |
| BufferManagement.BufferManager.VertGenBuffer | src/webgl/webgl1/BufferManager.js:130-215 | after the reset, the buffer holds exactly the fill from the region's start index: counters equal to what was emitted, the records and indices at the front of its memory; a fresh marked continuation at the stopping entity's zIndex is returned exactly on overflow; the region ends unmarked |
| BufferManagement.FillFrom | src/webgl/webgl1/BufferManager.js:192-205 | the loop from a start index with zero counters does exactly what `Walk` describes and writes what it emits; it breaks with a marked continuation at the entity that does not fit, and returns none otherwise |

## Left out

- GPU calls. `createBuffer`, `bindBuffer`, `bufferData`, `bufferSubData` and `deleteBuffer` are foreign I/O.
  - A GPU allocation is the boolean `allocOk`.
  - The try/catch and clean-up in `Buffer.allocate` are left out.
  - The upload of the first `numVerts * 24` and `numIndices * 2` bytes is left out. Those lengths are the counters the contracts state.
- Floating point. `Math.round` of the quantisation divisions and the `Float32Array` stores of x and y are left out. A `Vertex` carries integers: the bit patterns of x and y, the rounded quantised values, and `baryIndex` and the four colour channels as integers. The source stores those five unrounded, and a `Uint8Array` store truncates a fraction before it wraps; that truncation is not modelled. Only the wrap-around of the typed-array conversion is modelled.
- Byte order. The Float32, Int16 and Uint16 views write in the host's byte order. The model assumes a little-endian host, which is what `LittleEndian` encodes.
- `console.log` and the `VERTEX_SIZE_BYTES % 4` check. The check cannot fail for the constant 24.
- `vertgen.costOf` and `vertgen.generate`. vertgen is not part of this model. The generator is a function from an entity to its geometry, and its cost is the size of that geometry.
  - So a generator that emits more than `costOf` reports is not modelled.
  - A generator that calls `pushVert` and `pushIndices` interleaved is not modelled either: all vertices are pushed first, then the indices.
- `entities.findIndexWithBinarySearch` and `BufferRegion`. Neither is part of this model.
  - The search is taken to return the first entity whose zIndex is at least `minIndex` (`LowerBound`).
  - A region is an object with a fixed `minIndex` and a mark.
  - `Number.MIN_VALUE` as a sentinel is the `MinValue` constructor.
  - `endIndex` is an integer, so an infinite `endIndex` is an integer above every zIndex.
- `extraRegions` as a one-element array. It is modelled as the single region or null.
- LruOrder.MoveToBackIncreasing: the pool keeps no timestamps. The recency order is proved on sequences with a stamp map, not as a field of `BufferManager`.
- BufferManagement.Buffer.PushVert: the `pushVert` argument list of floats is not modelled. It takes the already quantised `Vertex`.
