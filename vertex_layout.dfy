/**
 * The fixed-stride vertex record that `pushVert` writes into a buffer's
 * vertex staging memory (src/webgl/webgl1/BufferManager.js).
 *
 * The source overlays Float32, Int16, Uint16, Int8 and Uint8 views on one
 * ArrayBuffer and stores each attribute through one of them.  Here the
 * record is an explicit encoder/decoder pair over bytes: every field is
 * written little-endian at a fixed byte offset, and a store through a
 * narrow integer view keeps the value modulo 2^width (two's complement for
 * the signed views), which is what Dafny's Euclidean `%` and `/` give.
 *
 * The values a `Vertex` carries are the ones the views receive: the
 * single-precision bit patterns of x and y, and the already rounded
 * quantised integers of the other attributes.
 */
module VertexLayout {

  /** Size of one vertex record in bytes (a multiple of 4). */
  const VERTEX_SIZE_BYTES: nat := 24

  /** Offset of the reserved byte that `pushVert` always clears. */
  const PADDING_OFFSET: nat := 15

  type Byte = x: int | 0 <= x < 256
  type U16 = x: int | 0 <= x < 0x1_0000

  datatype Color = Color(r: int, g: int, b: int, a: int)

  /**
   * One vertex as `pushVert` hands it to the typed-array views.
   * xBits, yBits: IEEE-754 single-precision bit patterns stored at bytes 0-3 and 4-7;
   * refDx, refDy: reference-point offset, signed 16-bit, bytes 8-9 and 10-11;
   * baryUnitLength: unsigned 16-bit, bytes 12-13; baryIndex: unsigned 8-bit, byte 14;
   * radius: unsigned 16-bit, bytes 16-17; nx, ny: signed 8-bit, bytes 18 and 19;
   * color: four unsigned 8-bit channels, bytes 20-23.
   */
  datatype Vertex = Vertex(
    xBits: int, yBits: int,
    refDx: int, refDy: int,
    baryUnitLength: int, baryIndex: int,
    radius: int, nx: int, ny: int,
    color: Color)

  function Pow256(w: nat): (p: nat)
    ensures p > 0
  {
    if w == 0 then 1 else 256 * Pow256(w - 1)
  }

  /** The `w` little-endian bytes a view of width `w` bytes stores for `v`. */
  function LittleEndian(v: int, w: nat): (r: seq<Byte>)
    ensures |r| == w
    decreases w
  {
    if w == 0 then [] else [v % 256] + LittleEndian(v / 256, w - 1)
  }

  /** What an unsigned view reads back from little-endian bytes. */
  function Unsigned(bs: seq<Byte>): nat
  {
    if bs == [] then 0 else bs[0] + 256 * Unsigned(bs[1..])
  }

  /** What a signed (two's complement) view reads back from little-endian bytes. */
  function Signed(bs: seq<Byte>): int
  {
    var u := Unsigned(bs);
    if |bs| > 0 && u >= Pow256(|bs|) / 2 then u - Pow256(|bs|) else u
  }

  // The conversions the typed-array stores apply to an integer value.
  function ToUint8(v: int): int { v % 256 }
  function ToInt8(v: int): int { (v + 0x80) % 0x100 - 0x80 }
  function ToUint16(v: int): U16 { v % 0x1_0000 }
  function ToInt16(v: int): int { (v + 0x8000) % 0x1_0000 - 0x8000 }
  function ToUint32(v: int): int { v % 0x1_0000_0000 }

  /** Values as a Uint16Array holds them after storing each one. */
  function ToUint16s(xs: seq<int>): (r: seq<U16>)
    ensures |r| == |xs|
  {
    seq(|xs|, k requires 0 <= k < |xs| => ToUint16(xs[k]))
  }

  /** The vertex as the views hold it after the stores. */
  function Stored(v: Vertex): Vertex
  {
    Vertex(ToUint32(v.xBits), ToUint32(v.yBits),
           ToInt16(v.refDx), ToInt16(v.refDy),
           ToUint16(v.baryUnitLength), ToUint8(v.baryIndex),
           ToUint16(v.radius), ToInt8(v.nx), ToInt8(v.ny),
           Color(ToUint8(v.color.r), ToUint8(v.color.g), ToUint8(v.color.b), ToUint8(v.color.a)))
  }

  /** Every field already lies in the range of the view it is stored through. */
  predicate InRange(v: Vertex)
  {
    && 0 <= v.xBits < 0x1_0000_0000 && 0 <= v.yBits < 0x1_0000_0000
    && -0x8000 <= v.refDx < 0x8000 && -0x8000 <= v.refDy < 0x8000
    && 0 <= v.baryUnitLength < 0x1_0000 && 0 <= v.baryIndex < 0x100
    && 0 <= v.radius < 0x1_0000 && -0x80 <= v.nx < 0x80 && -0x80 <= v.ny < 0x80
    && 0 <= v.color.r < 0x100 && 0 <= v.color.g < 0x100
    && 0 <= v.color.b < 0x100 && 0 <= v.color.a < 0x100
  }

  /**
   * Byte k of the record for `v`: which field owns it, and which of that
   * field's little-endian bytes it is.
   */
  function RecordByte(v: Vertex, k: nat): Byte
  {
    if k < 4 then LittleEndian(v.xBits, 4)[k]
    else if k < 8 then LittleEndian(v.yBits, 4)[k - 4]
    else if k < 10 then LittleEndian(v.refDx, 2)[k - 8]
    else if k < 12 then LittleEndian(v.refDy, 2)[k - 10]
    else if k < 14 then LittleEndian(v.baryUnitLength, 2)[k - 12]
    else if k == 14 then LittleEndian(v.baryIndex, 1)[0]
    else if k == PADDING_OFFSET then 0
    else if k < 18 then LittleEndian(v.radius, 2)[k - 16]
    else if k == 18 then LittleEndian(v.nx, 1)[0]
    else if k == 19 then LittleEndian(v.ny, 1)[0]
    else if k == 20 then LittleEndian(v.color.r, 1)[0]
    else if k == 21 then LittleEndian(v.color.g, 1)[0]
    else if k == 22 then LittleEndian(v.color.b, 1)[0]
    else LittleEndian(v.color.a, 1)[0]
  }

  /** The 24-byte record `pushVert` writes for one vertex. */
  function EncodeVertex(v: Vertex): (r: seq<Byte>)
    ensures |r| == VERTEX_SIZE_BYTES
    ensures r[PADDING_OFFSET] == 0
  {
    seq(VERTEX_SIZE_BYTES, k requires 0 <= k < VERTEX_SIZE_BYTES => RecordByte(v, k))
  }

  /** Reads a record back through the views, each field at its own offset. */
  function DecodeVertex(r: seq<Byte>): Vertex
    requires |r| == VERTEX_SIZE_BYTES
  {
    Vertex(Unsigned(r[0..4]), Unsigned(r[4..8]),
           Signed(r[8..10]), Signed(r[10..12]),
           Unsigned(r[12..14]), Unsigned(r[14..15]),
           Unsigned(r[16..18]), Signed(r[18..19]), Signed(r[19..20]),
           Color(Unsigned(r[20..21]), Unsigned(r[21..22]), Unsigned(r[22..23]), Unsigned(r[23..24])))
  }

  /** Concatenated records of a run of vertices, vertex k at bytes [24k, 24k+24). */
  function EncodeAll(vs: seq<Vertex>): (r: seq<Byte>)
    ensures |r| == VERTEX_SIZE_BYTES * |vs|
  {
    if vs == [] then [] else EncodeAll(vs[..|vs| - 1]) + EncodeVertex(vs[|vs| - 1])
  }

  /**
   * A typed-array store of `xs` starting at element `at`: elements past the
   * end of the array are silently dropped, as JavaScript typed arrays do.
   */
  function Overwrite<T>(a: seq<T>, at: nat, xs: seq<T>): (r: seq<T>)
    ensures |r| == |a|
  {
    seq(|a|, j requires 0 <= j < |a| => if at <= j < at + |xs| then xs[j - at] else a[j])
  }

  /** A store that fits replaces exactly its own range and nothing else. */
  lemma OverwriteInBounds<T>(a: seq<T>, at: nat, xs: seq<T>)
    requires at + |xs| <= |a|
    ensures Overwrite(a, at, xs) == a[..at] + xs + a[at + |xs|..]
  {
  }

  /** After a store that fits, the array up to its end is the old prefix followed by the stored run. */
  lemma OverwritePrefix<T>(a: seq<T>, at: nat, xs: seq<T>)
    requires at + |xs| <= |a|
    ensures Overwrite(a, at, xs)[..at + |xs|] == a[..at] + xs
  {
  }

  /** A store that starts past the end changes nothing. */
  lemma OverwriteOutOfBounds<T>(a: seq<T>, at: nat, xs: seq<T>)
    requires at >= |a|
    ensures Overwrite(a, at, xs) == a
  {
  }

  /** Two adjacent stores are one store of the concatenation. */
  lemma OverwriteAdjacent<T>(a: seq<T>, at: nat, xs: seq<T>, ys: seq<T>)
    ensures Overwrite(Overwrite(a, at, xs), at + |xs|, ys) == Overwrite(a, at, xs + ys)
  {
  }

  /** The records of two runs, one after the other. */
  lemma {:induction false} EncodeAllConcat(xs: seq<Vertex>, ys: seq<Vertex>)
    ensures EncodeAll(xs + ys) == EncodeAll(xs) + EncodeAll(ys)
    decreases |ys|
  {
    if ys != [] {
      var zs := xs + ys;
      var init, last := ys[..|ys| - 1], ys[|ys| - 1];
      assert zs[..|zs| - 1] == xs + init;
      assert zs[|zs| - 1] == last;
      assert EncodeAll(zs) == EncodeAll(zs[..|zs| - 1]) + EncodeVertex(zs[|zs| - 1]);
      assert EncodeAll(ys) == EncodeAll(init) + EncodeVertex(last);
      EncodeAllConcat(xs, init);
    } else {
      assert xs + ys == xs;
    }
  }

  /** One byte split off the bottom: the step of `UnsignedOfLittleEndian` for each width. */
  lemma ModStep(v: int, p: nat)
    requires p == 1 || p == 0x100 || p == 0x1_0000 || p == 0x100_0000
    ensures v % 256 + 256 * ((v / 256) % p) == v % (256 * p)
  {
    var q := v / 256;
    if p != 1 {
      var r := v % 256 + 256 * (q % p);
      assert v == 256 * p * (q / p) + r;
      ModUnique(v, 256 * p, q / p, r);
    }
  }

  /** The remainder is the one `r` with `v == m * d + r` and `0 <= r < m`. */
  lemma ModUnique(v: int, m: nat, d: int, r: int)
    requires 0 < m && v == m * d + r && 0 <= r < m
    ensures v % m == r
  {
    var d0, r0 := v / m, v % m;
    assert m * (d - d0) == r0 - r;
    if d > d0 {
      MulAtLeast(m, d - d0);
    } else if d < d0 {
      MulAtLeast(m, d0 - d);
    }
  }

  lemma {:induction false} MulAtLeast(m: nat, k: int)
    requires 1 <= k
    ensures m * k >= m
    decreases k
  {
    if k > 1 {
      MulAtLeast(m, k - 1);
      assert m * k == m * (k - 1) + m;
    }
  }

  lemma {:induction false} UnsignedOfLittleEndian(v: int, w: nat)
    requires w <= 4
    ensures Unsigned(LittleEndian(v, w)) == v % Pow256(w)
    decreases w
  {
    if w > 0 {
      UnsignedOfLittleEndian(v / 256, w - 1);
      var bs := LittleEndian(v, w);
      assert bs[1..] == LittleEndian(v / 256, w - 1);
      assert Unsigned(bs) == v % 256 + 256 * ((v / 256) % Pow256(w - 1));
      assert Pow256(0) == 1 && Pow256(1) == 0x100 && Pow256(2) == 0x1_0000 && Pow256(3) == 0x100_0000;
      ModStep(v, Pow256(w - 1));
    }
  }

  lemma {:induction false} LittleEndianOfUnsigned(bs: seq<Byte>)
    ensures LittleEndian(Unsigned(bs), |bs|) == bs
  {
    if bs != [] {
      LittleEndianOfUnsigned(bs[1..]);
      assert bs == [bs[0]] + bs[1..];
    }
  }

  /** Adding a multiple of 256^w does not change the w stored bytes. */
  lemma {:induction false} LittleEndianShift(v: int, k: int, w: nat)
    ensures LittleEndian(v + k * Pow256(w), w) == LittleEndian(v, w)
    decreases w
  {
    if w > 0 {
      var p := Pow256(w - 1);
      assert k * Pow256(w) == 256 * (k * p);
      assert (v + 256 * (k * p)) / 256 == v / 256 + k * p;
      LittleEndianShift(v / 256, k, w - 1);
    }
  }

  lemma {:induction false} LittleEndianOfSigned(bs: seq<Byte>)
    ensures LittleEndian(Signed(bs), |bs|) == bs
  {
    var u: int, m: int := Unsigned(bs), Pow256(|bs|);
    LittleEndianOfUnsigned(bs);
    assert LittleEndian(u, |bs|) == bs;
    if |bs| > 0 && u >= m / 2 {
      LittleEndianShift(u, -1, |bs|);
      assert Signed(bs) == u + -1 * m;
    }
  }

  /** The bytes of each field sit at the offsets `DecodeVertex` reads them from. */
  lemma EncodeSlices(v: Vertex)
    ensures var r := EncodeVertex(v);
      && r[0..4] == LittleEndian(v.xBits, 4) && r[4..8] == LittleEndian(v.yBits, 4)
      && r[8..10] == LittleEndian(v.refDx, 2) && r[10..12] == LittleEndian(v.refDy, 2)
      && r[12..14] == LittleEndian(v.baryUnitLength, 2) && r[14..15] == LittleEndian(v.baryIndex, 1)
      && r[16..18] == LittleEndian(v.radius, 2)
      && r[18..19] == LittleEndian(v.nx, 1) && r[19..20] == LittleEndian(v.ny, 1)
      && r[20..21] == LittleEndian(v.color.r, 1) && r[21..22] == LittleEndian(v.color.g, 1)
      && r[22..23] == LittleEndian(v.color.b, 1) && r[23..24] == LittleEndian(v.color.a, 1)
  {
  }

  lemma UnsignedField(v: int, w: nat)
    requires w == 1 || w == 2 || w == 4
    ensures Unsigned(LittleEndian(v, w)) ==
      if w == 1 then ToUint8(v) else if w == 2 then ToUint16(v) else ToUint32(v)
  {
    UnsignedOfLittleEndian(v, w);
    assert Pow256(1) == 0x100 && Pow256(2) == 0x1_0000 && Pow256(4) == 0x1_0000_0000;
  }

  lemma SignedField(v: int, w: nat)
    requires w == 1 || w == 2
    ensures Signed(LittleEndian(v, w)) == if w == 1 then ToInt8(v) else ToInt16(v)
  {
    UnsignedOfLittleEndian(v, w);
    var m := if w == 1 then 0x100 else 0x1_0000;
    assert Pow256(w) == m by {
      assert Pow256(1) == 0x100 && Pow256(2) == 0x1_0000;
    }
    TwosComplement(v, m);
  }

  /** Reading the remainder as two's complement is the signed wrap-around. */
  lemma TwosComplement(v: int, m: nat)
    requires m == 0x100 || m == 0x1_0000
    ensures (if v % m >= m / 2 then v % m - m else v % m) == (v + m / 2) % m - m / 2
  {
    var d, u, h := v / m, v % m, m / 2;
    if u >= h {
      ModUnique(v + h, m, d + 1, u + h - m);
    } else {
      ModUnique(v + h, m, d, u + h);
    }
  }

  /**
   * Reading a record back gives every field as its view stored it, and a
   * vertex whose fields are in range comes back unchanged.
   */
  lemma DecodeEncode(v: Vertex)
    ensures DecodeVertex(EncodeVertex(v)) == Stored(v)
    ensures InRange(v) ==> DecodeVertex(EncodeVertex(v)) == v
  {
    var r := EncodeVertex(v);
    EncodeSlices(v);
    UnsignedField(v.xBits, 4);
    UnsignedField(v.yBits, 4);
    SignedField(v.refDx, 2);
    SignedField(v.refDy, 2);
    UnsignedField(v.baryUnitLength, 2);
    UnsignedField(v.baryIndex, 1);
    UnsignedField(v.radius, 2);
    SignedField(v.nx, 1);
    SignedField(v.ny, 1);
    UnsignedField(v.color.r, 1);
    UnsignedField(v.color.g, 1);
    UnsignedField(v.color.b, 1);
    UnsignedField(v.color.a, 1);
    var d := DecodeVertex(r);
    assert d.xBits == ToUint32(v.xBits) && d.yBits == ToUint32(v.yBits);
    assert d.refDx == ToInt16(v.refDx) && d.refDy == ToInt16(v.refDy);
    assert d.baryUnitLength == ToUint16(v.baryUnitLength) && d.baryIndex == ToUint8(v.baryIndex);
    assert d.radius == ToUint16(v.radius) && d.nx == ToInt8(v.nx) && d.ny == ToInt8(v.ny);
    assert d.color == Stored(v).color;
    if InRange(v) {
      StoredInRange(v);
    }
  }

  lemma StoredInRange(v: Vertex)
    requires InRange(v)
    ensures Stored(v) == v
  {
    assert Stored(v).color == v.color;
  }

  /** Storing each decoded field again gives back that field's bytes. */
  lemma DecodedFieldBytes(r: seq<Byte>)
    requires |r| == VERTEX_SIZE_BYTES
    ensures var d := DecodeVertex(r);
      && LittleEndian(d.xBits, 4) == r[0..4] && LittleEndian(d.yBits, 4) == r[4..8]
      && LittleEndian(d.refDx, 2) == r[8..10] && LittleEndian(d.refDy, 2) == r[10..12]
      && LittleEndian(d.baryUnitLength, 2) == r[12..14] && LittleEndian(d.baryIndex, 1) == r[14..15]
      && LittleEndian(d.radius, 2) == r[16..18]
      && LittleEndian(d.nx, 1) == r[18..19] && LittleEndian(d.ny, 1) == r[19..20]
      && LittleEndian(d.color.r, 1) == r[20..21] && LittleEndian(d.color.g, 1) == r[21..22]
      && LittleEndian(d.color.b, 1) == r[22..23] && LittleEndian(d.color.a, 1) == r[23..24]
  {
    LittleEndianOfUnsigned(r[0..4]);
    LittleEndianOfUnsigned(r[4..8]);
    LittleEndianOfSigned(r[8..10]);
    LittleEndianOfSigned(r[10..12]);
    LittleEndianOfUnsigned(r[12..14]);
    LittleEndianOfUnsigned(r[14..15]);
    LittleEndianOfUnsigned(r[16..18]);
    LittleEndianOfSigned(r[18..19]);
    LittleEndianOfSigned(r[19..20]);
    LittleEndianOfUnsigned(r[20..21]);
    LittleEndianOfUnsigned(r[21..22]);
    LittleEndianOfUnsigned(r[22..23]);
    LittleEndianOfUnsigned(r[23..24]);
  }

  /** Every record whose padding byte is clear is the encoding of the vertex it decodes to. */
  lemma EncodeDecode(r: seq<Byte>)
    requires |r| == VERTEX_SIZE_BYTES && r[PADDING_OFFSET] == 0
    ensures EncodeVertex(DecodeVertex(r)) == r
  {
    var d := DecodeVertex(r);
    DecodedFieldBytes(r);
    forall k | 0 <= k < VERTEX_SIZE_BYTES
      ensures RecordByte(d, k) == r[k]
    {
    }
  }

  /** Record k of a run is the encoding of vertex k. */
  lemma {:induction false} RecordSlice(vs: seq<Vertex>, k: nat)
    requires k < |vs|
    ensures EncodeAll(vs)[VERTEX_SIZE_BYTES * k .. VERTEX_SIZE_BYTES * (k + 1)] == EncodeVertex(vs[k])
  {
    var init := vs[..|vs| - 1];
    var front, last := EncodeAll(init), EncodeVertex(vs[|vs| - 1]);
    assert EncodeAll(vs) == front + last;
    SliceOfConcat(front, last, 24 * k, 24 * (k + 1));
    if k < |vs| - 1 {
      RecordSlice(init, k);
      assert init[k] == vs[k];
    }
  }

  lemma SliceOfConcat<T>(a: seq<T>, b: seq<T>, lo: nat, hi: nat)
    requires lo <= hi <= |a| + |b|
    ensures hi <= |a| ==> (a + b)[lo..hi] == a[lo..hi]
    ensures lo == |a| ==> (a + b)[lo..hi] == b[..hi - lo]
  {
  }

  /** Record k of a run reads back as vertex k, as the views stored it. */
  lemma RecordAt(vs: seq<Vertex>, k: nat)
    requires k < |vs|
    ensures DecodeVertex(EncodeAll(vs)[VERTEX_SIZE_BYTES * k .. VERTEX_SIZE_BYTES * (k + 1)]) == Stored(vs[k])
  {
    RecordSlice(vs, k);
    DecodeEncode(vs[k]);
  }
}
