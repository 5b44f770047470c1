/** Reading accessor data out of a buffer: index elements of 1, 2 or 4 bytes
    widened to uint32, and float attribute streams (kept as opaque 32-bit
    words). Buffer data is little-endian and read contiguously. */
module Decode {
  import opened Util
  import Gltf

  /** The index component types the loader accepts, section 3.6.2 of the
      glTF 2.0 specification. */
  datatype IndexType = UnsignedByte | UnsignedShort | UnsignedInt {
    function Width(): nat {
      match this
      case UnsignedByte => 1
      case UnsignedShort => 2
      case UnsignedInt => 4
    }
  }

  function IndexTypeOf(componentType: int): (r: Option<IndexType>)
    ensures r.Some? <==> componentType in {Gltf.UNSIGNED_BYTE, Gltf.UNSIGNED_SHORT, Gltf.UNSIGNED_INT}
    ensures r == Some(UnsignedByte) <==> componentType == Gltf.UNSIGNED_BYTE
    ensures r == Some(UnsignedShort) <==> componentType == Gltf.UNSIGNED_SHORT
    ensures r == Some(UnsignedInt) <==> componentType == Gltf.UNSIGNED_INT
  {
    if componentType == Gltf.UNSIGNED_BYTE then Some(UnsignedByte)
    else if componentType == Gltf.UNSIGNED_SHORT then Some(UnsignedShort)
    else if componentType == Gltf.UNSIGNED_INT then Some(UnsignedInt)
    else None
  }

  function Pow256(n: nat): (p: nat)
    ensures p >= 1
  {
    if n == 0 then 1 else 256 * Pow256(n - 1)
  }

  /** The unsigned value of little-endian bytes. */
  function LittleEndian(bs: seq<byte>): nat {
    if bs == [] then 0 else bs[0] + 256 * LittleEndian(bs[1..])
  }

  /** The `width` little-endian bytes of `v`. */
  function Encode(v: nat, width: nat): (bs: seq<byte>)
    ensures |bs| == width
  {
    if width == 0 then [] else [v % 256] + Encode(v / 256, width - 1)
  }

  lemma {:induction false} LittleEndianBound(bs: seq<byte>)
    ensures LittleEndian(bs) < Pow256(|bs|)
  {
    if bs != [] {
      LittleEndianBound(bs[1..]);
    }
  }

  lemma {:induction false} DecodeEncode(v: nat, width: nat)
    requires v < Pow256(width)
    ensures |Encode(v, width)| == width
    ensures LittleEndian(Encode(v, width)) == v
  {
    if width > 0 {
      DecodeEncode(v / 256, width - 1);
      assert Encode(v, width)[1..] == Encode(v / 256, width - 1);
    }
  }

  lemma {:induction false} EncodeDecode(bs: seq<byte>)
    ensures Encode(LittleEndian(bs), |bs|) == bs
  {
    if bs != [] {
      EncodeDecode(bs[1..]);
      assert LittleEndian(bs) % 256 == bs[0];
      assert LittleEndian(bs) / 256 == LittleEndian(bs[1..]);
    }
  }

  /** The `k`-th element of width `w` starting at byte `start`. */
  function ElementAt(data: seq<byte>, start: nat, w: nat, k: nat): nat
    requires start + w * (k + 1) <= |data|
  {
    LittleEndian(data[start + w * k .. start + w * k + w])
  }

  /** `count` index elements of type `t` read contiguously from `start`,
      each zero-extended to uint32. */
  function DecodeIndices(data: seq<byte>, start: nat, t: IndexType, count: nat): (r: seq<uint32>)
    requires start + t.Width() * count <= |data|
    ensures |r| == count
    ensures forall k :: 0 <= k < count ==> r[k] as int == ElementAt(data, start, t.Width(), k)
  {
    seq(count, k requires 0 <= k < count => Widen(data, start, t, count, k))
  }

  /** Element k of an index accessor, which always fits in 32 bits. */
  function Widen(data: seq<byte>, start: nat, t: IndexType, count: nat, k: nat): (v: uint32)
    requires start + t.Width() * count <= |data| && k < count
    ensures v as int == ElementAt(data, start, t.Width(), k)
    ensures v as int < Pow256(t.Width())
  {
    MulMonotone(t.Width(), k + 1, count);
    LittleEndianBound(data[start + t.Width() * k .. start + t.Width() * k + t.Width()]);
    assert Pow256(t.Width()) <= 0x1_0000_0000 by {
      assert Pow256(1) == 256;
      assert Pow256(2) == 65536;
      assert Pow256(4) == 0x1_0000_0000;
    }
    ElementAt(data, start, t.Width(), k)
  }

  lemma MulMonotone(w: nat, a: nat, b: nat)
    requires a <= b
    ensures w * a <= w * b
  {
  }

  /** The little-endian encoding of index values at width `w`, packed. */
  function EncodeIndices(vs: seq<uint32>, w: nat): (bs: seq<byte>)
    ensures |bs| == w * |vs|
  {
    if vs == [] then [] else Encode(vs[0], w) + EncodeIndices(vs[1..], w)
  }

  lemma SliceOfConcat<T>(x: seq<T>, y: seq<T>, i: nat, j: nat)
    requires |x| <= i <= j <= |x| + |y|
    ensures (x + y)[i..j] == y[i - |x| .. j - |x|]
  {
  }

  /** Packing distributes over concatenation. */
  lemma {:induction false} EncodeIndicesConcat(xs: seq<uint32>, ys: seq<uint32>, w: nat)
    ensures EncodeIndices(xs + ys, w) == EncodeIndices(xs, w) + EncodeIndices(ys, w)
  {
    if xs == [] {
      assert xs + ys == ys;
    } else {
      assert (xs + ys)[1..] == xs[1..] + ys;
      EncodeIndicesConcat(xs[1..], ys, w);
    }
  }

  /** Element k of a packed index buffer occupies bytes [w*k, w*k+w). */
  lemma EncodeIndicesSlice(vs: seq<uint32>, w: nat, k: nat)
    requires k < |vs|
    ensures w * k + w <= |EncodeIndices(vs, w)|
    ensures EncodeIndices(vs, w)[w * k .. w * k + w] == Encode(vs[k], w)
  {
    var post := vs[k + 1..];
    assert vs == vs[..k] + ([vs[k]] + post);
    EncodeIndicesConcat(vs[..k], [vs[k]] + post, w);
    assert ([vs[k]] + post)[1..] == post;
    var p, e := EncodeIndices(vs[..k], w), Encode(vs[k], w);
    assert |p| == w * k;
    SliceOfConcat(p, e + EncodeIndices(post, w), |p|, |p| + w);
  }

  /** Decoding the packed encoding of a list of indices gives the list back,
      for every index width whose range holds the values. */
  lemma DecodeIndicesRoundTrip(vs: seq<uint32>, t: IndexType)
    requires forall i :: 0 <= i < |vs| ==> vs[i] < Pow256(t.Width())
    ensures |EncodeIndices(vs, t.Width())| == t.Width() * |vs|
    ensures DecodeIndices(EncodeIndices(vs, t.Width()), 0, t, |vs|) == vs
  {
    var r := DecodeIndices(EncodeIndices(vs, t.Width()), 0, t, |vs|);
    forall k | 0 <= k < |vs| ensures r[k] == vs[k] {
      RoundTripAt(vs, t, k);
    }
  }

  /** One element of the round trip: element k of the packed encoding
      reads back as vs[k]. */
  lemma RoundTripAt(vs: seq<uint32>, t: IndexType, k: nat)
    requires forall i :: 0 <= i < |vs| ==> vs[i] < Pow256(t.Width())
    requires k < |vs|
    ensures DecodeIndices(EncodeIndices(vs, t.Width()), 0, t, |vs|)[k] == vs[k]
  {
    var w := t.Width();
    var bs := EncodeIndices(vs, w);
    EncodeIndicesSlice(vs, w, k);
    var a := w * k;
    var element := bs[a .. a + w];
    assert element == Encode(vs[k], w);
    DecodeEncode(vs[k], w);
    assert ElementAt(bs, 0, w, k) == LittleEndian(element);
  }

  /** Index buffers of the same logical content stored as bytes, shorts or
      ints widen to the same uint32 list. */
  lemma WidthsAgree(vs: seq<uint32>)
    requires forall i :: 0 <= i < |vs| ==> vs[i] < 256
    ensures DecodeIndices(EncodeIndices(vs, 1), 0, UnsignedByte, |vs|)
         == DecodeIndices(EncodeIndices(vs, 2), 0, UnsignedShort, |vs|)
         == DecodeIndices(EncodeIndices(vs, 4), 0, UnsignedInt, |vs|)
         == vs
  {
    assert Pow256(1) == 256;
    assert Pow256(4) >= Pow256(2) >= 256;
    DecodeIndicesRoundTrip(vs, UnsignedByte);
    DecodeIndicesRoundTrip(vs, UnsignedShort);
    DecodeIndicesRoundTrip(vs, UnsignedInt);
  }

  /** Unsigned bytes are widened without change of value. */
  lemma BytesWidenUnchanged(data: seq<byte>, start: nat, count: nat, k: nat)
    requires start + count <= |data| && k < count
    ensures DecodeIndices(data, start, UnsignedByte, count)[k] == data[start + k]
  {
    var bs := data[start + k .. start + k + 1];
    assert bs[1..] == [];
    assert LittleEndian(bs) == bs[0];
  }

  /** A 32-bit float, kept as its bit pattern: the loader only moves floats. */
  datatype Word = Word(bits: uint32)

  datatype Vec3 = Vec3(x: Word, y: Word, z: Word)

  datatype Vec2 = Vec2(x: Word, y: Word)

  /** The `j`-th float of the stream that starts at byte `base`. */
  function FloatAt(data: seq<byte>, base: nat, j: nat): Word
    requires base + 4 * j + 4 <= |data|
  {
    LittleEndianBound(data[base + 4 * j .. base + 4 * j + 4]);
    assert Pow256(4) == 0x1_0000_0000;
    Word(LittleEndian(data[base + 4 * j .. base + 4 * j + 4]))
  }

  /** `count` triples: triple k is floats 3k, 3k+1, 3k+2. */
  function Triples(data: seq<byte>, base: nat, count: nat): seq<Vec3>
    requires base + 12 * count <= |data|
  {
    seq(count, k requires 0 <= k < count =>
      Vec3(FloatAt(data, base, 3 * k), FloatAt(data, base, 3 * k + 1), FloatAt(data, base, 3 * k + 2)))
  }

  /** The number of pairs to_glm_vec2 appends for `count` elements: its loop
      runs over floats 0, 2, 4, ... below 3 * count, i.e. ceil(3 * count / 2) times. */
  function PairCount(count: nat): nat {
    (3 * count + 1) / 2
  }

  /** `PairCount(count)` pairs: pair k is floats 2k, 2k+1. */
  function Pairs(data: seq<byte>, base: nat, count: nat): seq<Vec2>
    requires base + 8 * PairCount(count) <= |data|
  {
    seq(PairCount(count), k requires 0 <= k < PairCount(count) =>
      Vec2(FloatAt(data, base, 2 * k), FloatAt(data, base, 2 * k + 1)))
  }

  /** to_glm_vec3: append `size` triples read from byte `base` of `data`. */
  method AppendVec3(data: seq<byte>, base: nat, size: nat, out: seq<Vec3>) returns (res: seq<Vec3>)
    requires base + 12 * size <= |data|
    ensures |res| == |out| + size
    ensures res == out + Triples(data, base, size)
  {
    res := out;
    var i := 0;
    while i < size * 3
      invariant i % 3 == 0 && i <= size * 3
      invariant res == out + Triples(data, base, i / 3)
    {
      assert Triples(data, base, i / 3 + 1) == Triples(data, base, i / 3) + [Vec3(FloatAt(data, base, i), FloatAt(data, base, i + 1), FloatAt(data, base, i + 2))];
      res := res + [Vec3(FloatAt(data, base, i), FloatAt(data, base, i + 1), FloatAt(data, base, i + 2))];
      i := i + 3;
    }
  }

  /** to_glm_vec2 as written: the loop bound is `size * 3` with step 2, so it
      appends ceil(3 * size / 2) pairs, not `size`. */
  method AppendVec2(data: seq<byte>, base: nat, size: nat, out: seq<Vec2>) returns (res: seq<Vec2>)
    requires base + 8 * PairCount(size) <= |data|
    ensures |res| == |out| + PairCount(size)
    ensures res == out + Pairs(data, base, size)
  {
    res := out;
    var i := 0;
    while i < size * 3
      invariant i % 2 == 0 && i <= size * 3 + 1
      invariant i / 2 <= PairCount(size)
      invariant res == out + Pairs(data, base, size)[..i / 2]
    {
      assert Pairs(data, base, size)[..i / 2 + 1] == Pairs(data, base, size)[..i / 2] + [Vec2(FloatAt(data, base, i), FloatAt(data, base, i + 1))];
      res := res + [Vec2(FloatAt(data, base, i), FloatAt(data, base, i + 1))];
      i := i + 2;
    }
    assert i / 2 == PairCount(size);
  }
}
