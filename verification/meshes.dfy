/** load_glb_meshes: every source mesh becomes one Primitive record whose
    geometry is the concatenation, over the mesh's glTF primitives in order,
    of their POSITION, NORMAL and TEXCOORD_0 streams and their widened
    index lists. */
module Meshes {
  import opened Util
  import Gltf
  import opened Decode
  import opened Models

  /** The data of one mesh, as handed to the GL buffers. */
  datatype Geometry = Geometry(positions: seq<Vec3>, normals: seq<Vec3>, texCoords: seq<Vec2>, indices: seq<uint32>)

  const NoGeometry: Geometry := Geometry([], [], [], [])

  function Append(g: Geometry, h: Geometry): Geometry {
    Geometry(g.positions + h.positions, g.normals + h.normals, g.texCoords + h.texCoords, g.indices + h.indices)
  }

  // What the loader reads without checking: accessor, buffer view and
  // buffer indices in range, and enough bytes behind each read.

  predicate Vec3Readable(doc: Gltf.Document, a: int) {
    Gltf.AccessorResolves(doc, a) &&
    Gltf.Start(doc, a) + 12 * doc.accessors[a].count <= |Gltf.BufferOf(doc, a)|
  }

  predicate Vec2Readable(doc: Gltf.Document, a: int) {
    Gltf.AccessorResolves(doc, a) &&
    Gltf.Start(doc, a) + 8 * PairCount(doc.accessors[a].count) <= |Gltf.BufferOf(doc, a)|
  }

  predicate IndicesReadable(doc: Gltf.Document, a: int) {
    Gltf.AccessorResolves(doc, a) &&
    match IndexTypeOf(doc.accessors[a].componentType)
    case Some(t) => Gltf.Start(doc, a) + t.Width() * doc.accessors[a].count <= |Gltf.BufferOf(doc, a)|
    case None => true
  }

  predicate PrimitiveReadable(doc: Gltf.Document, p: Gltf.Primitive) {
    ("POSITION" in p.attributes ==> Vec3Readable(doc, p.attributes["POSITION"])) &&
    ("NORMAL" in p.attributes ==> Vec3Readable(doc, p.attributes["NORMAL"])) &&
    ("TEXCOORD_0" in p.attributes ==> Vec2Readable(doc, p.attributes["TEXCOORD_0"])) &&
    (p.indices >= 0 ==> IndicesReadable(doc, p.indices))
  }

  predicate PrimitivesReadable(doc: Gltf.Document, prims: seq<Gltf.Primitive>) {
    forall j :: 0 <= j < |prims| ==> PrimitiveReadable(doc, prims[j])
  }

  predicate MeshesReadable(doc: Gltf.Document) {
    forall i :: 0 <= i < |doc.meshes| ==> PrimitivesReadable(doc, doc.meshes[i].primitives)
  }

  /** The 3-component stream of attribute `semantic`, empty when absent. */
  function Vec3Stream(doc: Gltf.Document, p: Gltf.Primitive, semantic: string): seq<Vec3>
    requires semantic in p.attributes ==> Vec3Readable(doc, p.attributes[semantic])
  {
    if semantic in p.attributes then
      var a := p.attributes[semantic];
      Triples(Gltf.BufferOf(doc, a), Gltf.Start(doc, a), doc.accessors[a].count)
    else []
  }

  function TexCoordStream(doc: Gltf.Document, p: Gltf.Primitive): seq<Vec2>
    requires PrimitiveReadable(doc, p)
  {
    if "TEXCOORD_0" in p.attributes then
      var a := p.attributes["TEXCOORD_0"];
      Pairs(Gltf.BufferOf(doc, a), Gltf.Start(doc, a), doc.accessors[a].count)
    else []
  }

  /** The widened indices of a primitive: none when it has no index accessor,
      a failure when the component type is not one of the three supported. */
  function PrimitiveIndices(doc: Gltf.Document, p: Gltf.Primitive): Option<seq<uint32>>
    requires PrimitiveReadable(doc, p)
  {
    if p.indices < 0 then Some([])
    else match IndexTypeOf(doc.accessors[p.indices].componentType)
      case None => None
      case Some(t) =>
        Some(DecodeIndices(Gltf.BufferOf(doc, p.indices), Gltf.Start(doc, p.indices), t, doc.accessors[p.indices].count))
  }

  function PrimitiveGeometry(doc: Gltf.Document, p: Gltf.Primitive): Option<Geometry>
    requires PrimitiveReadable(doc, p)
  {
    match PrimitiveIndices(doc, p)
    case None => None
    case Some(ix) => Some(Geometry(Vec3Stream(doc, p, "POSITION"), Vec3Stream(doc, p, "NORMAL"), TexCoordStream(doc, p), ix))
  }

  /** The merged geometry of a mesh's primitives, or None when one of them
      has an unsupported index type. */
  function MeshGeometry(doc: Gltf.Document, prims: seq<Gltf.Primitive>): Option<Geometry>
    requires PrimitivesReadable(doc, prims)
  {
    if prims == [] then Some(NoGeometry)
    else match MeshGeometry(doc, prims[..|prims| - 1])
      case None => None
      case Some(g) =>
        match PrimitiveGeometry(doc, prims[|prims| - 1])
        case None => None
        case Some(h) => Some(Append(g, h))
  }

  /** The number of indices a primitive's accessor declares (0 without one). */
  function IndexCountOf(doc: Gltf.Document, p: Gltf.Primitive): nat
    requires PrimitiveReadable(doc, p)
  {
    if p.indices < 0 then 0 else doc.accessors[p.indices].count
  }

  /** The sum of the index-accessor counts of a mesh's primitives. */
  function IndexCount(doc: Gltf.Document, prims: seq<Gltf.Primitive>): nat
    requires PrimitivesReadable(doc, prims)
  {
    if prims == [] then 0 else IndexCount(doc, prims[..|prims| - 1]) + IndexCountOf(doc, prims[|prims| - 1])
  }

  predicate Unsupported(doc: Gltf.Document, p: Gltf.Primitive)
    requires PrimitiveReadable(doc, p)
  {
    p.indices >= 0 && IndexTypeOf(doc.accessors[p.indices].componentType).None?
  }

  /** The merged geometry of source mesh i. */
  function GeometryOfMesh(doc: Gltf.Document, i: nat): Option<Geometry>
    requires MeshesReadable(doc) && i < |doc.meshes|
  {
    MeshGeometry(doc, doc.meshes[i].primitives)
  }

  /** The first mesh, from `from` on, that fails to load (the mesh count when
      none does): all meshes from `from` up to it load. */
  function FirstFailureFrom(doc: Gltf.Document, from: nat): (k: nat)
    requires MeshesReadable(doc) && from <= |doc.meshes|
    ensures from <= k <= |doc.meshes|
    ensures forall j :: from <= j < k ==> GeometryOfMesh(doc, j).Some?
    ensures k < |doc.meshes| ==> GeometryOfMesh(doc, k).None?
    decreases |doc.meshes| - from
  {
    if from == |doc.meshes| then from
    else if GeometryOfMesh(doc, from).None? then from
    else FirstFailureFrom(doc, from + 1)
  }

  /** The number of leading meshes that load. */
  function LoadedCount(doc: Gltf.Document): (k: nat)
    requires MeshesReadable(doc)
    ensures k <= |doc.meshes|
  {
    FirstFailureFrom(doc, 0)
  }

  /** Every mesh loads. */
  predicate AllMeshesLoad(doc: Gltf.Document)
    requires MeshesReadable(doc)
  {
    LoadedCount(doc) == |doc.meshes|
  }

  /** The record of a mesh once its buffers are filled: offset 0 (the running
      offset is reset for every mesh), count the number of indices truncated
      to uint32. Material index and transform are left as they were. */
  function Loaded(p: Primitive, g: Geometry): Primitive {
    p.(offset := 0, count := ToUint32(|g.indices|),
       positions := g.positions, normals := g.normals, texCoords := g.texCoords, indices := g.indices)
  }

  /** The model after load_glb_meshes: resized to the mesh count; every mesh
      before the first failing one loaded, that one and all after it as the
      resize left them. */
  function Flattened(m: Model, doc: Gltf.Document): Model
    requires MeshesReadable(doc)
  {
    var n := |doc.meshes|;
    var resized := Resize(m.meshes, n);
    m.(meshes := seq(n, j requires 0 <= j < n =>
      if j < LoadedCount(doc) then Loaded(resized[j], GeometryOfMesh(doc, j).value)
      else resized[j]))
  }

  /** Lines 113-119 and 121-127: append a 3-component attribute when present. */
  method ReadVec3Attribute(doc: Gltf.Document, p: Gltf.Primitive, semantic: string, out: seq<Vec3>) returns (res: seq<Vec3>)
    requires semantic in p.attributes ==> Vec3Readable(doc, p.attributes[semantic])
    ensures res == out + Vec3Stream(doc, p, semantic)
  {
    res := out;
    if semantic in p.attributes {
      var acc := doc.accessors[p.attributes[semantic]];
      var bv := doc.bufferViews[acc.bufferView];
      var buffer := doc.buffers[bv.buffer];
      res := AppendVec3(buffer.data, bv.byteOffset + acc.byteOffset, acc.count, res);
    }
  }

  /** Lines 129-135: append the texture coordinates when present. */
  method ReadTexCoords(doc: Gltf.Document, p: Gltf.Primitive, out: seq<Vec2>) returns (res: seq<Vec2>)
    requires PrimitiveReadable(doc, p)
    ensures res == out + TexCoordStream(doc, p)
  {
    res := out;
    if "TEXCOORD_0" in p.attributes {
      var acc := doc.accessors[p.attributes["TEXCOORD_0"]];
      var bv := doc.bufferViews[acc.bufferView];
      var buffer := doc.buffers[bv.buffer];
      res := AppendVec2(buffer.data, bv.byteOffset + acc.byteOffset, acc.count, res);
    }
  }

  /** Lines 138-163: append the widened indices, failing on an unsupported
      component type. */
  method ReadIndices(doc: Gltf.Document, p: Gltf.Primitive, out: seq<uint32>) returns (ok: bool, res: seq<uint32>)
    requires PrimitiveReadable(doc, p)
    ensures ok == PrimitiveIndices(doc, p).Some?
    ensures ok ==> res == out + PrimitiveIndices(doc, p).value
  {
    res := out;
    if p.indices >= 0 {
      var acc := doc.accessors[p.indices];
      var bv := doc.bufferViews[acc.bufferView];
      var buffer := doc.buffers[bv.buffer];
      var start := bv.byteOffset + acc.byteOffset;
      if acc.componentType == Gltf.UNSIGNED_BYTE {
        res := res + DecodeIndices(buffer.data, start, UnsignedByte, acc.count);
      } else if acc.componentType == Gltf.UNSIGNED_SHORT {
        res := res + DecodeIndices(buffer.data, start, UnsignedShort, acc.count);
      } else if acc.componentType == Gltf.UNSIGNED_INT {
        res := res + DecodeIndices(buffer.data, start, UnsignedInt, acc.count);
      } else {
        return false, res;
      }
    }
    ok := true;
  }

  /** One iteration of the primitive loop (lines 113-163). */
  method FlattenPrimitive(doc: Gltf.Document, p: Gltf.Primitive, g: Geometry) returns (ok: bool, g': Geometry)
    requires PrimitiveReadable(doc, p)
    ensures ok == PrimitiveGeometry(doc, p).Some?
    ensures g' == if ok then Append(g, PrimitiveGeometry(doc, p).value) else g
  {
    var positions := ReadVec3Attribute(doc, p, "POSITION", g.positions);
    var normals := ReadVec3Attribute(doc, p, "NORMAL", g.normals);
    var texCoords := ReadTexCoords(doc, p, g.texCoords);
    var indices;
    ok, indices := ReadIndices(doc, p, g.indices);
    if !ok {
      return false, g;
    }
    g' := Geometry(positions, normals, texCoords, indices);
  }

  /** Once a prefix of the primitives fails, the whole mesh fails. */
  lemma {:induction false} FailurePersists(doc: Gltf.Document, prims: seq<Gltf.Primitive>, j: nat)
    requires PrimitivesReadable(doc, prims) && j <= |prims|
    requires MeshGeometry(doc, prims[..j]).None?
    ensures MeshGeometry(doc, prims).None?
  {
    if j < |prims| {
      assert prims[..|prims| - 1][..j] == prims[..j];
      FailurePersists(doc, prims[..|prims| - 1], j);
    } else {
      assert prims[..j] == prims;
    }
  }

  /** The primitive loop of one mesh. */
  method FlattenMesh(doc: Gltf.Document, mesh: Gltf.Mesh) returns (ok: bool, g: Geometry)
    requires PrimitivesReadable(doc, mesh.primitives)
    ensures ok == MeshGeometry(doc, mesh.primitives).Some?
    ensures ok ==> g == MeshGeometry(doc, mesh.primitives).value
  {
    var prims := mesh.primitives;
    g := NoGeometry;
    var j := 0;
    while j < |prims|
      invariant j <= |prims|
      invariant MeshGeometry(doc, prims[..j]) == Some(g)
    {
      assert prims[..j + 1][..j] == prims[..j];
      var okPrimitive;
      okPrimitive, g := FlattenPrimitive(doc, prims[j], g);
      if !okPrimitive {
        FailurePersists(doc, prims, j + 1);
        return false, g;
      }
      j := j + 1;
    }
    assert prims[..j] == prims;
    ok := true;
  }

  /** load_glb_meshes (GL buffer creation aside): resize the model's records
      to the mesh count, then fill them mesh by mesh; an unsupported index
      type stops the loop and fails, leaving the records filled so far. */
  method LoadGlbMeshes(m: Model, doc: Gltf.Document) returns (ok: bool, m': Model)
    requires MeshesReadable(doc)
    ensures ok == AllMeshesLoad(doc)
    ensures m' == Flattened(m, doc)
  {
    var n := |doc.meshes|;
    var meshes := Resize(m.meshes, n);
    ghost var resized := meshes;
    var i := 0;
    while i < n
      invariant i <= LoadedCount(doc) && |meshes| == n
      invariant forall j :: 0 <= j < n ==>
        meshes[j] == if j < i then Loaded(resized[j], GeometryOfMesh(doc, j).value) else resized[j]
    {
      // Declared inside the loop as in the source, so each record stores 0;
      // the update after the record is never read.
      var indexOffset: uint32 := 0;
      var okMesh, g := FlattenMesh(doc, doc.meshes[i]);
      if !okMesh {
        assert GeometryOfMesh(doc, i).None?;
        assert LoadedCount(doc) == i;
        m' := m.(meshes := meshes);
        return false, m';
      }
      meshes := meshes[i := meshes[i].(offset := indexOffset, count := ToUint32(|g.indices|),
                                       positions := g.positions, normals := g.normals,
                                       texCoords := g.texCoords, indices := g.indices)];
      indexOffset := ToUint32(indexOffset + |g.indices|);
      i := i + 1;
    }
    m' := m.(meshes := meshes);
    ok := true;
  }

  /** The number of elements an attribute accessor declares (0 when absent). */
  function AttributeCount(doc: Gltf.Document, p: Gltf.Primitive, semantic: string): nat
    requires semantic in p.attributes ==> Gltf.AccessorResolves(doc, p.attributes[semantic])
  {
    if semantic in p.attributes then doc.accessors[p.attributes[semantic]].count else 0
  }

  function VertexCount(doc: Gltf.Document, prims: seq<Gltf.Primitive>): nat
    requires PrimitivesReadable(doc, prims)
  {
    if prims == [] then 0 else VertexCount(doc, prims[..|prims| - 1]) + AttributeCount(doc, prims[|prims| - 1], "POSITION")
  }

  function NormalCount(doc: Gltf.Document, prims: seq<Gltf.Primitive>): nat
    requires PrimitivesReadable(doc, prims)
  {
    if prims == [] then 0 else NormalCount(doc, prims[..|prims| - 1]) + AttributeCount(doc, prims[|prims| - 1], "NORMAL")
  }

  /** What to_glm_vec2 produces per primitive: PairCount of the accessor count. */
  function TexCoordCount(doc: Gltf.Document, prims: seq<Gltf.Primitive>): nat
    requires PrimitivesReadable(doc, prims)
  {
    if prims == [] then 0
    else TexCoordCount(doc, prims[..|prims| - 1]) + PairCount(AttributeCount(doc, prims[|prims| - 1], "TEXCOORD_0"))
  }

  /** A merged mesh holds, summed over its primitives, `count` positions and
      normals per accessor, ceil(3 * count / 2) texture coordinates per
      TEXCOORD_0 accessor, and `count` indices per index accessor. */
  lemma {:induction false} GeometrySizes(doc: Gltf.Document, prims: seq<Gltf.Primitive>)
    requires PrimitivesReadable(doc, prims) && MeshGeometry(doc, prims).Some?
    ensures |MeshGeometry(doc, prims).value.positions| == VertexCount(doc, prims)
    ensures |MeshGeometry(doc, prims).value.normals| == NormalCount(doc, prims)
    ensures |MeshGeometry(doc, prims).value.texCoords| == TexCoordCount(doc, prims)
    ensures |MeshGeometry(doc, prims).value.indices| == IndexCount(doc, prims)
  {
    if prims != [] {
      GeometrySizes(doc, prims[..|prims| - 1]);
    }
  }

  /** A mesh fails exactly when one of its primitives has an index accessor
      of an unsupported component type. */
  lemma {:induction false} MeshFailsIffUnsupported(doc: Gltf.Document, prims: seq<Gltf.Primitive>)
    requires PrimitivesReadable(doc, prims)
    ensures MeshGeometry(doc, prims).None? <==> exists j :: 0 <= j < |prims| && Unsupported(doc, prims[j])
  {
    if prims != [] {
      var init, last := prims[..|prims| - 1], prims[|prims| - 1];
      MeshFailsIffUnsupported(doc, init);
      if exists j :: 0 <= j < |init| && Unsupported(doc, init[j]) {
        var j :| 0 <= j < |init| && Unsupported(doc, init[j]);
        assert prims[j] == init[j];
      }
      if exists j :: 0 <= j < |prims| && Unsupported(doc, prims[j]) {
        var j :| 0 <= j < |prims| && Unsupported(doc, prims[j]);
        if j < |init| {
          assert init[j] == prims[j];
        }
      }
    }
  }

  /** Every loaded record has offset 0 and as count the sum of its
      primitives' index counts, truncated to 32 bits. */
  lemma LoadedRecord(m: Model, doc: Gltf.Document, j: nat)
    requires MeshesReadable(doc) && j < LoadedCount(doc)
    ensures |Flattened(m, doc).meshes| == |doc.meshes|
    ensures Flattened(m, doc).meshes[j].offset == 0
    ensures Flattened(m, doc).meshes[j].count == ToUint32(IndexCount(doc, doc.meshes[j].primitives))
    ensures IndexCount(doc, doc.meshes[j].primitives) < 0x1_0000_0000 ==>
              Flattened(m, doc).meshes[j].count == IndexCount(doc, doc.meshes[j].primitives)
  {
    assert GeometryOfMesh(doc, j).Some?;
    GeometrySizes(doc, doc.meshes[j].primitives);
  }

  /** On a fresh model, the meshes from the failing one on keep the default
      record: offset 0, count 0, no material, identity transform. */
  lemma FailedMeshesKeepDefaults(doc: Gltf.Document, j: nat)
    requires MeshesReadable(doc) && LoadedCount(doc) <= j < |doc.meshes|
    ensures Flattened(EmptyModel, doc).meshes[j] == DefaultPrimitive
  {
  }

  /** Indices are appended as read: those of a second primitive are not
      shifted by the number of vertices the first one contributed. */
  lemma IndicesNotRebased(doc: Gltf.Document, p: Gltf.Primitive, q: Gltf.Primitive)
    requires PrimitiveReadable(doc, p) && PrimitiveReadable(doc, q)
    requires PrimitiveGeometry(doc, p).Some? && PrimitiveGeometry(doc, q).Some?
    ensures MeshGeometry(doc, [p, q]).Some?
    ensures MeshGeometry(doc, [p, q]).value.positions == Vec3Stream(doc, p, "POSITION") + Vec3Stream(doc, q, "POSITION")
    ensures MeshGeometry(doc, [p, q]).value.indices == PrimitiveIndices(doc, p).value + PrimitiveIndices(doc, q).value
  {
    var gp, gq := PrimitiveGeometry(doc, p).value, PrimitiveGeometry(doc, q).value;
    assert [p][..0] == [];
    assert Append(NoGeometry, gp) == gp;
    assert MeshGeometry(doc, [p]) == Some(gp);
    assert [p, q][..1] == [p];
    assert MeshGeometry(doc, [p, q]) == Some(Append(gp, gq));
  }

  /** As written, a primitive whose POSITION and TEXCOORD_0 accessors both
      hold n >= 1 elements yields more texture coordinates than vertices. */
  lemma TexCoordsOutnumberVertices(doc: Gltf.Document, p: Gltf.Primitive)
    requires PrimitiveReadable(doc, p) && PrimitiveGeometry(doc, p).Some?
    requires "POSITION" in p.attributes && "TEXCOORD_0" in p.attributes
    requires doc.accessors[p.attributes["POSITION"]].count == doc.accessors[p.attributes["TEXCOORD_0"]].count >= 1
    ensures MeshGeometry(doc, [p]).Some?
    ensures |MeshGeometry(doc, [p]).value.texCoords| > |MeshGeometry(doc, [p]).value.positions|
  {
    assert [p][..0] == [];
  }
}
