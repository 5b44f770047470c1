/** The records of include/asset_manager.hpp: a loaded model and its
    per-mesh primitives, the vertex attribute locations and the file formats. */
module Models {
  import opened Util
  import opened Matrix
  import opened Decode

  const POSITION_LOCATION: uint32 := 0
  const NORMAL_LOCATION: uint32 := 1
  const TEX_COORD_LOCATION: uint32 := 2

  datatype FileFormat = GLB | GLTF

  /** `Model::Primitive`, one per source mesh. The GL vertex array and buffer
      objects (VAO, VBO_pos, VBO_norm, VBO_tc, EBO) are represented by the
      data uploaded into them: positions, normals, texture coordinates and
      the uint32 index list; (offset, count) is the index sub-range to draw. */
  datatype Primitive = Primitive(
    matIdx: int32,
    modelMatrix: Mat4,
    offset: uint32,
    count: uint32,
    positions: seq<Vec3>,
    normals: seq<Vec3>,
    texCoords: seq<Vec2>,
    indices: seq<uint32>)

  /** `Model::Primitive{}`: no material, identity transform, empty range. */
  const DefaultPrimitive: Primitive := Primitive(-1, Identity, 0, 0, [], [], [], [])

  /** `Model`: the ordered primitives and a name (which the loader never sets). */
  datatype Model = Model(meshes: seq<Primitive>, name: string)

  const EmptyModel: Model := Model([], "")

  /** std::vector::resize: keep the first n elements, pad with defaults. */
  function Resize(ps: seq<Primitive>, n: nat): (r: seq<Primitive>)
    ensures |r| == n
    ensures forall i :: 0 <= i < n ==> r[i] == if i < |ps| then ps[i] else DefaultPrimitive
  {
    if n <= |ps| then ps[..n] else ps + seq(n - |ps|, _ => DefaultPrimitive)
  }

  /** The three attribute locations are distinct. */
  lemma AttributeLocationsDistinct()
    ensures POSITION_LOCATION != NORMAL_LOCATION && NORMAL_LOCATION != TEX_COORD_LOCATION && TEX_COORD_LOCATION != POSITION_LOCATION
  {
  }
}
