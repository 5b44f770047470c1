/** The parsed glTF 2.0 document the loader consumes. Parsing itself (the
    tinygltf library) is outside the model: the loader receives this value.
    Only the fields the loader reads are kept; every index into another
    array is an `int`, with -1 for "absent" as tinygltf stores it. */
module Gltf {
  import opened Util

  /** Accessor component types, section 3.6.2 of the glTF 2.0 specification. */
  const UNSIGNED_BYTE: int := 5121
  const UNSIGNED_SHORT: int := 5123
  const UNSIGNED_INT: int := 5125

  datatype Buffer = Buffer(data: seq<byte>)

  datatype BufferView = BufferView(buffer: int, byteOffset: nat)

  datatype Accessor = Accessor(bufferView: int, byteOffset: nat, componentType: int, count: nat)

  datatype Primitive = Primitive(attributes: map<string, int>, indices: int, material: int)

  datatype Mesh = Mesh(primitives: seq<Primitive>)

  datatype TextureInfo = TextureInfo(index: int)

  datatype PbrMetallicRoughness = PbrMetallicRoughness(
    baseColorFactor: seq<real>,
    metallicFactor: real,
    roughnessFactor: real,
    baseColorTexture: TextureInfo,
    metallicRoughnessTexture: TextureInfo)

  datatype Material = Material(
    alphaMode: string,
    alphaCutoff: real,
    doubleSided: bool,
    pbrMetallicRoughness: PbrMetallicRoughness)

  datatype Texture = Texture(sampler: int, source: int)

  datatype Image = Image(width: int, height: int, component: int, bits: int, pixelType: int, image: seq<byte>)

  datatype Sampler = Sampler(minFilter: int, magFilter: int, wrapS: int, wrapT: int)

  /** A node holds either a 16-entry column-major `matrix` or (possibly empty)
      translation, rotation (x, y, z, w) and scale arrays. */
  datatype Node = Node(
    children: seq<int>,
    mesh: int,
    matrix: seq<real>,
    translation: seq<real>,
    rotation: seq<real>,
    scale: seq<real>)

  datatype Scene = Scene(nodes: seq<int>)

  datatype Document = Document(
    buffers: seq<Buffer>,
    bufferViews: seq<BufferView>,
    accessors: seq<Accessor>,
    meshes: seq<Mesh>,
    materials: seq<Material>,
    textures: seq<Texture>,
    images: seq<Image>,
    samplers: seq<Sampler>,
    nodes: seq<Node>,
    scenes: seq<Scene>)

  /** The accessor `a` of `doc` points at an existing buffer view and buffer;
      `Start` is then the byte where its data begins. */
  predicate AccessorResolves(doc: Document, a: int) {
    0 <= a < |doc.accessors| &&
    0 <= doc.accessors[a].bufferView < |doc.bufferViews| &&
    0 <= doc.bufferViews[doc.accessors[a].bufferView].buffer < |doc.buffers|
  }

  function BufferOf(doc: Document, a: int): seq<byte>
    requires AccessorResolves(doc, a)
  {
    doc.buffers[doc.bufferViews[doc.accessors[a].bufferView].buffer].data
  }

  /** bufferView.byteOffset + accessor.byteOffset: data is read contiguously
      from here, `byteStride` is never consulted. */
  function Start(doc: Document, a: int): nat
    requires AccessorResolves(doc, a)
  {
    doc.bufferViews[doc.accessors[a].bufferView].byteOffset + doc.accessors[a].byteOffset
  }
}
