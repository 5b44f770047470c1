# glTF import core of a minimal OpenGL viewer, in Dafny

This project models how the viewer's asset manager imports a binary glTF (GLB)
scene and proves properties of the model. The import has three passes over a
parsed document:

- **Meshes.** Each glTF mesh is flattened into one render record. Its
  primitives' POSITION, NORMAL and TEXCOORD_0 float streams are concatenated.
  Their index accessors, of 1, 2 or 4 bytes per element, are widened to 32
  bits and concatenated too.
- **Materials.** Every mesh's single primitive yields one material record,
  which is appended to the global material list. The base-color and
  metallic-roughness images it references are created as GL textures and
  appended to the global texture list.
- **Transforms.** The node tree of the one scene is walked with an explicit
  stack. A node that owns a mesh writes its composed matrix onto that mesh's
  record.

The asset manager's three globals are the fields of one class,
`AssetManager.AssetRegistry`:

- the models by name;
- the material list;
- the texture list.

The GL context appears only in what texture creation observes of it. It is
the class `Textures.Gpu`, which holds the next name `glGenTextures` hands out
and the log of texture images uploaded so far.

A model's GL vertex arrays and buffers are represented by the data uploaded
into them. These are the positions, normals, texture coordinates and indices
fields of a `Models.Primitive`.

Module layout:

| module | models |
|---|---|
| `Util` | `Option`, the fixed-width integers, C++ conversions to `uint32` and `int32` |
| `Gltf` | the parsed document the importer reads (the tinygltf model) |
| `Matrix` | glm's `mat4` over exact reals: column-major layout, product, translate, scale, quaternion cast |
| `Materials` | `Material` of include/material.hpp |
| `Textures` | `Texture::TextureConfig`, `Texture` and `create_texture` |
| `Models` | `Model` and `Model::Primitive` of include/asset_manager.hpp |
| `Decode` | the accessor reads: index widening, `to_glm_vec3`, `to_glm_vec2` |
| `Meshes` | `load_glb_meshes` |
| `Transforms` | `vec_to_glm_mat4x4`, `get_node_transform`, `load_glb_transformations` |
| `MaterialPass` | the specification functions of `load_glb_materials` |
| `AssetManager` | the globals, `load_model`, `load_glb`, `load_glb_materials`, the `load_texture` lambda |

Methods that work on a `Model&` are value-in/value-out methods whose
postcondition ties the result to a specification function. These are
`LoadGlbMeshes` with `Meshes.Flattened`, `LoadGlbTransformations` with
`Transforms.Transformed`, and `LoadGlbMaterials` with
`MaterialPass.MaterialIndexed`. The methods that change the globals are
methods of `AssetRegistry` with `modifies` clauses.

`load_glb_materials` is specified by a fold, `MaterialPass.PassOver`, over
per-mesh "requests". A request records, for each texture slot, whether it is
absent, rejected by `create_texture`, or accepted together with the texture
object it creates.

The stack walk of `load_glb_transformations` is specified by `Transforms.Trace`.
This is the order in which entries are popped, with each child's trace
appearing after its later siblings' traces. It is proved against the loop
through the invariant "what is still pending on the stack is the
concatenation of the traces of its entries".

### Behaviour worth knowing

The model keeps these behaviours of the code as they are written:

- **Index offsets.** `index_offset` is declared inside the mesh loop
  (src/asset_manager.cpp:110), and there is one record per mesh, written once
  after all its primitives (lines 166-168). So every loaded record has
  `offset` 0, and its `count` is the mesh's total index count
  (`Meshes.LoadedRecord`).
- **Material index.** `mat_idx` is a local counter that starts at 0 in every
  call (line 207) and is stored in the record (line 285). The material itself
  is appended to the global list (line 284). So the stored index is the
  material's global position only when the list was empty before the load
  (`MaterialPass.MaterialIndexIsLocal`).
- **Index values.** A primitive's indices are appended as read (lines
  145-157). They are not shifted by the number of vertices of the earlier
  primitives, and they are not checked against the vertex count
  (`Meshes.IndicesNotRebased`).
- **Texture coordinates.** The loop of `to_glm_vec2` runs to `size * 3` in
  steps of 2 (line 82), while the position loop steps by 3 (line 76). So a
  primitive with as many texture coordinates as positions gets more pairs
  than vertices (`Meshes.TexCoordsOutnumberVertices`). The model takes as a
  precondition that the buffer holds all of those pairs; see "## Left out".
- **Failed texture.** A texture that `create_texture` rejects is reported as
  skipped (lines 265 and 275). The slot still stores `textures.size() - 1`
  (lines 267 and 277). That is the index of the texture loaded before it, or
  -1 when the list is empty (`MaterialPass.TextureSlotIndex`).
- **Failed load.** `models.emplace` runs before the mesh pass (line 52). So a
  failed mesh pass (lines 54-57) leaves a partly filled record under the name
  (`AssetManager.AssetRegistry.LoadGlb`).

## Model

| member | source | states |
|---|---|---|
| Util.ToUint32 | src/asset_manager.cpp:166-168 | the `uint32` conversion of `indices.size()` and `index_offset`: congruent to its argument modulo 2^32, and the argument itself when it fits |
| Util.ToInt32 | src/asset_manager.cpp:267 | the `int32` conversion of `textures.size() - 1`: congruent modulo 2^32, and the argument itself when it fits in 32 signed bits |
| Util.ToInt32Succ | src/asset_manager.cpp:286 | incrementing the wrapped `mat_idx` gives the wrap of the incremented count, so the counter after i steps is the wrap of i |
| Models.Resize | src/asset_manager.cpp:101 | `resize` gives exactly n records, keeps the first ones and pads with default records |
| Models.AttributeLocationsDistinct | include/asset_manager.hpp:15-17 | the three vertex attribute locations are pairwise distinct |
| Decode.IndexTypeOf | src/asset_manager.cpp:143-161 | an index component type is accepted iff it is unsigned byte, short or int, and each maps to its own width |
| Decode.LittleEndianBound | src/asset_manager.cpp:143-157 | w little-endian bytes denote a value below 256^w, so widened indices always fit |
| Decode.DecodeEncode | src/asset_manager.cpp:143-157 | reading back the w-byte encoding of a value below 256^w gives the value |
| Decode.EncodeDecode | src/asset_manager.cpp:143-157 | encoding the value of w bytes at width w gives back the same bytes |
| Decode.DecodeIndices | src/asset_manager.cpp:143-157 | `count` indices; index k is the little-endian value of the k-th element of the accessor's width |
| Decode.EncodeIndicesConcat | src/asset_manager.cpp:145-157 | packing index values distributes over concatenation, as `indices.insert` at the end does |
| Decode.EncodeIndicesSlice | src/asset_manager.cpp:143-157 | element k of a packed index buffer occupies bytes [w*k, w*k+w) |
| Decode.RoundTripAt | src/asset_manager.cpp:143-157 | element k of the packed encoding reads back as the k-th value |
| Decode.DecodeIndicesRoundTrip | src/asset_manager.cpp:143-157 | decoding the packed encoding of any list of index values that fit the width gives the list back |
| Decode.WidthsAgree | src/asset_manager.cpp:143-157 | the same small indices stored as bytes, shorts or ints decode to the same list |
| Decode.BytesWidenUnchanged | src/asset_manager.cpp:144-147 | unsigned byte indices are widened without change of value |
| Decode.AppendVec3 | src/asset_manager.cpp:74-78 | `to_glm_vec3` appends exactly `size` triples; triple k is floats 3k..3k+2 of the stream |
| Decode.AppendVec2 | src/asset_manager.cpp:80-84 | `to_glm_vec2` as written (bound `size * 3`, step 2) appends ceil(3*size/2) pairs; pair k is floats 2k, 2k+1 |
| Meshes.ReadVec3Attribute | src/asset_manager.cpp:113-127 | a present POSITION or NORMAL attribute appends its accessor's triples; an absent one appends nothing |
| Meshes.ReadTexCoords | src/asset_manager.cpp:129-135 | a present TEXCOORD_0 appends its accessor's pairs; an absent one appends nothing |
| Meshes.ReadIndices | src/asset_manager.cpp:138-163 | fails iff the primitive has an index accessor of unsupported type; otherwise appends its widened indices (none without an accessor) |
| Meshes.FlattenPrimitive | src/asset_manager.cpp:112-163 | one primitive either fails and leaves the geometry as it was, or appends its four streams |
| Meshes.FailurePersists | src/asset_manager.cpp:159-161 | once a primitive fails, the whole mesh fails |
| Meshes.FlattenMesh | src/asset_manager.cpp:105-164 | a mesh succeeds iff every primitive does, and then its geometry is the concatenation of its primitives' streams in order |
| Meshes.FirstFailureFrom | src/asset_manager.cpp:102-163 | the first mesh that fails: all before it load, and it fails unless it is the mesh count |
| Meshes.LoadGlbMeshes | src/asset_manager.cpp:72-203 | succeeds iff every mesh loads; the records are resized to the mesh count, those before the first failing mesh hold its geometry with offset 0 and the truncated index count, the rest are left as the resize left them |
| Meshes.GeometrySizes | src/asset_manager.cpp:74-163 | a merged mesh holds the summed POSITION and NORMAL counts, ceil(3n/2) texture coordinates per TEXCOORD_0 accessor, and the summed index counts |
| Meshes.MeshFailsIffUnsupported | src/asset_manager.cpp:138-163 | a mesh fails exactly when some primitive has an index accessor of an unsupported component type |
| Meshes.LoadedRecord | src/asset_manager.cpp:166-168 | a loaded record has offset 0 and count equal to the mesh's total index count modulo 2^32 |
| Meshes.FailedMeshesKeepDefaults | src/asset_manager.cpp:101 | on a fresh model, records from the failing mesh on keep the default record |
| Meshes.IndicesNotRebased | src/asset_manager.cpp:145-157 | a second primitive's indices are appended unshifted after the first's, while positions are concatenated |
| Meshes.TexCoordsOutnumberVertices | src/asset_manager.cpp:80-84 | with equal POSITION and TEXCOORD_0 counts n >= 1, the mesh has more texture coordinates than vertices |
| Matrix.MulIdentityLeft | src/asset_manager.cpp:325 | composing with an identity parent matrix leaves the child matrix unchanged |
| Matrix.MulIdentityRight | src/asset_manager.cpp:365 | composing with an identity factor leaves the matrix unchanged |
| Matrix.IdentityQuatIsIdentity | src/asset_manager.cpp:359-360 | the default quaternion (1, 0, 0, 0) casts to the identity rotation |
| Matrix.UnitScalingIsIdentity | src/asset_manager.cpp:362-363 | the default scale (1, 1, 1) is the identity matrix |
| Matrix.TranslationsCompose | src/asset_manager.cpp:356-357 | translations compose by adding their offsets (used by `Transforms.TranslationsAccumulate`) |
| Transforms.VecToMat4x4 | src/asset_manager.cpp:334-347 | an empty array gives the identity; a 16-entry array puts entry 4k+j at column k, row j |
| Transforms.ExplicitMatrixWins | src/asset_manager.cpp:352-353 | a node with a 16-entry matrix has that matrix as its transform, whatever its TRS arrays hold |
| Transforms.MissingComponentsDefault | src/asset_manager.cpp:356-363 | a missing scale acts as (1, 1, 1), a missing rotation as the identity quaternion, a missing translation as zero |
| Transforms.NoTransformIsIdentity | src/asset_manager.cpp:349-369 | a node without matrix and TRS arrays has the identity transform |
| Transforms.TranslationOnly | src/asset_manager.cpp:356-365 | a node with only a translation has that pure translation as transform |
| Transforms.TraceMeshRefs | src/asset_manager.cpp:314-315 | every node the walk reaches refers to a valid mesh record or to none |
| Transforms.Apply | src/asset_manager.cpp:310-316 | stamping matrices never changes the number of records |
| Transforms.Root | src/asset_manager.cpp:305-307 | the root node's matrix array is empty or has 16 entries |
| Transforms.LoadGlbTransformations | src/asset_manager.cpp:293-332 | always succeeds; the records become those the popped entries stamp in walk order |
| Transforms.LastStamp | src/asset_manager.cpp:314-315 | no matrix iff no entry owns mesh k; otherwise the matrix of the last entry owning k |
| Transforms.ApplyRecord | src/asset_manager.cpp:314-315 | applying a walk changes only model matrices; record k gets the last matrix stamped on it, or keeps its own |
| Transforms.TransformedRecord | src/asset_manager.cpp:293-332 | after the walk, record k keeps everything but its matrix, which is that of the last visited node owning mesh k, or is unchanged |
| Transforms.RootTRSIgnored | src/asset_manager.cpp:305-308 | the root is visited first with the matrix of its `matrix` array only: its TRS arrays are ignored, and it gets the identity when the array is empty |
| Transforms.ChildInTrace | src/asset_manager.cpp:319-328 | a child is visited with the parent's matrix times its own local transform, and so is every node below it |
| Transforms.TranslationsAccumulate | src/asset_manager.cpp:319-328 | a translation-only child of a node visited with a translation is visited with the sum of the two offsets |
| Transforms.GrandchildMatrix | src/asset_manager.cpp:319-328 | a grandchild is visited with root matrix x child transform x grandchild transform, composed parent-first |
| Transforms.RootAndLeafTrace | src/asset_manager.cpp:310-329 | a root with one leaf child is visited as the root, then the child with the composed matrix |
| Transforms.TranslatedRootScenario | src/asset_manager.cpp:305-328 | in a two-node scene whose root has only a translation, the child's mesh gets the child's translation alone |
| Textures.ChannelFormat | src/texture.cpp:92-114 | a channel count is accepted iff it is 1 to 4; 1 maps to RED, 2 to RG, 3 to RGB and 4 to RGBA, each in both directions |
| Textures.ChannelFormatInjective | src/texture.cpp:94-114 | different channel counts never share a format |
| Textures.PixelType | src/texture.cpp:116-120 | the pixel type is never 0: the configured one when non-zero, GL_UNSIGNED_BYTE when 0 |
| Textures.Created | src/texture.cpp:122-138 | the created texture object has the given name and pixels; a 2D target with the descriptor's size, wrap modes and filters; both formats equal to the channel count's format; the defaulted pixel type; and mipmaps iff the minification filter is a mipmapping one |
| Textures.MipmapFiltersAreContiguous | src/texture.cpp:133-138 | mipmaps are generated exactly for the minification filters 0x2700 to 0x2703 |
| Textures.DefaultConfigRejected | include/texture.hpp:7-19 | a default descriptor has zero size and is refused, and its NEAREST filter asks for no mipmaps |
| Textures.BitDepthIgnored | src/texture.cpp:116-131 | the descriptor's bit depth plays no part in whether creation succeeds |
| Textures.Gpu.GenTexture | src/texture.cpp:122 | hands out the next name, never 0, and advances the counter |
| Textures.Gpu.TexImage2D | src/texture.cpp:125-138 | appends one texture image to the log |
| Textures.Texture.constructor | include/texture.hpp:21-28 | a new texture has ID 0 |
| Textures.Texture.CreateTexture | src/texture.cpp:75-143 | succeeds iff the texture is not created yet and the descriptor passes every guard; on success ID is a fresh non-zero name and exactly one texture image is uploaded, on failure nothing changes |
| MaterialPass.ConfigFor | src/asset_manager.cpp:240-251 | the descriptor `load_texture` builds always targets GL_TEXTURE_2D |
| MaterialPass.SlotRequestOf | src/asset_manager.cpp:260-278 | a slot is absent iff its index is -1, and accepted iff it is present and `create_texture` accepts its descriptor |
| MaterialPass.AlphaModeMapping | src/asset_manager.cpp:216-224 | "MASK" and "BLEND" map to their modes and every other string to opaque; only MASK copies the cutoff; all texture indices start at -1 |
| MaterialPass.TextureSlotIndex | src/asset_manager.cpp:260-278 | absent slot: -1, nothing uploaded; accepted: one upload under the next name and the slot stores its list position; rejected: nothing uploaded and the slot stores the previous last position |
| MaterialPass.PassShape | src/asset_manager.cpp:208-287 | the pass produces one material per mesh and at most two uploads per mesh |
| MaterialPass.UploadNames | src/asset_manager.cpp:252-256 | the textures of a pass carry consecutive fresh GL names |
| MaterialPass.TextureIndicesInRange | src/asset_manager.cpp:260-278 | while counts fit in an int32, every stored texture index is -1 or a valid position of the texture list after the pass |
| MaterialPass.UntexturedMaterial | src/asset_manager.cpp:216-234 | a material without textures uploads nothing and is the base material with both indices -1 |
| MaterialPass.PassPrefix | src/asset_manager.cpp:208-287 | material i of the pass depends only on the meshes up to i |
| MaterialPass.MaterialIndexed | src/asset_manager.cpp:285-286 | setting material indices keeps the record count and the name |
| MaterialPass.MaterialIndexIsLocal | src/asset_manager.cpp:284-286 | record i stores i, while its material sits at global position (previous count + i); the two agree iff the list was empty |
| AssetManager.ImportedRecords | src/asset_manager.cpp:52-69 | an import leaves one record per mesh and the name; after a complete import, record i refers to material i and keeps its flattened geometry, with the matrix of the last node that refers to it, or its earlier matrix when no node does |
| AssetManager.AssetRegistry.constructor | src/asset_manager.cpp:14-16 | the three globals start empty |
| AssetManager.AssetRegistry.LoadTexture | src/asset_manager.cpp:236-258 | succeeds iff `create_texture` accepts the descriptor; then the texture's fresh name is appended to the list and one image uploaded, otherwise nothing changes |
| AssetManager.AssetRegistry.LoadTextureSlot | src/asset_manager.cpp:260-268 | a present slot loads its texture and stores `textures.size() - 1`, as the slot fold specifies; the texture list is the list before the pass followed by the GL names of all uploads so far |
| AssetManager.AssetRegistry.LoadMeshMaterial | src/asset_manager.cpp:212-278 | mesh i's material and uploads are those of the per-mesh step of the fold; the texture list is the list before the pass followed by the GL names of all uploads so far |
| AssetManager.AssetRegistry.LoadGlbMaterials | src/asset_manager.cpp:205-291 | always succeeds; appends one material per mesh, appends exactly the GL names of the pass's uploads to the old texture list, uploads those images under consecutive fresh names, and sets record i's material index to i |
| AssetManager.AssetRegistry.ImportGlb | src/asset_manager.cpp:54-69 | needs the materials and the scene only when every mesh loads; succeeds iff every mesh loads; the record is the imported one; on success the material and texture lists grow by exactly the pass's materials and upload names, on failure nothing but the record changes |
| AssetManager.AssetRegistry.LoadGlb | src/asset_manager.cpp:30-70 | fails without change when parsing failed; otherwise the record under `name`, existing or fresh, is replaced by the imported one, the result is true iff every mesh loads, and the material and texture lists grow by exactly the pass's materials and upload names (nothing on failure) |
| AssetManager.AssetRegistry.LoadModel | src/asset_manager.cpp:18-28 | GLB goes to the GLB loader, with its effect on models, materials, textures and the GL; every other format fails and changes nothing |

## Left out

- Parsing and file IO: `LoadBinaryFromFile`, the asset path and its warnings and errors are not modelled. The parsed document, or `None` when parsing failed, is a parameter of `LoadGlb` and `LoadModel`.
- Console output (`printf`) is not modelled.
- The GL buffer, vertex-array and attribute-pointer calls of load_glb_meshes (lines 170-199): each mesh record holds the data that would be uploaded, not GL handles.
- Floating point: matrices are over exact reals, and float attribute data is carried as 32-bit words that are moved, never computed with. `float` and `double` rounding in `vec_to_glm_mat4x4` and `get_node_transform` is not modelled, nor is the `double` to `float` narrowing of the material factors and the alpha cutoff (src/asset_manager.cpp:220-234, include/material.hpp:11-14), which `MaterialPass` carries as exact reals.
- The index-count pre-pass of load_glb_meshes (lines 90-96) only sizes a vector that is never used. Its out-of-bounds read for primitives without indices is not modelled.
- The C `assert`s (one primitive per mesh, one scene, a 16-entry matrix) and every in-range index of the document are preconditions (`MaterialReadable`, `TransformsReady`, `MeshesReadable`), not modelled failure paths, because the code does not handle those cases. `MeshesReadable` asks this of every primitive of every mesh, including those after the first failing primitive, which the code never reads (it returns at src/asset_manager.cpp:159-161); this only narrows the model on documents that already fail to load.
- Meshes.ReadTexCoords / Meshes.Vec2Readable: requires the buffer to hold ceil(3n/2) pairs (8 bytes each) after the start of the TEXCOORD_0 accessor of n elements, because `to_glm_vec2` reads that far (src/asset_manager.cpp:80-84). A valid asset whose texture coordinates end their buffer is outside the model; the C++ over-read is undefined behaviour there.
- Transforms.NodeTransform: requires the matrix array to be empty or of 16 entries, the case the `assert` in `vec_to_glm_mat4x4` rejects.
- Transforms.LoadGlbTransformations: requires the reachable node graph to be acyclic (`Walkable` with a height bound), because the C++ stack walk does not terminate on a cycle.
- GL texture names are unbounded naturals handed out in increasing order. Real GL may reuse or skip names.
- Texture copies: `textures` stores the GL names of the pushed copies. The destructor frees nothing (its delete is commented out), so copies are plain values.
- The `static` capture of the `load_texture` lambda is modelled as an ordinary call on the registry.
- The failure checks after `load_glb_materials` and `load_glb_transformations` in `load_glb` can never fire, because both always return true. They are not modelled as branches.
- The normal and emissive textures (TODO at lines 280 and 282) are not loaded by the code, and the model keeps their indices at -1.
- The camera, shaders, mesh.cpp, util.cpp and main.cpp are not part of this model.
- AssetManager.ImportedRecords: requires fewer than 2^31 meshes. Beyond that, `mat_idx++` (src/asset_manager.cpp:286) overflows an `int32`, which is undefined behaviour in C++. The model chooses to wrap the counter (`Util.ToInt32Succ`) but states the material index only below the bound.
- MaterialPass.TextureIndicesInRange: stated only while the texture count stays below 2^31 - 1, because beyond that `textures.size() - 1` wraps in the `int32` conversion.
