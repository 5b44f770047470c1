/** What load_glb_materials computes, as functions of the parsed document:
    the material each mesh gets, and the textures uploaded on the way. The
    imperative pass itself is `AssetManager.AssetRegistry.LoadGlbMaterials`,
    proved equal to `PassOver` below. */
module MaterialPass {
  import opened Util
  import opened Textures
  import Gltf
  import Materials
  import opened Models

  /** The alpha mode for glTF's `alphaMode` string: the three names map to
      their modes, and any other string keeps the default, opaque. */
  function ModeOf(alphaMode: string): Materials.AlphaMode {
    if alphaMode == "MASK" then Materials.MASK
    else if alphaMode == "BLEND" then Materials.BLEND
    else Materials.OPAQUE
  }

  /** The material record before textures: the default, with the alpha mode,
      the cutoff (only for MASK), double-sidedness, base colour, metalness and
      roughness taken from the glTF material. */
  function BaseMaterial(mat: Gltf.Material): Materials.Material
    requires |mat.pbrMetallicRoughness.baseColorFactor| >= 4
  {
    var f := mat.pbrMetallicRoughness.baseColorFactor;
    Materials.Default.(
      mode := ModeOf(mat.alphaMode),
      alphaCutoff := if mat.alphaMode == "MASK" then mat.alphaCutoff else Materials.Default.alphaCutoff,
      doubleSided := mat.doubleSided,
      baseColor := Materials.Color(f[0], f[1], f[2], f[3]),
      metalness := mat.pbrMetallicRoughness.metallicFactor,
      roughness := mat.pbrMetallicRoughness.roughnessFactor)
  }

  /** The descriptor the loader builds for an image and its sampler: a 2D
      texture whose internal format is the channel count and whose format is
      the bit depth; every `int` is converted to `uint32`. */
  function ConfigFor(img: Gltf.Image, s: Gltf.Sampler): (conf: TextureConfig)
    ensures conf.target == GL_TEXTURE_2D
  {
    TextureConfig(GL_TEXTURE_2D, ToUint32(s.minFilter), ToUint32(s.magFilter), ToUint32(s.wrapS),
                  ToUint32(s.wrapT), ToUint32(img.component), ToUint32(img.bits),
                  ToUint32(img.pixelType), ToUint32(img.width), ToUint32(img.height))
  }

  /** A texture reference is -1 or names a texture whose image and sampler exist. */
  predicate TextureReadable(doc: Gltf.Document, info: Gltf.TextureInfo) {
    info.index == -1 ||
    (0 <= info.index < |doc.textures| &&
     0 <= doc.textures[info.index].source < |doc.images| &&
     0 <= doc.textures[info.index].sampler < |doc.samplers|)
  }

  /** What load_glb_materials reads of mesh i exists: exactly one primitive
      (the source asserts it), its material, four base-colour factors and the
      two texture references. */
  predicate MaterialReadable(doc: Gltf.Document, i: int)
    requires 0 <= i < |doc.meshes|
  {
    |doc.meshes[i].primitives| == 1 &&
    0 <= doc.meshes[i].primitives[0].material < |doc.materials| &&
    var mat := doc.materials[doc.meshes[i].primitives[0].material];
    |mat.pbrMetallicRoughness.baseColorFactor| >= 4 &&
    TextureReadable(doc, mat.pbrMetallicRoughness.baseColorTexture) &&
    TextureReadable(doc, mat.pbrMetallicRoughness.metallicRoughnessTexture)
  }

  predicate MaterialsReadable(doc: Gltf.Document) {
    forall i :: 0 <= i < |doc.meshes| ==> MaterialReadable(doc, i)
  }

  /** The glTF material of mesh i. */
  function MaterialOf(doc: Gltf.Document, i: int): Gltf.Material
    requires 0 <= i < |doc.meshes| && MaterialReadable(doc, i)
  {
    doc.materials[doc.meshes[i].primitives[0].material]
  }

  /** The image and sampler a (present) texture reference resolves to. */
  function ImageOf(doc: Gltf.Document, info: Gltf.TextureInfo): Gltf.Image
    requires TextureReadable(doc, info) && info.index != -1
  {
    doc.images[doc.textures[info.index].source]
  }

  function SamplerOf(doc: Gltf.Document, info: Gltf.TextureInfo): Gltf.Sampler
    requires TextureReadable(doc, info) && info.index != -1
  {
    doc.samplers[doc.textures[info.index].sampler]
  }
  /** What one texture slot of a material asks of the loader: nothing (no
      texture), or an image that create_texture rejects, or one it accepts,
      given as the texture object it creates (its GL name still to be
      assigned). */
  datatype SlotRequest = Absent | Rejected | Accepted(image: TexImage)

  function SlotRequestOf(doc: Gltf.Document, info: Gltf.TextureInfo): (r: SlotRequest)
    requires TextureReadable(doc, info)
    ensures r.Absent? <==> info.index == -1
    ensures r.Accepted? <==> info.index != -1 && Accepts(ConfigFor(ImageOf(doc, info), SamplerOf(doc, info)))
  {
    if info.index == -1 then Absent
    else
      var conf := ConfigFor(ImageOf(doc, info), SamplerOf(doc, info));
      if Accepts(conf) then Accepted(Created(0, conf, ImageOf(doc, info).image)) else Rejected
  }

  /** What mesh i asks of the loader: the material before textures, and its
      base-colour and metallic-roughness slots. */
  datatype MeshRequest = MeshRequest(base: Materials.Material, baseColor: SlotRequest, metallicRoughness: SlotRequest)

  function RequestOf(doc: Gltf.Document, i: int): MeshRequest
    requires 0 <= i < |doc.meshes| && MaterialReadable(doc, i)
  {
    var pbr := MaterialOf(doc, i).pbrMetallicRoughness;
    MeshRequest(BaseMaterial(MaterialOf(doc, i)), SlotRequestOf(doc, pbr.baseColorTexture),
                SlotRequestOf(doc, pbr.metallicRoughnessTexture))
  }

  function Requests(doc: Gltf.Document): (rs: seq<MeshRequest>)
    requires MaterialsReadable(doc)
    ensures |rs| == |doc.meshes|
  {
    seq(|doc.meshes|, i requires 0 <= i < |doc.meshes| && MaterialsReadable(doc) => RequestOf(doc, i))
  }

  /** The index a texture slot stores, and the textures uploaded so far (as
      the GL records them) once the slot is done. */
  datatype Slot = Slot(idx: int32, uploads: seq<TexImage>)

  /** One texture slot of a material. `before` is the length of the global
      texture list when the pass began and `next` the first free GL name, so
      the list holds `before + |ups|` textures and the next name is
      `next + |ups|`. An absent texture gives -1. A present one is uploaded
      under the next name when create_texture accepts it, and then, whether
      or not the upload succeeded, the slot stores the index of the LAST
      texture in the list. */
  function TextureSlot(r: SlotRequest, before: nat, next: nat, ups: seq<TexImage>): Slot {
    if r.Absent? then Slot(-1, ups)
    else
      var ups' := if r.Accepted? then ups + [r.image.(name := next + |ups|)] else ups;
      Slot(ToInt32(before + |ups'| - 1), ups')
  }

  /** The material of one mesh and the uploads after its two texture slots. */
  datatype Step = Step(material: Materials.Material, uploads: seq<TexImage>)

  function MeshMaterial(r: MeshRequest, before: nat, next: nat, ups: seq<TexImage>): Step {
    var base := TextureSlot(r.baseColor, before, next, ups);
    var mr := TextureSlot(r.metallicRoughness, before, next, base.uploads);
    Step(r.base.(baseColorTextureIdx := base.idx, metallicRoughnessTextureIdx := mr.idx), mr.uploads)
  }

  /** The materials of the first k meshes, in mesh order, and every texture
      uploaded for them, in upload order. */
  datatype Pass = Pass(materials: seq<Materials.Material>, uploads: seq<TexImage>)

  function PassOver(rs: seq<MeshRequest>, k: nat, before: nat, next: nat): Pass
    requires k <= |rs|
  {
    if k == 0 then Pass([], [])
    else
      var p := PassOver(rs, k - 1, before, next);
      var s := MeshMaterial(rs[k - 1], before, next, p.uploads);
      Pass(p.materials + [s.material], s.uploads)
  }

  /** Lines 217-224: "MASK" and "BLEND" select their modes and everything else,
      "OPAQUE" or not, is opaque; only MASK copies the cutoff. */
  lemma AlphaModeMapping(mat: Gltf.Material)
    requires |mat.pbrMetallicRoughness.baseColorFactor| >= 4
    ensures BaseMaterial(mat).mode == Materials.MASK <==> mat.alphaMode == "MASK"
    ensures BaseMaterial(mat).mode == Materials.BLEND <==> mat.alphaMode == "BLEND"
    ensures BaseMaterial(mat).mode == Materials.OPAQUE <==> mat.alphaMode != "MASK" && mat.alphaMode != "BLEND"
    ensures BaseMaterial(mat).alphaCutoff == if BaseMaterial(mat).mode == Materials.MASK then mat.alphaCutoff else 0.5
    ensures BaseMaterial(mat).baseColorTextureIdx == -1 && BaseMaterial(mat).metallicRoughnessTextureIdx == -1
    ensures BaseMaterial(mat).normalTextureIdx == -1 && BaseMaterial(mat).emissiveTextureIdx == -1
  {
  }

  /** Lines 260-278: the index a slot stores. Absent: -1 and nothing uploaded.
      Accepted: the texture created from the image and sampler is uploaded
      under the next GL name, and the slot stores its position in the global
      list. Rejected: nothing uploaded, and the slot stores the index of the
      texture that was last in the list before, which belongs to another
      slot, or -1 if the list is empty. */
  lemma TextureSlotIndex(doc: Gltf.Document, info: Gltf.TextureInfo, before: nat, next: nat, ups: seq<TexImage>)
    requires TextureReadable(doc, info) && before + |ups| < 0x7fff_ffff
    ensures var s := TextureSlot(SlotRequestOf(doc, info), before, next, ups);
      && (info.index == -1 ==> s.idx == -1 && s.uploads == ups)
      && (info.index != -1 && Accepts(ConfigFor(ImageOf(doc, info), SamplerOf(doc, info))) ==>
            s.idx == before + |ups| &&
            s.uploads == ups + [Created(next + |ups|, ConfigFor(ImageOf(doc, info), SamplerOf(doc, info)),
                                        ImageOf(doc, info).image)])
      && (info.index != -1 && !Accepts(ConfigFor(ImageOf(doc, info), SamplerOf(doc, info))) ==>
            s.idx == before + |ups| - 1 && s.uploads == ups)
  {
  }

  /** Each mesh contributes one material and at most two uploads, appended
      after the earlier ones. */
  lemma {:induction false} PassShape(rs: seq<MeshRequest>, k: nat, before: nat, next: nat)
    requires k <= |rs|
    ensures |PassOver(rs, k, before, next).materials| == k
    ensures |PassOver(rs, k, before, next).uploads| <= 2 * k
    decreases k
  {
    if k > 0 {
      PassShape(rs, k - 1, before, next);
    }
  }

  /** The GL names of a list of uploads, in upload order: what the global
      texture list gains from them. */
  function Names(ups: seq<TexImage>): seq<nat> {
    seq(|ups|, j requires 0 <= j < |ups| => ups[j].name)
  }

  lemma NamesAppend(a: seq<TexImage>, b: seq<TexImage>)
    ensures Names(a + b) == Names(a) + Names(b)
  {
  }

  /** The uploads carry consecutive fresh GL names starting at `next`. */
  lemma {:induction false} UploadNames(rs: seq<MeshRequest>, k: nat, before: nat, next: nat)
    requires k <= |rs|
    ensures forall j :: 0 <= j < |PassOver(rs, k, before, next).uploads| ==>
      PassOver(rs, k, before, next).uploads[j].name == next + j
    decreases k
  {
    if k > 0 {
      UploadNames(rs, k - 1, before, next);
    }
  }

  /** At most two uploads per material, and every texture index of the pass
      is -1 or below `before + |uploads|`. */
  predicate IndicesBelow(p: Pass, before: nat) {
    |p.uploads| <= 2 * |p.materials| &&
    forall j :: 0 <= j < |p.materials| ==>
      && -1 <= p.materials[j].baseColorTextureIdx < before + |p.uploads|
      && -1 <= p.materials[j].metallicRoughnessTextureIdx < before + |p.uploads|
  }

  /** While the texture count fits in an int32, every texture index a
      material stores is -1 or the position of a texture in the global list
      after the pass, which then holds `before + |uploads|` textures. */
  lemma {:induction false} TextureIndicesInRange(rs: seq<MeshRequest>, k: nat, before: nat, next: nat)
    requires k <= |rs| && before + 2 * k < 0x7fff_ffff
    ensures |PassOver(rs, k, before, next).materials| == k
    ensures IndicesBelow(PassOver(rs, k, before, next), before)
    decreases k
  {
    if k > 0 {
      TextureIndicesInRange(rs, k - 1, before, next);
      var p := PassOver(rs, k - 1, before, next);
      var s := MeshMaterial(rs[k - 1], before, next, p.uploads);
      assert s.material.baseColorTextureIdx < before + |s.uploads|;
      assert s.material.metallicRoughnessTextureIdx < before + |s.uploads|;
      assert |s.uploads| <= |p.uploads| + 2;
    }
  }

  /** A material without textures uploads nothing and keeps both indices at -1. */
  lemma UntexturedMaterial(doc: Gltf.Document, i: int, before: nat, next: nat, ups: seq<TexImage>)
    requires 0 <= i < |doc.meshes| && MaterialReadable(doc, i)
    requires MaterialOf(doc, i).pbrMetallicRoughness.baseColorTexture.index == -1
    requires MaterialOf(doc, i).pbrMetallicRoughness.metallicRoughnessTexture.index == -1
    ensures MeshMaterial(RequestOf(doc, i), before, next, ups) == Step(BaseMaterial(MaterialOf(doc, i)), ups)
  {
  }

  /** Mesh i's material is the i-th of the pass, whatever meshes follow it:
      it is the one built from the uploads made for the meshes before it. */
  lemma {:induction false} PassPrefix(rs: seq<MeshRequest>, i: nat, k: nat, before: nat, next: nat)
    requires i < k <= |rs|
    ensures |PassOver(rs, k, before, next).materials| == k
    ensures PassOver(rs, k, before, next).materials[i] ==
      MeshMaterial(rs[i], before, next, PassOver(rs, i, before, next).uploads).material
    decreases k
  {
    PassShape(rs, k, before, next);
    if k > i + 1 {
      PassPrefix(rs, i, k - 1, before, next);
    } else {
      PassShape(rs, i, before, next);
    }
  }

  /** The model after load_glb_materials: record i, for each of the first k
      meshes, refers to material i, counted from 0 for every model. */
  function MaterialIndexed(m: Model, k: nat): (r: Model)
    requires k <= |m.meshes|
    ensures |r.meshes| == |m.meshes| && r.name == m.name
  {
    m.(meshes := seq(|m.meshes|, j requires 0 <= j < |m.meshes| =>
      if j < k then m.meshes[j].(matIdx := ToInt32(j)) else m.meshes[j]))
  }

  /** Indexing one more record changes only that record. */
  lemma MaterialIndexedStep(m: Model, k: nat)
    requires k < |m.meshes|
    ensures MaterialIndexed(m, k).meshes[k] == m.meshes[k]
    ensures MaterialIndexed(m, k + 1).meshes ==
      MaterialIndexed(m, k).meshes[k := m.meshes[k].(matIdx := ToInt32(k))]
  {
  }

  /** Lines 284-286: the pass appends mesh i's material at position
      `|existing| + i` of the global list, but the record stores i; the two
      agree exactly when the list was empty before the pass. */
  lemma MaterialIndexIsLocal(m: Model, doc: Gltf.Document, existing: seq<Materials.Material>, i: nat,
                             before: nat, next: nat)
    requires |doc.meshes| <= |m.meshes| && MaterialsReadable(doc) && i < |doc.meshes| < 0x8000_0000
    ensures var rs := Requests(doc);
      var global := existing + PassOver(rs, |rs|, before, next).materials;
      && MaterialIndexed(m, |doc.meshes|).meshes[i].matIdx == i
      && |existing| + i < |global|
      && global[|existing| + i] == MeshMaterial(RequestOf(doc, i), before, next, PassOver(rs, i, before, next).uploads).material
      && (MaterialIndexed(m, |doc.meshes|).meshes[i].matIdx == |existing| + i <==> existing == [])
  {
    PassPrefix(Requests(doc), i, |doc.meshes|, before, next);
  }
}
