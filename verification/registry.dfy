/** The asset manager's global state and its loading entry points:
    load_model, load_glb, load_glb_materials and its texture loader. The
    three globals (models by name, the material list, the texture list) are
    the fields of one `AssetRegistry` object; the GL context is its `gpu`. */
module AssetManager {
  import opened Util
  import opened Textures
  import opened Models
  import opened MaterialPass
  import opened Meshes
  import opened Transforms
  import Gltf
  import Materials

  /** Everything load_glb reads of a parsed document exists: the mesh data
      always, the materials and the node tree only when the mesh pass
      succeeds, since a failed mesh pass returns before they are read. */
  ghost predicate GlbReadable(doc: Gltf.Document) {
    MeshesReadable(doc) &&
    (AllMeshesLoad(doc) ==> MaterialsReadable(doc) && TransformsReady(doc, |doc.meshes|))
  }

  /** The record `models.emplace(name, Model{})` leaves under `name`: the one
      already there, or a fresh empty model. */
  function Existing(models: map<string, Model>, name: string): Model {
    if name in models then models[name] else EmptyModel
  }

  /** The record under `name` after load_glb of `doc`: the meshes flattened;
      when every mesh loaded, also the material indices set and the node
      matrices applied. A failed mesh load stops before the other two steps. */
  function Imported(base: Model, doc: Gltf.Document): Model
    requires GlbReadable(doc)
  {
    var flat := Flattened(base, doc);
    if AllMeshesLoad(doc) then Transformed(MaterialIndexed(flat, |doc.meshes|), doc) else flat
  }

  /** An import leaves one record per glTF mesh and never sets the model's
      name. After a complete import record i refers to material i, and keeps
      the geometry the mesh pass gave it, with the matrix of the last node
      that refers to it, or, when none does, the matrix it had before the
      import (the identity for a fresh record, the earlier import's matrix
      when a name is loaded again). */
  lemma ImportedRecords(base: Model, doc: Gltf.Document, i: nat)
    requires GlbReadable(doc) && i < |doc.meshes| < 0x8000_0000
    ensures |Imported(base, doc).meshes| == |doc.meshes| && Imported(base, doc).name == base.name
    ensures AllMeshesLoad(doc) ==>
      var flat := Flattened(base, doc).meshes[i];
      var r := Imported(base, doc).meshes[i];
      && r.matIdx == i
      && r.offset == flat.offset && r.count == flat.count
      && r.positions == flat.positions && r.normals == flat.normals
      && r.texCoords == flat.texCoords && r.indices == flat.indices
      && r.modelMatrix == match LastStamp(WalkTrace(doc, |doc.meshes|), i) {
                            case Some(M) => M
                            case None => flat.modelMatrix }
  {
    var flat := Flattened(base, doc);
    if AllMeshesLoad(doc) {
      TransformedRecord(MaterialIndexed(flat, |doc.meshes|), doc, i);
    }
  }

  class AssetRegistry {
    /** `AssetManager::models` */
    var models: map<string, Model>
    /** `AssetManager::materials` */
    var materials: seq<Materials.Material>
    /** `AssetManager::textures`: the vector holds copies of each created
        `Texture`, so an entry is just the GL name the copy carries. */
    var textures: seq<nat>
    /** The GL context textures are created in. */
    const gpu: Gpu

    /** Every texture in the list was created: it holds a GL name the GPU
        handed out, and the names grow along the list, so no two entries
        share one. */
    ghost predicate Valid()
      reads this`textures, gpu
    {
      gpu.Valid() &&
      (forall i :: 0 <= i < |textures| ==> 0 < textures[i] < gpu.nextName) &&
      (forall i, j :: 0 <= i < j < |textures| ==> textures[i] < textures[j])
    }

    /** The three globals start empty. */
    constructor (gpu: Gpu)
      requires gpu.Valid()
      ensures Valid() && this.gpu == gpu
      ensures models == map[] && materials == [] && textures == []
    {
      this.gpu := gpu;
      models := map[];
      materials := [];
      textures := [];
    }

    /** The `load_texture` lambda: build the descriptor for the image and its
        sampler, create a texture from it and append it to the list when
        creation succeeds. */
    method LoadTexture(img: Gltf.Image, sampler: Gltf.Sampler) returns (ok: bool)
      requires Valid()
      modifies this, gpu
      ensures Valid()
      ensures ok == Accepts(ConfigFor(img, sampler))
      ensures models == old(models) && materials == old(materials)
      ensures ok ==> textures == old(textures) + [old(gpu.nextName)] && gpu.nextName == old(gpu.nextName) + 1
      ensures ok ==> gpu.images == old(gpu.images) + [Created(old(gpu.nextName), ConfigFor(img, sampler), img.image)]
      ensures !ok ==> textures == old(textures) && gpu.nextName == old(gpu.nextName) && gpu.images == old(gpu.images)
    {
      var tc := ConfigFor(img, sampler);
      var t := new Texture();
      ok := t.CreateTexture(tc, img.image, gpu);
      if ok {
        textures := textures + [t.ID];
      }
    }

    /** One texture slot of a material, present in the glTF material: look up
        the texture's image and sampler, load it, and report the index of the
        last texture in the list, whether or not the load succeeded. `log` and
        `ups` are the GPU's record before the pass and the uploads since. */
    method LoadTextureSlot(doc: Gltf.Document, info: Gltf.TextureInfo, ghost before: nat, ghost next: nat,
                           ghost base: seq<nat>, ghost log: seq<TexImage>, ghost ups: seq<TexImage>) returns (idx: int32)
      requires Valid() && TextureReadable(doc, info) && info.index != -1
      requires |base| == before && textures == base + Names(ups)
      requires gpu.nextName == next + |ups| && gpu.images == log + ups
      modifies this, gpu
      ensures Valid()
      ensures var s := TextureSlot(SlotRequestOf(doc, info), before, next, ups);
        && idx == s.idx
        && textures == base + Names(s.uploads) && gpu.nextName == next + |s.uploads| && gpu.images == log + s.uploads
      ensures models == old(models) && materials == old(materials)
    {
      var texture := doc.textures[info.index];
      ghost var s := TextureSlot(SlotRequestOf(doc, info), before, next, ups);
      var loaded := LoadTexture(doc.images[texture.source], doc.samplers[texture.sampler]);
      NamesAppend(ups, s.uploads[|ups|..]);
      assert ups + s.uploads[|ups|..] == s.uploads;
      idx := ToInt32(|textures| - 1);
    }

    /** The body of load_glb_materials for mesh i: the material of its one
        primitive, with the alpha mode, cutoff, double-sidedness, base colour,
        metalness and roughness copied over, then its two texture slots. */
    method LoadMeshMaterial(doc: Gltf.Document, i: int, ghost before: nat, ghost next: nat,
                            ghost base: seq<nat>, ghost log: seq<TexImage>, ghost ups: seq<TexImage>)
      returns (mm: Materials.Material)
      requires Valid() && 0 <= i < |doc.meshes| && MaterialReadable(doc, i)
      requires |base| == before && textures == base + Names(ups)
      requires gpu.nextName == next + |ups| && gpu.images == log + ups
      modifies this, gpu
      ensures Valid()
      ensures var s := MeshMaterial(RequestOf(doc, i), before, next, ups);
        && mm == s.material
        && textures == base + Names(s.uploads) && gpu.nextName == next + |s.uploads| && gpu.images == log + s.uploads
      ensures models == old(models) && materials == old(materials)
    {
      assert MaterialReadable(doc, i);
      var primitive := doc.meshes[i].primitives[0];
      var mat := doc.materials[primitive.material];
      var pbr := mat.pbrMetallicRoughness;
      mm := Materials.Default;
      if mat.alphaMode == "OPAQUE" {
        mm := mm.(mode := Materials.OPAQUE);
      } else if mat.alphaMode == "MASK" {
        mm := mm.(mode := Materials.MASK, alphaCutoff := mat.alphaCutoff);
      } else if mat.alphaMode == "BLEND" {
        mm := mm.(mode := Materials.BLEND);
      }
      mm := mm.(doubleSided := mat.doubleSided);
      mm := mm.(baseColor := Materials.Color(pbr.baseColorFactor[0], pbr.baseColorFactor[1],
                                             pbr.baseColorFactor[2], pbr.baseColorFactor[3]));
      mm := mm.(metalness := pbr.metallicFactor, roughness := pbr.roughnessFactor);
      assert mm == BaseMaterial(mat);

      ghost var bc := TextureSlot(SlotRequestOf(doc, pbr.baseColorTexture), before, next, ups);
      if pbr.baseColorTexture.index != -1 {
        var idx := LoadTextureSlot(doc, pbr.baseColorTexture, before, next, base, log, ups);
        mm := mm.(baseColorTextureIdx := idx);
      }
      ghost var mr := TextureSlot(SlotRequestOf(doc, pbr.metallicRoughnessTexture), before, next, bc.uploads);
      if pbr.metallicRoughnessTexture.index != -1 {
        var idx := LoadTextureSlot(doc, pbr.metallicRoughnessTexture, before, next, base, log, bc.uploads);
        mm := mm.(metallicRoughnessTextureIdx := idx);
      }
    }

    /** load_glb_materials: for each mesh, build its material from the glTF
        material of its one primitive, load its base-colour and
        metallic-roughness textures, append it to the material list and store
        its per-model index in the mesh's record. */
    method LoadGlbMaterials(m: Model, doc: Gltf.Document) returns (ok: bool, m': Model)
      requires Valid() && MaterialsReadable(doc) && |doc.meshes| <= |m.meshes|
      modifies this, gpu
      ensures Valid() && ok
      ensures var p := PassOver(Requests(doc), |doc.meshes|, old(|textures|), old(gpu.nextName));
        && materials == old(materials) + p.materials
        && textures == old(textures) + Names(p.uploads)
        && |textures| == old(|textures|) + |p.uploads|
        && gpu.images == old(gpu.images) + p.uploads
        && gpu.nextName == old(gpu.nextName) + |p.uploads|
      ensures m' == MaterialIndexed(m, |doc.meshes|)
      ensures models == old(models)
    {
      ghost var before, next, base, log, existing := |textures|, gpu.nextName, textures, gpu.images, materials;
      ghost var p := Pass([], []);
      var matIdx: int32 := 0;
      var meshes := m.meshes;
      for i := 0 to |doc.meshes|
        invariant Valid() && models == old(models)
        invariant p == PassOver(Requests(doc), i, before, next)
        invariant materials == existing + p.materials && textures == base + Names(p.uploads)
        invariant gpu.images == log + p.uploads && gpu.nextName == next + |p.uploads|
        invariant matIdx == ToInt32(i)
        invariant meshes == MaterialIndexed(m, i).meshes
      {
        var mm := LoadMeshMaterial(doc, i, before, next, base, log, p.uploads);
        ghost var step := MeshMaterial(RequestOf(doc, i), before, next, p.uploads);
        assert existing + p.materials + [mm] == existing + (p.materials + [mm]);
        materials := materials + [mm];
        p := Pass(p.materials + [step.material], step.uploads);
        MaterialIndexedStep(m, i);
        meshes := meshes[i := meshes[i].(matIdx := matIdx)];
        ToInt32Succ(i);
        matIdx := ToInt32(matIdx + 1);
      }
      m' := m.(meshes := meshes);
      ok := true;
    }

    /** The three passes load_glb runs on the record under the model's name:
        meshes, then materials, then node transformations, stopping when the
        mesh pass fails. The other two passes always succeed, so the checks
        load_glb makes after them never fire. */
    method ImportGlb(base: Model, doc: Gltf.Document) returns (ok: bool, record: Model)
      requires Valid() && GlbReadable(doc)
      modifies this, gpu
      ensures Valid() && models == old(models)
      ensures ok == AllMeshesLoad(doc) && record == Imported(base, doc)
      ensures ok ==>
        var p := PassOver(Requests(doc), |doc.meshes|, old(|textures|), old(gpu.nextName));
        && materials == old(materials) + p.materials
        && textures == old(textures) + Names(p.uploads)
        && |textures| == old(|textures|) + |p.uploads|
        && gpu.images == old(gpu.images) + p.uploads
        && gpu.nextName == old(gpu.nextName) + |p.uploads|
      ensures !ok ==> (materials == old(materials) && textures == old(textures) &&
        gpu.images == old(gpu.images) && gpu.nextName == old(gpu.nextName))
    {
      var flat;
      ok, flat := LoadGlbMeshes(base, doc);
      if !ok {
        record := flat;
        return;
      }
      var materialsLoaded, indexed := LoadGlbMaterials(flat, doc);
      var transformsLoaded, placed := LoadGlbTransformations(indexed, doc);
      record := placed;
    }

    /** load_glb on an already parsed document (`None` when parsing failed):
        make sure a record exists under `name`, then import the document into it. */
    method LoadGlb(name: string, parsed: Option<Gltf.Document>) returns (ok: bool)
      requires Valid()
      requires parsed.Some? ==> GlbReadable(parsed.value)
      modifies this, gpu
      ensures Valid()
      ensures parsed.None? ==> !ok && models == old(models)
      ensures parsed.Some? ==> (ok == AllMeshesLoad(parsed.value) &&
        models == old(models)[name := Imported(Existing(old(models), name), parsed.value)])
      ensures ok ==>
        var p := PassOver(Requests(parsed.value), |parsed.value.meshes|, old(|textures|), old(gpu.nextName));
        && materials == old(materials) + p.materials
        && textures == old(textures) + Names(p.uploads)
        && |textures| == old(|textures|) + |p.uploads|
        && gpu.images == old(gpu.images) + p.uploads
        && gpu.nextName == old(gpu.nextName) + |p.uploads|
      ensures !ok ==> (materials == old(materials) && textures == old(textures) &&
        gpu.images == old(gpu.images) && gpu.nextName == old(gpu.nextName))
    {
      if parsed.None? {
        return false;
      }
      if name !in models {
        models := models[name := EmptyModel];
      }
      var record;
      ok, record := ImportGlb(models[name], parsed.value);
      models := models[name := record];
    }

    /** load_model: GLB files go to load_glb; every other format is refused
        and changes nothing. */
    method LoadModel(name: string, format: FileFormat, parsed: Option<Gltf.Document>) returns (ok: bool)
      requires Valid()
      requires format == GLB && parsed.Some? ==> GlbReadable(parsed.value)
      modifies this, gpu
      ensures Valid()
      ensures format != GLB ==> (!ok && models == old(models) && materials == old(materials) &&
        textures == old(textures) && gpu.images == old(gpu.images) && gpu.nextName == old(gpu.nextName))
      ensures format == GLB && parsed.Some? ==> (ok == AllMeshesLoad(parsed.value) &&
        models == old(models)[name := Imported(Existing(old(models), name), parsed.value)])
      ensures format == GLB && parsed.None? ==> !ok && models == old(models)
      ensures format == GLB && ok ==>
        var p := PassOver(Requests(parsed.value), |parsed.value.meshes|, old(|textures|), old(gpu.nextName));
        && materials == old(materials) + p.materials
        && textures == old(textures) + Names(p.uploads)
        && |textures| == old(|textures|) + |p.uploads|
        && gpu.images == old(gpu.images) + p.uploads
        && gpu.nextName == old(gpu.nextName) + |p.uploads|
      ensures !ok ==> (materials == old(materials) && textures == old(textures) &&
        gpu.images == old(gpu.images) && gpu.nextName == old(gpu.nextName))
    {
      match format {
        case GLB =>
          ok := LoadGlb(name, parsed);
        case _ =>
          ok := false;
      }
    }
  }
}
