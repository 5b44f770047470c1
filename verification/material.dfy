/** The material record of include/material.hpp with its default values. */
module Materials {
  import opened Util

  /** Alpha coverage modes, section 3.9.4 of the glTF 2.0 specification. */
  datatype AlphaMode = OPAQUE | MASK | BLEND

  datatype Color = Color(r: real, g: real, b: real, a: real)

  /** Texture indices point into the global texture list; -1 means "none". */
  datatype Material = Material(
    doubleSided: bool,
    mode: AlphaMode,
    alphaCutoff: real,
    baseColor: Color,
    metalness: real,
    roughness: real,
    baseColorTextureIdx: int32,
    metallicRoughnessTextureIdx: int32,
    normalTextureIdx: int32,
    emissiveTextureIdx: int32)

  /** `Material{}`: single-sided, opaque, cutoff 0.5, white, fully metallic,
      roughness 0, no textures. */
  const Default: Material := Material(false, OPAQUE, 0.5, Color(1.0, 1.0, 1.0, 1.0), 1.0, 0.0, -1, -1, -1, -1)
}
