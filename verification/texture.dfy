/** Textures: the creation descriptor of include/texture.hpp with its
    defaults, and `Texture::create_texture`, whose GL calls are modelled by a
    `Gpu` object that hands out texture names and records uploaded images. */
module Textures {
  import opened Util

  const GL_TEXTURE_2D: uint32 := 0x0DE1
  const GL_UNSIGNED_BYTE: uint32 := 0x1401
  const GL_RED: uint32 := 0x1903
  const GL_RGB: uint32 := 0x1907
  const GL_RGBA: uint32 := 0x1908
  const GL_RG: uint32 := 0x8227
  const GL_NEAREST: uint32 := 0x2600
  const GL_LINEAR: uint32 := 0x2601
  const GL_NEAREST_MIPMAP_NEAREST: uint32 := 0x2700
  const GL_LINEAR_MIPMAP_NEAREST: uint32 := 0x2701
  const GL_NEAREST_MIPMAP_LINEAR: uint32 := 0x2702
  const GL_LINEAR_MIPMAP_LINEAR: uint32 := 0x2703
  const GL_CLAMP_TO_EDGE: uint32 := 0x812F

  /** `Texture::TextureConfig`. `internalFormat` carries the channel count and
      `format` the bit depth, as the loader fills them in. */
  datatype TextureConfig = TextureConfig(
    target: uint32,
    minFilter: uint32,
    magFilter: uint32,
    wrapS: uint32,
    wrapT: uint32,
    internalFormat: uint32,
    format: uint32,
    pixelType: uint32,
    width: uint32,
    height: uint32)

  const DefaultConfig: TextureConfig :=
    TextureConfig(GL_TEXTURE_2D, GL_NEAREST, GL_NEAREST, GL_CLAMP_TO_EDGE, GL_CLAMP_TO_EDGE, 0, 0, 0, 0, 0)

  /** The GL format for a channel count; the same enum serves as internal
      format and as pixel format. */
  function ChannelFormat(channels: uint32): (r: Option<uint32>)
    ensures r.Some? <==> 1 <= channels <= 4
    ensures r.Some? ==> r.value in {GL_RED, GL_RG, GL_RGB, GL_RGBA}
    ensures r == Some(GL_RED) <==> channels == 1
    ensures r == Some(GL_RG) <==> channels == 2
    ensures r == Some(GL_RGB) <==> channels == 3
    ensures r == Some(GL_RGBA) <==> channels == 4
  {
    match channels
    case 1 => Some(GL_RED)
    case 2 => Some(GL_RG)
    case 3 => Some(GL_RGB)
    case 4 => Some(GL_RGBA)
    case _ => None
  }

  /** The pixel type handed to glTexImage2D: the configured one, or unsigned byte when 0. */
  function PixelType(configured: uint32): (r: uint32)
    ensures r != 0
    ensures configured != 0 ==> r == configured
    ensures configured == 0 ==> r == GL_UNSIGNED_BYTE
  {
    if configured != 0 then configured else GL_UNSIGNED_BYTE
  }

  /** Mipmaps are generated exactly for the four mipmapping minification filters. */
  predicate IsMipmapFilter(f: uint32) {
    f == GL_LINEAR_MIPMAP_LINEAR || f == GL_LINEAR_MIPMAP_NEAREST ||
    f == GL_NEAREST_MIPMAP_LINEAR || f == GL_NEAREST_MIPMAP_NEAREST
  }

  /** The guards of create_texture that depend on the descriptor. */
  predicate Accepts(conf: TextureConfig) {
    conf.target == GL_TEXTURE_2D && conf.width != 0 && conf.height != 0 &&
    ChannelFormat(conf.internalFormat).Some?
  }

  /** One texture object as the GL sees it after create_texture: its name, the
      parameters set on it, the image given to glTexImage2D and whether
      glGenerateMipmap was called. */
  datatype TexImage = TexImage(
    name: nat,
    target: uint32,
    wrapS: uint32,
    wrapT: uint32,
    minFilter: uint32,
    magFilter: uint32,
    internalFormat: uint32,
    width: uint32,
    height: uint32,
    format: uint32,
    pixelType: uint32,
    pixels: seq<byte>,
    mipmapped: bool)

  /** The texture object create_texture leaves behind under `name` for an
      accepted descriptor: the channel count picks both formats, a zero pixel
      type means unsigned bytes, and mipmapping filters ask for mipmaps. */
  function Created(name: nat, conf: TextureConfig, data: seq<byte>): (r: TexImage)
    requires Accepts(conf)
    ensures r.name == name && r.pixels == data && r.internalFormat == r.format
    ensures r.internalFormat in {GL_RED, GL_RG, GL_RGB, GL_RGBA} && r.pixelType != 0
    ensures r.internalFormat == ChannelFormat(conf.internalFormat).value
    ensures r.pixelType == PixelType(conf.pixelType)
    ensures r.mipmapped <==> IsMipmapFilter(conf.minFilter)
    ensures r.target == GL_TEXTURE_2D && r.width == conf.width && r.height == conf.height
    ensures r.wrapS == conf.wrapS && r.wrapT == conf.wrapT
    ensures r.minFilter == conf.minFilter && r.magFilter == conf.magFilter
  {
    TexImage(name, conf.target, conf.wrapS, conf.wrapT, conf.minFilter, conf.magFilter,
             ChannelFormat(conf.internalFormat).value, conf.width, conf.height,
             ChannelFormat(conf.internalFormat).value, PixelType(conf.pixelType), data,
             IsMipmapFilter(conf.minFilter))
  }

  /** The GL context, reduced to what texture creation observes of it. */
  class Gpu {
    /** The next name glGenTextures hands out; names are never 0. */
    var nextName: nat
    /** Every texture created so far, in order. */
    var images: seq<TexImage>

    ghost predicate Valid()
      reads this
    {
      0 < nextName
    }

    constructor ()
      ensures Valid() && images == []
    {
      nextName := 1;
      images := [];
    }

    /** glGenTextures(1, &name) */
    method GenTexture() returns (name: nat)
      requires Valid()
      modifies this
      ensures Valid()
      ensures name == old(nextName) && name != 0
      ensures nextName == name + 1 && images == old(images)
    {
      name := nextName;
      nextName := nextName + 1;
    }

    /** glTexParameteri (wrap and filters), glTexImage2D and, when asked, glGenerateMipmap. */
    method TexImage2D(img: TexImage)
      modifies this
      ensures images == old(images) + [img] && nextName == old(nextName)
    {
      images := images + [img];
    }
  }

  /** `Texture`: a GL texture name, 0 until created. The destructor does not
      delete the name, so copies of a Texture share it without owning it. */
  class Texture {
    var ID: nat

    constructor ()
      ensures ID == 0
    {
      ID := 0;
    }

    /** Create the GL texture described by `conf` from `data`. Fails, with no
        GL call and ID unchanged, when the texture already exists, the target
        is not 2D, a dimension is 0 or the channel count is not 1 to 4. */
    method CreateTexture(conf: TextureConfig, data: seq<byte>, gpu: Gpu) returns (ok: bool)
      requires gpu.Valid()
      modifies this, gpu
      ensures gpu.Valid()
      ensures ok <==> old(ID) == 0 && Accepts(conf)
      ensures !ok ==> ID == old(ID) && gpu.nextName == old(gpu.nextName) && gpu.images == old(gpu.images)
      ensures ok ==> ID == old(gpu.nextName) && ID != 0 && gpu.nextName == ID + 1
      ensures ok ==> gpu.images == old(gpu.images) + [Created(ID, conf, data)]
    {
      if ID != 0 {
        return false;
      }
      if conf.target != GL_TEXTURE_2D {
        return false;
      }
      if conf.width == 0 || conf.height == 0 {
        return false;
      }
      var internalFormat: uint32, format: uint32;
      match conf.internalFormat {
        case 1 => internalFormat, format := GL_RED, GL_RED;
        case 2 => internalFormat, format := GL_RG, GL_RG;
        case 3 => internalFormat, format := GL_RGB, GL_RGB;
        case 4 => internalFormat, format := GL_RGBA, GL_RGBA;
        case _ => return false;
      }
      var pixelType := GL_UNSIGNED_BYTE;
      if conf.pixelType != 0 {
        pixelType := conf.pixelType;
      }
      ID := gpu.GenTexture();
      var mipmaps := conf.minFilter == GL_LINEAR_MIPMAP_LINEAR || conf.minFilter == GL_LINEAR_MIPMAP_NEAREST ||
                     conf.minFilter == GL_NEAREST_MIPMAP_LINEAR || conf.minFilter == GL_NEAREST_MIPMAP_NEAREST;
      gpu.TexImage2D(TexImage(ID, conf.target, conf.wrapS, conf.wrapT, conf.minFilter, conf.magFilter,
                              internalFormat, conf.width, conf.height, format, pixelType, data, mipmaps));
      ok := true;
    }
  }

  /** The mipmapping filters are exactly the enum values 0x2700 to 0x2703. */
  lemma MipmapFiltersAreContiguous(f: uint32)
    ensures IsMipmapFilter(f) <==> GL_NEAREST_MIPMAP_NEAREST <= f <= GL_LINEAR_MIPMAP_LINEAR
  {
  }

  /** The default descriptor has zero dimensions, so creating from it fails;
      its filters do not ask for mipmaps. */
  lemma DefaultConfigRejected()
    ensures !Accepts(DefaultConfig)
    ensures !IsMipmapFilter(DefaultConfig.minFilter)
  {
  }

  /** The bit depth (`format`) plays no part in the decision. */
  lemma BitDepthIgnored(conf: TextureConfig, bits: uint32)
    ensures Accepts(conf.(format := bits)) == Accepts(conf)
  {
  }

  /** Different channel counts never share a format. */
  lemma ChannelFormatInjective(a: uint32, b: uint32)
    requires ChannelFormat(a).Some? && ChannelFormat(a) == ChannelFormat(b)
    ensures a == b
  {
  }
}
