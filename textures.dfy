/** Texture previews and the loader that makes them: decode an image file and
    hand its pixels to a fresh GL texture. The decoder and the GL name
    generator are collaborators; only their results enter the model. */
module Textures {

  datatype Option<T> = None | Some(value: T)

  /** A C `int`. */
  type Int32 = x: int | -0x8000_0000 <= x < 0x8000_0000

  /** A GL texture name (`GLuint`). */
  type GLuint = x: int | 0 <= x < 0x1_0000_0000

  /** What a successful decode reports: the image's dimensions (the pixel
      bytes go straight to GL and are not modelled). */
  datatype Image = Image(width: Int32, height: Int32)

  /** The cached preview of one file: its dimensions and the GL texture
      holding its pixels. */
  datatype TexturePreview = TexturePreview(width: Int32, height: Int32, textureId: GLuint)

  /** Loads `filename` into a texture. `decode` is the image decoder (None
      when it yields no pixels), `generated` the name GL hands out for the
      new texture. The three out-pointers are modelled as the values they
      hold before the call (`texture`, `width`, `height`) and after it
      (`outTexture`, `outWidth`, `outHeight`): a failed decode returns false
      and writes none of them; a successful one writes all three. */
  method LoadTextureFromFile(filename: string, decode: string -> Option<Image>, generated: GLuint,
                             texture: GLuint, width: Int32, height: Int32)
    returns (ok: bool, outTexture: GLuint, outWidth: Int32, outHeight: Int32)
    ensures ok <==> decode(filename).Some?
    ensures !ok ==> outTexture == texture && outWidth == width && outHeight == height
    ensures ok ==> outTexture == generated
                   && outWidth == decode(filename).value.width
                   && outHeight == decode(filename).value.height
  {
    var imageData := decode(filename);
    if imageData.None? {
      return false, texture, width, height;
    }
    var imageTexture := generated;
    outTexture, outWidth, outHeight := imageTexture, imageData.value.width, imageData.value.height;
    ok := true;
  }
}
