/**
 * The colour and image collaborators the tree reads from. Only the three
 * integer channels of a pixel take part in the model.
 */
module Pixels {
  import opened Geometry

  /** An 8-bit colour channel. */
  type Byte = c: int | 0 <= c < 256

  datatype Pixel = Pixel(r: Byte, g: Byte, b: Byte)

  datatype Channel = Red | Green | Blue

  function Get(p: Pixel, k: Channel): Byte {
    match k
    case Red => p.r
    case Green => p.g
    case Blue => p.b
  }

  /**
   * A raster image: its dimensions and a pixel lookup by column and row.
   * The lookup is total; construction only ever reads inside the image.
   */
  datatype Png = Png(width: U32, height: U32, at: (nat, nat) -> Pixel) {

    function PixelAt(p: Point): Pixel {
      at(p.x, p.y)
    }
  }
}
