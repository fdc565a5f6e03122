/** Values shared by the scaling, thumbnail and viewer models of the PDF reader. */
module Pixmaps {

  /** Width and height in pixels: of a bitmap, of a label on screen, or of a fitting box.
      A box computed by subtracting margins from a label that is not laid out yet may be
      zero or negative, so both fields are plain integers. */
  datatype Size = Size(width: int, height: int)

  /** What the external rasterizer (page loading, pixmap rendering and the conversion to a
      displayable image) yields for one page: a bitmap of the given size, or an exception. */
  datatype Render = Rendered(width: nat, height: nat) | RenderFailed

  datatype Option<T> = None | Some(value: T)
}
