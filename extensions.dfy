/** The string and rectangle extensions: mode parsing and mapping a face box onto the preview. */
module Extensions {
  import opened Constants

  /** `String.toRecognitionMode`: only the exact text "enroll" selects enrollment. */
  function ToRecognitionMode(s: string): (m: RecognitionMode)
    ensures m == ENROLL <==> s == ENROLL_MODE
    ensures m == VERIFY <==> s != ENROLL_MODE
  {
    if s == ENROLL_MODE then ENROLL else VERIFY
  }

  /** The camera selector's value for the front lens. */
  const LENS_FACING_FRONT: int := 0

  /** An integer rectangle in image coordinates. */
  datatype Rect = Rect(left: int, top: int, right: int, bottom: int)

  /** A rectangle in preview coordinates. */
  datatype RectF = RectF(left: real, top: real, right: real, bottom: real)

  /** The box as the front lens sees it: both horizontal edges reflected in the image width, not swapped. */
  function Mirrored(r: Rect, width: int): Rect
  {
    Rect(width - r.left, r.top, width - r.right, r.bottom)
  }

  /**
   * `Rect.transformToRectF`: scale by preview size over image size; with
   * the front lens the horizontal edges are first reflected. The reflected
   * edge `width - left` is a whole number, so its conversion back to `Int`
   * loses nothing.
   */
  function TransformToRectF(r: Rect, imgWidth: int, imgHeight: int, previewWidth: real, previewHeight: real,
                            lensFacing: int): (f: RectF)
    requires imgWidth != 0 && imgHeight != 0
    ensures f.top * (imgHeight as real) == previewHeight * (r.top as real)
    ensures f.bottom * (imgHeight as real) == previewHeight * (r.bottom as real)
    ensures lensFacing != LENS_FACING_FRONT ==>
      f.left * (imgWidth as real) == previewWidth * (r.left as real) &&
      f.right * (imgWidth as real) == previewWidth * (r.right as real)
    ensures lensFacing == LENS_FACING_FRONT ==>
      f.left * (imgWidth as real) == previewWidth * ((imgWidth - r.left) as real) &&
      f.right * (imgWidth as real) == previewWidth * ((imgWidth - r.right) as real)
  {
    var width := imgWidth as real;
    var height := imgHeight as real;
    var scaleX := previewWidth / width;
    var scaleY := previewHeight / height;
    var left := if lensFacing == LENS_FACING_FRONT then imgWidth - r.left else r.left;
    var right := if lensFacing == LENS_FACING_FRONT then imgWidth - r.right else r.right;
    RectF(scaleX * left as real, scaleY * r.top as real, scaleX * right as real, scaleY * r.bottom as real)
  }

  /** The front lens gives the same box as the back lens applied to the mirrored rectangle. */
  lemma FrontIsMirroredBack(r: Rect, imgWidth: int, imgHeight: int, previewWidth: real, previewHeight: real,
                            backLens: int)
    requires imgWidth != 0 && imgHeight != 0 && backLens != LENS_FACING_FRONT
    ensures TransformToRectF(r, imgWidth, imgHeight, previewWidth, previewHeight, LENS_FACING_FRONT) ==
            TransformToRectF(Mirrored(r, imgWidth), imgWidth, imgHeight, previewWidth, previewHeight, backLens)
  {
  }

  /** The vertical edges do not depend on the lens. */
  lemma VerticalIgnoresLens(r: Rect, imgWidth: int, imgHeight: int, previewWidth: real, previewHeight: real,
                            lens1: int, lens2: int)
    requires imgWidth != 0 && imgHeight != 0
    ensures TransformToRectF(r, imgWidth, imgHeight, previewWidth, previewHeight, lens1).top ==
            TransformToRectF(r, imgWidth, imgHeight, previewWidth, previewHeight, lens2).top
    ensures TransformToRectF(r, imgWidth, imgHeight, previewWidth, previewHeight, lens1).bottom ==
            TransformToRectF(r, imgWidth, imgHeight, previewWidth, previewHeight, lens2).bottom
  {
  }

  /** With the back lens and a preview the size of the image, the box is unchanged. */
  lemma BackLensSameSizeIdentity(r: Rect, imgWidth: int, imgHeight: int, lensFacing: int)
    requires imgWidth != 0 && imgHeight != 0 && lensFacing != LENS_FACING_FRONT
    ensures TransformToRectF(r, imgWidth, imgHeight, imgWidth as real, imgHeight as real, lensFacing) ==
            RectF(r.left as real, r.top as real, r.right as real, r.bottom as real)
  {
    var w := imgWidth as real;
    var h := imgHeight as real;
    assert w / w == 1.0;
    assert h / h == 1.0;
  }

  /**
   * The front lens reverses the horizontal order of the edges: with a
   * positive scale, a box whose left edge lies left of its right edge comes
   * out with its left edge on the right.
   */
  lemma FrontLensReversesEdges(r: Rect, imgWidth: int, imgHeight: int, previewWidth: real, previewHeight: real)
    requires imgWidth > 0 && imgHeight != 0 && previewWidth > 0.0 && r.left < r.right
    ensures var f := TransformToRectF(r, imgWidth, imgHeight, previewWidth, previewHeight, LENS_FACING_FRONT);
      f.left > f.right
  {
    var scaleX := previewWidth / imgWidth as real;
    assert scaleX > 0.0;
    var d := (r.right - r.left) as real;
    assert scaleX * ((imgWidth - r.left) as real) - scaleX * ((imgWidth - r.right) as real) == scaleX * d;
    assert scaleX * d > 0.0;
  }
}
