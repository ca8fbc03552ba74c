/** The placement arithmetic of the signature overlay. Parsing the PDF and the
    image, and drawing the image into the page, belong to the PDF library and
    enter the model as functions of a `Renderer`. */
module Overlay {
  import opened Quotes

  /** A rectangle in the library's page coordinates: (x0, y0) is the top-left
      corner, (x1, y1) the bottom-right corner, and y grows downwards. */
  datatype Rect = Rect(x0: real, y0: real, x1: real, y1: real)

  /** What the overlay needs from the PDF library: the height of page 1 of a
      PDF, the width and height of page 1 of a decoded image, and the PDF
      bytes that result from drawing an image into a box on page 1. */
  datatype Renderer = Renderer(
    pageHeight: Bytes -> real,
    imageWidth: Bytes -> real,
    imageHeight: Bytes -> real,
    insertImage: (Bytes, Rect, Bytes) -> Bytes)

  /** The width a signature is scaled to when the caller gives none. */
  const DEFAULT_WIDTH: real := 180.0

  function Max(a: real, b: real): real {
    if a >= b then a else b
  }

  /** The box for an image of size `iw` x `ih` anchored `x` from the left and
      `y` from the bottom of a page `pageHeight` high, scaled to width `w`. The
      anchor becomes the box's bottom-left corner; the width below 1 is clamped
      to 1 before dividing. */
  function Placement(pageHeight: real, iw: real, ih: real, x: real, y: real, w: real): (box: Rect)
    ensures box.x0 == x && box.x1 - box.x0 == w
    ensures box.y1 == pageHeight - y
    ensures iw >= 1.0 ==> (box.y1 - box.y0) * iw == ih * w
    ensures iw < 1.0 ==> box.y1 - box.y0 == ih * w
  {
    var yTop := pageHeight - y;
    var scale := w / Max(iw, 1.0);
    var h := ih * scale;
    assert iw >= 1.0 ==> h * iw == ih * w by {
      if iw >= 1.0 {
        assert scale * iw == w;
      }
    }
    Rect(x, yTop - h, x + w, yTop)
  }

  /** The box keeps the image's aspect ratio whenever the image is at least one
      unit wide. */
  lemma AspectRatioPreserved(pageHeight: real, iw: real, ih: real, x: real, y: real, w: real)
    requires iw >= 1.0 && w > 0.0
    ensures var box := Placement(pageHeight, iw, ih, x, y, w);
      (box.y1 - box.y0) / (box.x1 - box.x0) == ih / iw
  {
    var box := Placement(pageHeight, iw, ih, x, y, w);
    var h := box.y1 - box.y0;
    assert h * iw == ih * w;
    assert h / w == ih / iw by {
      assert h == ih * w / iw;
    }
  }

  /** The box `overlay_signature` draws into. */
  function SignatureBox(r: Renderer, pdf: Bytes, png: Bytes, x: real, y: real, w: real): Rect {
    Placement(r.pageHeight(pdf), r.imageWidth(png), r.imageHeight(png), x, y, w)
  }

  /** The PDF produced by drawing `png` onto page 1 of `pdf` at the anchor: the
      library's drawing call, given a box whose left edge is `x`, whose width
      is `w`, whose bottom edge lies `y` above the bottom of the page and
      whose height is the image's height scaled by `w / max(iw, 1)`. */
  function OverlaySignature(r: Renderer, pdf: Bytes, png: Bytes, x: real, y: real, w: real): (out: Bytes)
    ensures exists box: Rect ::
              out == r.insertImage(pdf, box, png) &&
              box.x0 == x && box.x1 - box.x0 == w && box.y1 == r.pageHeight(pdf) - y &&
              (r.imageWidth(png) >= 1.0 ==> (box.y1 - box.y0) * r.imageWidth(png) == r.imageHeight(png) * w) &&
              (r.imageWidth(png) < 1.0 ==> box.y1 - box.y0 == r.imageHeight(png) * w)
  {
    r.insertImage(pdf, SignatureBox(r, pdf, png, x, y, w), png)
  }
}
