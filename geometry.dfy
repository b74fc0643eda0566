/** Placement arithmetic of the controller: where a model goes so that its
    centre lands on a given point, how it moves when its size changes, and
    how content is fitted into a template. */
module Geometry {
  import opened ScreenieTypes

  /** The diagonal step between successive images added in one batch. */
  const CascadeStep: real := 20.0

  /** The fixed footprint of a new template. */
  const TemplateSize: Size := Size(400, 400)

  /** The centre of the box with top-left corner p and size s. */
  function Centre(p: Point, s: Size): (c: Point)
  {
    Point(p.x + s.width as real / 2.0, p.y + s.height as real / 2.0)
  }

  /** calculateItemPosition(model, centerPosition): the top-left corner that
      puts a box of size s with its centre on `centre`. */
  function PositionForCentre(s: Size, centre: Point): (p: Point)
    ensures Centre(p, s) == centre
  {
    Point(centre.x - s.width as real / 2.0, centre.y - s.height as real / 2.0)
  }

  /** calculateItemPosition(sourcePosition, sourceSize, targetSize): the new
      top-left corner of a box resized from oldSize to newSize in place. */
  function ResizedPosition(pos: Point, oldSize: Size, newSize: Size): (p: Point)
    ensures Centre(p, newSize) == Centre(pos, oldSize)
    ensures oldSize == newSize ==> p == pos
  {
    Point(pos.x + oldSize.width as real / 2.0 - newSize.width as real / 2.0,
          pos.y + oldSize.height as real / 2.0 - newSize.height as real / 2.0)
  }

  /** The centre of the k-th image added by one addImages call. */
  function Cascade(centre: Point, k: nat): (p: Point)
    ensures p.x - centre.x == p.y - centre.y == k as real * CascadeStep
  {
    Point(centre.x + k as real * CascadeStep, centre.y + k as real * CascadeStep)
  }

  /** QSize::isEmpty: a size with no area. */
  predicate IsEmpty(s: Size)
  {
    s.width <= 0 || s.height <= 0
  }

  /** scaleToTemplate: the pixmap scaled to the size the template's fitter
      chooses, or the pixmap itself when the fitter asks for no resize.
      QPixmap::scaled gives a null pixmap when the target size is empty. */
  function ScaleToTemplate(fit: Fitter, footprint: Size, p: Pixmap): (r: Pixmap)
    ensures p.NullPixmap? ==> r.NullPixmap?
    ensures p.Image? && !fit(p.dims, footprint).0 ==> r == p
    ensures p.Image? && fit(p.dims, footprint).0 ==>
      var fitted := fit(p.dims, footprint).1;
      && (r.NullPixmap? <==> IsEmpty(fitted))
      && (r.Image? ==> r.content == p.content && r.dims == fitted)
      && PixmapSize(r) == (if IsEmpty(fitted) then Size(0, 0) else fitted)
  {
    match p
    case NullPixmap => p
    case Image(content, dims) =>
      var (doResize, fitted) := fit(dims, footprint);
      if !doResize then p
      else if IsEmpty(fitted) then NullPixmap
      else Image(content, fitted)
  }

  /** The size of a file-path model: the decoded image's size, fitted to the
      footprint of the template the model replaced, if any. */
  function FilePathSize(imageSize: string -> Size, fit: Fitter, path: string, fitFootprint: Option<Size>): (s: Size)
    ensures fitFootprint.None? ==> s == imageSize(path)
  {
    match fitFootprint
    case None => imageSize(path)
    case Some(footprint) =>
      var (doResize, fitted) := fit(imageSize(path), footprint);
      if doResize then fitted else imageSize(path)
  }
}
