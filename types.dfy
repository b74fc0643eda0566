/** Entities of the Screenie scene: placed-image models (three variants), the
    on-canvas items bound to them, and the attribute changes the controller
    applies to the selected models. */
module ScreenieTypes {

  datatype Option<T> = None | Some(value: T)

  /** Identity of a placed-image model (the address of the C++ object). */
  type Handle = nat

  /** QPointF, with qreal idealised as a real number. */
  datatype Point = Point(x: real, y: real)

  /** QSize: integer width and height. */
  datatype Size = Size(width: int, height: int)

  /** A QPixmap: null, or pixel data (abstracted to an identity) of some size. */
  datatype Pixmap = NullPixmap | Image(content: nat, dims: Size)

  /** QPixmap::size(): a null pixmap is 0 x 0. */
  function PixmapSize(p: Pixmap): (s: Size)
  {
    match p
    case NullPixmap => Size(0, 0)
    case Image(_, dims) => dims
  }

  /** The SizeFitter of a template: given the size of some content and the
      template's footprint, whether to resize and to what size. Its rule is
      not part of this model. */
  type Fitter = (Size, Size) -> (bool, Size)

  /** The three model classes: ScreenieFilePathModel (optionally created with
      the SizeFitter of the template it replaced), ScreeniePixmapModel and
      ScreenieTemplateModel. */
  datatype Variant =
    | FilePath(path: string, fitFootprint: Option<Size>)
    | PixmapData(pixmap: Pixmap)
    | Template(footprint: Size)

  /** A placed-image model: the attributes of ScreenieModelInterface. */
  datatype Model = Model(
    handle: Handle,
    variant: Variant,
    size: Size,
    position: Point,
    rotation: int,
    distance: int,
    reflectionEnabled: bool,
    reflectionOffset: int,
    reflectionOpacity: int)

  /** The two render-quality levels: fast transformation and plain hints, or
      smooth transformation with antialiasing. */
  datatype RenderQuality = Low | High

  /** A ScreeniePixmapItem: its back-reference to a model, its position,
      whether it is selected, its z-value and its transformation mode. */
  datatype Item = Item(model: Handle, pos: Point, selected: bool, z: int, mode: RenderQuality)

  /** The drag-and-drop payload: image data, if any, and the dropped URLs as
      local file paths. */
  datatype MimeData = MimeData(image: Option<Pixmap>, urls: seq<string>)

  /** DefaultScreenieModel: the attribute values every new model starts with. */
  datatype Defaults = Defaults(
    distance: int,
    rotation: int,
    reflectionEnabled: bool,
    reflectionOffset: int,
    reflectionOpacity: int)

  /** One batch setter of the controller, as applied to one model. */
  datatype Change =
    | Translate(dx: real, dy: real)
    | SetRotation(angle: int)
    | Rotate(delta: int)
    | SetDistance(distance: int)
    | AddDistance(delta: int)
    | SetReflectionEnabled(enable: bool)
    | SetReflectionOffset(offset: int)
    | AddReflectionOffset(delta: int)
    | SetReflectionOpacity(opacity: int)
    | AddReflectionOpacity(delta: int)
  {
    /** The changes that make the scene emit distanceChanged. */
    predicate ChangesDistance() {
      SetDistance? || AddDistance?
    }
  }

  /** The effect of one change on one model: the one attribute the setter
      names gets its new value; identity, content, size and every other
      attribute are kept. */
  function Apply(c: Change, m: Model): (r: Model)
    ensures r.handle == m.handle && r.variant == m.variant && r.size == m.size
    ensures c.Translate? ==> r.position == Point(m.position.x + c.dx, m.position.y + c.dy)
    ensures !c.Translate? ==> r.position == m.position
    ensures c.SetRotation? ==> r.rotation == c.angle
    ensures c.Rotate? ==> r.rotation == m.rotation + c.delta
    ensures !(c.SetRotation? || c.Rotate?) ==> r.rotation == m.rotation
    ensures c.SetDistance? ==> r.distance == c.distance
    ensures c.AddDistance? ==> r.distance == m.distance + c.delta
    ensures !c.ChangesDistance() ==> r.distance == m.distance
    ensures c.SetReflectionEnabled? ==> r.reflectionEnabled == c.enable
    ensures !c.SetReflectionEnabled? ==> r.reflectionEnabled == m.reflectionEnabled
    ensures c.SetReflectionOffset? ==> r.reflectionOffset == c.offset
    ensures c.AddReflectionOffset? ==> r.reflectionOffset == m.reflectionOffset + c.delta
    ensures !(c.SetReflectionOffset? || c.AddReflectionOffset?) ==> r.reflectionOffset == m.reflectionOffset
    ensures c.SetReflectionOpacity? ==> r.reflectionOpacity == c.opacity
    ensures c.AddReflectionOpacity? ==> r.reflectionOpacity == m.reflectionOpacity + c.delta
    ensures !(c.SetReflectionOpacity? || c.AddReflectionOpacity?) ==> r.reflectionOpacity == m.reflectionOpacity
  {
    match c
    case Translate(dx, dy) => m.(position := Point(m.position.x + dx, m.position.y + dy))
    case SetRotation(angle) => m.(rotation := angle)
    case Rotate(delta) => m.(rotation := m.rotation + delta)
    case SetDistance(distance) => m.(distance := distance)
    case AddDistance(delta) => m.(distance := m.distance + delta)
    case SetReflectionEnabled(enable) => m.(reflectionEnabled := enable)
    case SetReflectionOffset(offset) => m.(reflectionOffset := offset)
    case AddReflectionOffset(delta) => m.(reflectionOffset := m.reflectionOffset + delta)
    case SetReflectionOpacity(opacity) => m.(reflectionOpacity := opacity)
    case AddReflectionOpacity(delta) => m.(reflectionOpacity := m.reflectionOpacity + delta)
  }
}
