/** What the controller's editing operations do to the scene's list of
    models, as functions of the old list: placing new images, updating a
    model's content in place or replacing it by a model of another variant,
    and pairing dropped content with the ordered templates. */
module SceneEdits {
  import opened ScreenieTypes
  import opened Geometry
  import opened ModelList

  /** Handles in the scene are distinct and all below the next fresh one. */
  predicate SceneOk(ms: seq<Model>, next: Handle)
  {
    DistinctKeys(ms, ModelHandle) && forall j :: 0 <= j < |ms| ==> ms[j].handle < next
  }

  /** The model with handle g is still in r, unchanged. */
  predicate Untouched(ms: seq<Model>, r: seq<Model>, g: Handle)
  {
    HasKey(ms, ModelHandle, g) && HasKey(r, ModelHandle, g) && Lookup(r, ModelHandle, g) == Lookup(ms, ModelHandle, g)
  }

  /** Every model of r was in ms or has a handle from next on. */
  predicate FreshOrOld(ms: seq<Model>, r: seq<Model>, next: Handle)
  {
    forall j :: 0 <= j < |r| ==> r[j].handle >= next || HasKey(ms, ModelHandle, r[j].handle)
  }

  /** getModels() contains a template (ScreenieScene::hasTemplates). */
  predicate HasTemplates(ms: seq<Model>)
  {
    exists j :: 0 <= j < |ms| && ms[j].variant.Template?
  }

  /** What the template organizer delivers: distinct handles of templates of
      the scene, in its priority order. */
  predicate TemplateTargets(ms: seq<Model>, targets: seq<Handle>)
  {
    && (forall a, b :: 0 <= a < b < |targets| ==> targets[a] != targets[b])
    && (forall k :: 0 <= k < |targets| ==>
          HasKey(ms, ModelHandle, targets[k]) && Lookup(ms, ModelHandle, targets[k]).variant.Template?)
  }

  /** The list the template organizer orders: every template of the scene,
      each once. */
  predicate OrderedTemplates(ms: seq<Model>, targets: seq<Handle>)
  {
    && TemplateTargets(ms, targets)
    && forall j :: 0 <= j < |ms| && ms[j].variant.Template? ==> ms[j].handle in targets
  }

  /** The organizer's list is empty exactly when the scene has no template. */
  lemma OrderedTemplatesEmpty(ms: seq<Model>, targets: seq<Handle>)
    requires OrderedTemplates(ms, targets)
    ensures HasTemplates(ms) <==> targets != []
  {
    if targets != [] {
      var k := FirstIndex(ms, ModelHandle, targets[0]);
      assert ms[k].variant.Template?;
    }
  }

  /** m carries the attribute values of the default model. */
  predicate HasDefaults(m: Model, d: Defaults)
  {
    && m.distance == d.distance && m.rotation == d.rotation
    && m.reflectionEnabled == d.reflectionEnabled
    && m.reflectionOffset == d.reflectionOffset && m.reflectionOpacity == d.reflectionOpacity
  }

  /** a and b agree on every attribute convert() carries over. */
  predicate SameAttributes(a: Model, b: Model)
  {
    && a.distance == b.distance && a.rotation == b.rotation
    && a.reflectionEnabled == b.reflectionEnabled
    && a.reflectionOffset == b.reflectionOffset && a.reflectionOpacity == b.reflectionOpacity
  }

  /** A freshly constructed model after applyDefaultValues and setPosition. */
  function NewModel(h: Handle, v: Variant, s: Size, d: Defaults, position: Point): (m: Model)
    ensures m.handle == h && m.variant == v && m.size == s && m.position == position
    ensures HasDefaults(m, d)
  {
    Model(h, v, s, position, d.rotation, d.distance, d.reflectionEnabled, d.reflectionOffset, d.reflectionOpacity)
  }

  // ---------------------------------------------------------------- adding

  /** The variant and size of the model addImages builds for each file path. */
  function FilePathSources(imageSize: string -> Size, paths: seq<string>): (r: seq<(Variant, Size)>)
    ensures |r| == |paths|
  {
    seq(|paths|, k requires 0 <= k < |paths| => (FilePath(paths[k], None), imageSize(paths[k])))
  }

  /** The variant and size of the model addImages builds for each pixmap. */
  function PixmapSources(pixmaps: seq<Pixmap>): (r: seq<(Variant, Size)>)
    ensures |r| == |pixmaps|
  {
    seq(|pixmaps|, k requires 0 <= k < |pixmaps| => (PixmapData(pixmaps[k]), PixmapSize(pixmaps[k])))
  }

  /** The models addImages appends to the scene, one per input, in input
      order: the k-th gets the k-th fresh handle, the default attributes, and
      is placed so that its centre is the drop point moved k diagonal steps. */
  function Placed(sources: seq<(Variant, Size)>, centre: Point, next: Handle, d: Defaults): (r: seq<Model>)
    ensures |r| == |sources|
    ensures forall k :: 0 <= k < |r| ==>
      && r[k].handle == next + k
      && r[k].variant == sources[k].0 && r[k].size == sources[k].1
      && Centre(r[k].position, r[k].size) == Cascade(centre, k)
      && HasDefaults(r[k], d)
  {
    seq(|sources|, k requires 0 <= k < |sources| =>
      NewModel(next + k, sources[k].0, sources[k].1, d, PositionForCentre(sources[k].1, Cascade(centre, k))))
  }

  /** Placing one more source extends the placed models by one, the next
      fresh handle and the next diagonal step. */
  lemma PlacedStep(sources: seq<(Variant, Size)>, centre: Point, next: Handle, d: Defaults, i: nat)
    requires i < |sources|
    ensures Placed(sources[..i + 1], centre, next, d)
         == Placed(sources[..i], centre, next, d)
            + [NewModel(next + i, sources[i].0, sources[i].1, d, PositionForCentre(sources[i].1, Cascade(centre, i)))]
  {
    var a, b := Placed(sources[..i + 1], centre, next, d), Placed(sources[..i], centre, next, d);
    assert forall k :: 0 <= k < i ==> a[k] == b[k];
  }

  /** Adding placed models keeps the handles distinct and valid. */
  lemma PlacedKeepsSceneOk(ms: seq<Model>, next: Handle, sources: seq<(Variant, Size)>, centre: Point, d: Defaults)
    requires SceneOk(ms, next)
    ensures SceneOk(ms + Placed(sources, centre, next, d), next + |sources|)
  {
    var r := ms + Placed(sources, centre, next, d);
    assert forall j :: |ms| <= j < |r| ==> r[j].handle == next + (j - |ms|);
  }

  /** The model addTemplate adds: a 400 x 400 template whose stored position
      is the given point itself. */
  function NewTemplate(h: Handle, centre: Point, d: Defaults): (m: Model)
    ensures m.variant == Template(TemplateSize) && m.size == TemplateSize
    ensures m.position == centre && m.handle == h && HasDefaults(m, d)
  {
    NewModel(h, Template(TemplateSize), TemplateSize, d, centre)
  }

  // ------------------------------------------------------------ conversion

  /** A new model of variant v and size s built by convert(old) and
      setPosition: it carries old's attributes and is centred where old was. */
  function Converted(source: Model, h: Handle, v: Variant, s: Size): (r: Model)
    ensures r.handle == h && r.variant == v && r.size == s
    ensures Centre(r.position, r.size) == Centre(source.position, source.size)
    ensures SameAttributes(r, source)
  {
    Model(h, v, s, ResizedPosition(source.position, source.size, s),
          source.rotation, source.distance, source.reflectionEnabled, source.reflectionOffset, source.reflectionOpacity)
  }

  /** The scene after removeModel(old) and addModel(new). */
  function Replace(ms: seq<Model>, h: Handle, m: Model): (r: seq<Model>)
  {
    Without(ms, ModelHandle, {h}) + [m]
  }

  /** The content of the model with handle h replaced in place by variant v
      of size s, its centre kept. */
  function UpdateInPlace(ms: seq<Model>, h: Handle, v: Variant, s: Size): (r: seq<Model>)
    requires HasKey(ms, ModelHandle, h)
    ensures |r| == |ms| && forall j :: 0 <= j < |ms| ==> r[j].handle == ms[j].handle
    ensures forall j :: 0 <= j < |ms| && ms[j].handle != h ==> r[j] == ms[j]
    ensures HasKey(r, ModelHandle, h)
    ensures var (was, now) := (Lookup(ms, ModelHandle, h), Lookup(r, ModelHandle, h));
      && now.variant == v && now.size == s && SameAttributes(now, was)
      && Centre(now.position, now.size) == Centre(was.position, was.size)
  {
    var k := FirstIndex(ms, ModelHandle, h);
    ms[k := ms[k].(variant := v, size := s, position := ResizedPosition(ms[k].position, ms[k].size, s))]
  }

  /** updatePixmapModel: the scene and the next fresh handle afterwards. */
  function UpdatePixmap(ms: seq<Model>, next: Handle, h: Handle, p: Pixmap, fit: Fitter): (after: (seq<Model>, Handle))
    requires HasKey(ms, ModelHandle, h)
    ensures after.1 == next || after.1 == next + 1
    ensures after.1 == next + 1 <==> p.Image? && !Lookup(ms, ModelHandle, h).variant.PixmapData?
  {
    if p.NullPixmap? then (ms, next)
    else
      var m := Lookup(ms, ModelHandle, h);
      if m.variant.PixmapData? then (UpdateInPlace(ms, h, PixmapData(p), PixmapSize(p)), next)
      else
        var actual := ActualPixmap(m, p, fit);
        (Replace(ms, h, Converted(m, next, PixmapData(actual), PixmapSize(actual))), next + 1)
  }

  /** The pixmap a model converted by updatePixmapModel holds: the given one,
      fitted to the footprint when the converted model is a template. */
  function ActualPixmap(was: Model, p: Pixmap, fit: Fitter): (a: Pixmap)
  {
    if was.variant.Template? then ScaleToTemplate(fit, was.variant.footprint, p) else p
  }

  /** The fitter a file-path model inherits from the model it replaces: that
      of a template, none otherwise. */
  function InheritedFootprint(m: Model): (fp: Option<Size>)
  {
    if m.variant.Template? then Some(m.variant.footprint) else None
  }

  /** updateFilePathModel: the scene and the next fresh handle afterwards. */
  function UpdateFilePath(ms: seq<Model>, next: Handle, h: Handle, path: string,
                          imageSize: string -> Size, fit: Fitter): (after: (seq<Model>, Handle))
    requires HasKey(ms, ModelHandle, h)
    ensures after.1 == next || after.1 == next + 1
    ensures after.1 == next + 1 <==> !Lookup(ms, ModelHandle, h).variant.FilePath?
  {
    var m := Lookup(ms, ModelHandle, h);
    if m.variant.FilePath? then
      var fp := m.variant.fitFootprint;
      (UpdateInPlace(ms, h, FilePath(path, fp), FilePathSize(imageSize, fit, path, fp)), next)
    else
      var fp := InheritedFootprint(m);
      (Replace(ms, h, Converted(m, next, FilePath(path, fp), FilePathSize(imageSize, fit, path, fp))), next + 1)
  }

  /** Taking one model out keeps the handles valid. */
  lemma RemoveAtKeepsSceneOk(ms: seq<Model>, next: Handle, k: nat)
    requires SceneOk(ms, next) && k < |ms|
    ensures SceneOk(ms[..k] + ms[k + 1..], next)
  {
    var r := ms[..k] + ms[k + 1..];
    assert forall j :: 0 <= j < |r| ==> r[j] == ms[if j < k then j else j + 1];
  }

  /** Replacing a model keeps the scene's length and the other models, and
      drops the replaced handle. */
  lemma ReplaceFacts(ms: seq<Model>, next: Handle, h: Handle, m: Model)
    requires SceneOk(ms, next) && HasKey(ms, ModelHandle, h) && m.handle == next
    ensures var r := Replace(ms, h, m);
      && |r| == |ms| && SceneOk(r, next + 1) && r[|r| - 1] == m
      && !HasKey(r, ModelHandle, h)
      && (forall j :: 0 <= j < |r| - 1 ==> HasKey(ms, ModelHandle, r[j].handle))
      && forall g :: g != h && HasKey(ms, ModelHandle, g) ==>
           HasKey(r, ModelHandle, g) && Lookup(r, ModelHandle, g) == Lookup(ms, ModelHandle, g)
  {
    var w := Without(ms, ModelHandle, {h});
    WithoutOneLength(ms, ModelHandle, h);
    WithoutDistinct(ms, ModelHandle, {h});
    WithoutMembers(ms, ModelHandle, {h});
    forall j | 0 <= j < |w| ensures w[j].handle < next && w[j].handle != h && HasKey(ms, ModelHandle, w[j].handle) {
      assert w[j] in ms && ModelHandle(w[j]) !in {h};
    }
    forall g | g != h && HasKey(ms, ModelHandle, g)
      ensures HasKey(w + [m], ModelHandle, g) && Lookup(w + [m], ModelHandle, g) == Lookup(ms, ModelHandle, g)
    {
      LookupWithout(ms, ModelHandle, {h}, g);
      LookupBefore(w, [m], ModelHandle, g);
    }
  }

  /** Updating the model with handle h by a pixmap: a null pixmap changes
      nothing; a pixmap model is updated in place; any other model is
      replaced by a new pixmap model with a fresh handle that carries its
      attributes and keeps its centre. The scene keeps its length, and every
      other model is untouched. */
  lemma UpdatePixmapFacts(ms: seq<Model>, next: Handle, h: Handle, p: Pixmap, fit: Fitter)
    requires SceneOk(ms, next) && HasKey(ms, ModelHandle, h)
    ensures var (r, n) := UpdatePixmap(ms, next, h, p, fit);
      var was := Lookup(ms, ModelHandle, h);
      && |r| == |ms| && SceneOk(r, n) && next <= n
      && (forall j :: 0 <= j < |r| ==> r[j].handle >= next || HasKey(ms, ModelHandle, r[j].handle))
      && (p.NullPixmap? ==> r == ms && n == next)
      && (p.Image? && was.variant.PixmapData? ==>
            && n == next && HasKey(r, ModelHandle, h)
            && Lookup(r, ModelHandle, h).variant == PixmapData(p)
            && Lookup(r, ModelHandle, h).size == PixmapSize(p)
            && SameAttributes(Lookup(r, ModelHandle, h), was)
            && Centre(Lookup(r, ModelHandle, h).position, PixmapSize(p)) == Centre(was.position, was.size))
      && (p.Image? && !was.variant.PixmapData? ==>
            && n == next + 1 && !HasKey(r, ModelHandle, h)
            && r[|r| - 1].handle == next
            && r[|r| - 1].variant == PixmapData(ActualPixmap(was, p, fit))
            && r[|r| - 1].size == PixmapSize(ActualPixmap(was, p, fit))
            && SameAttributes(r[|r| - 1], was)
            && Centre(r[|r| - 1].position, r[|r| - 1].size) == Centre(was.position, was.size))
      && (forall g :: g != h && HasKey(ms, ModelHandle, g) ==>
            HasKey(r, ModelHandle, g) && Lookup(r, ModelHandle, g) == Lookup(ms, ModelHandle, g))
  {
    var was := Lookup(ms, ModelHandle, h);
    if p.Image? {
      if was.variant.PixmapData? {
        InPlaceFacts(ms, next, h, PixmapData(p), PixmapSize(p));
      } else {
        var actual := ActualPixmap(was, p, fit);
        ReplaceFacts(ms, next, h, Converted(was, next, PixmapData(actual), PixmapSize(actual)));
      }
    }
  }

  /** Updating a file-path model in place keeps its handle; any other model
      is replaced by a new file-path model with a fresh handle that carries
      its attributes and keeps its centre, and that inherits the fitter of a
      replaced template. The scene keeps its length, and every other model is
      untouched. */
  lemma UpdateFilePathFacts(ms: seq<Model>, next: Handle, h: Handle, path: string,
                            imageSize: string -> Size, fit: Fitter)
    requires SceneOk(ms, next) && HasKey(ms, ModelHandle, h)
    ensures var (r, n) := UpdateFilePath(ms, next, h, path, imageSize, fit);
      var was := Lookup(ms, ModelHandle, h);
      && |r| == |ms| && SceneOk(r, n) && next <= n
      && (forall j :: 0 <= j < |r| ==> r[j].handle >= next || HasKey(ms, ModelHandle, r[j].handle))
      && (was.variant.FilePath? ==>
            && n == next && HasKey(r, ModelHandle, h)
            && Lookup(r, ModelHandle, h).variant == FilePath(path, was.variant.fitFootprint)
            && Lookup(r, ModelHandle, h).size == FilePathSize(imageSize, fit, path, was.variant.fitFootprint)
            && SameAttributes(Lookup(r, ModelHandle, h), was)
            && Centre(Lookup(r, ModelHandle, h).position, Lookup(r, ModelHandle, h).size)
               == Centre(was.position, was.size))
      && (!was.variant.FilePath? ==>
            && n == next + 1 && !HasKey(r, ModelHandle, h)
            && r[|r| - 1].handle == next
            && r[|r| - 1].variant == FilePath(path, InheritedFootprint(was))
            && r[|r| - 1].size == FilePathSize(imageSize, fit, path, InheritedFootprint(was))
            && SameAttributes(r[|r| - 1], was)
            && Centre(r[|r| - 1].position, r[|r| - 1].size) == Centre(was.position, was.size))
      && (forall g :: g != h && HasKey(ms, ModelHandle, g) ==>
            HasKey(r, ModelHandle, g) && Lookup(r, ModelHandle, g) == Lookup(ms, ModelHandle, g))
  {
    var was := Lookup(ms, ModelHandle, h);
    if was.variant.FilePath? {
      var fp := was.variant.fitFootprint;
      InPlaceFacts(ms, next, h, FilePath(path, fp), FilePathSize(imageSize, fit, path, fp));
    } else {
      var fp := InheritedFootprint(was);
      ReplaceFacts(ms, next, h, Converted(was, next, FilePath(path, fp), FilePathSize(imageSize, fit, path, fp)));
    }
  }

  /** An update in place keeps every handle where it was, so every other
      model is found unchanged. */
  lemma InPlaceFacts(ms: seq<Model>, next: Handle, h: Handle, v: Variant, s: Size)
    requires SceneOk(ms, next) && HasKey(ms, ModelHandle, h)
    ensures var r := UpdateInPlace(ms, h, v, s);
      && SceneOk(r, next)
      && (forall j :: 0 <= j < |r| ==> HasKey(ms, ModelHandle, r[j].handle))
      && (forall g :: g != h && HasKey(ms, ModelHandle, g) ==>
            HasKey(r, ModelHandle, g) && Lookup(r, ModelHandle, g) == Lookup(ms, ModelHandle, g))
  {
    var r := UpdateInPlace(ms, h, v, s);
    forall j | 0 <= j < |r| ensures HasKey(ms, ModelHandle, r[j].handle) {
      assert ModelHandle(ms[j]) == r[j].handle;
    }
    forall g | g != h && HasKey(ms, ModelHandle, g)
      ensures HasKey(r, ModelHandle, g) && Lookup(r, ModelHandle, g) == Lookup(ms, ModelHandle, g)
    {
      var k := FirstIndex(ms, ModelHandle, g);
      assert ModelHandle(r[k]) == g;
      assert FirstIndex(r, ModelHandle, g) == k;
    }
  }

  /** The pixmap model that takes the place of template was when pixmap p
      is dropped on it: it holds p fitted to the template's footprint, and
      carries the template's attributes and centre. */
  function PixmapFilledTemplate(was: Model, h: Handle, p: Pixmap, fit: Fitter): (m: Model)
    requires was.variant.Template?
    ensures m.handle == h && m.variant == PixmapData(ScaleToTemplate(fit, was.variant.footprint, p))
    ensures m.size == PixmapSize(ScaleToTemplate(fit, was.variant.footprint, p))
    ensures SameAttributes(m, was) && Centre(m.position, m.size) == Centre(was.position, was.size)
  {
    var a := ScaleToTemplate(fit, was.variant.footprint, p);
    Converted(was, h, PixmapData(a), PixmapSize(a))
  }

  /** A template updated by a pixmap: a null pixmap changes nothing, any
      other pixmap replaces the template by the pixmap model holding it,
      fitted, with a fresh handle; every other model is untouched. */
  lemma UpdateTemplateByPixmap(ms: seq<Model>, next: Handle, h: Handle, p: Pixmap, fit: Fitter)
    requires SceneOk(ms, next) && HasKey(ms, ModelHandle, h) && Lookup(ms, ModelHandle, h).variant.Template?
    ensures var (r, n) := UpdatePixmap(ms, next, h, p, fit);
      var was := Lookup(ms, ModelHandle, h);
      && |r| == |ms| && SceneOk(r, n) && next <= n && FreshOrOld(ms, r, next)
      && (p.NullPixmap? ==> r == ms && n == next)
      && (p.Image? ==>
            && n == next + 1 && !HasKey(r, ModelHandle, h)
            && r == Replace(ms, h, PixmapFilledTemplate(was, next, p, fit)))
      && (forall g :: g != h && HasKey(ms, ModelHandle, g) ==> Untouched(ms, r, g))
  {
    UpdatePixmapFacts(ms, next, h, p, fit);
  }

  /** The file-path model that takes the place of template was: it inherits
      the template's fitter, attributes and centre, and its size is that of
      the file's image fitted to the template's footprint. */
  function FilledTemplate(was: Model, h: Handle, path: string, imageSize: string -> Size, fit: Fitter): (m: Model)
    requires was.variant.Template?
    ensures m.handle == h && m.variant == FilePath(path, Some(was.variant.footprint))
    ensures m.size == FilePathSize(imageSize, fit, path, Some(was.variant.footprint))
    ensures SameAttributes(m, was) && Centre(m.position, m.size) == Centre(was.position, was.size)
  {
    var fp := Some(was.variant.footprint);
    Converted(was, h, FilePath(path, fp), FilePathSize(imageSize, fit, path, fp))
  }

  /** A template updated by a file path is replaced by a model with a fresh
      handle; every other model is untouched. */
  lemma UpdateTemplateByFilePath(ms: seq<Model>, next: Handle, h: Handle, path: string,
                                 imageSize: string -> Size, fit: Fitter)
    requires SceneOk(ms, next) && HasKey(ms, ModelHandle, h) && Lookup(ms, ModelHandle, h).variant.Template?
    ensures var (r, n) := UpdateFilePath(ms, next, h, path, imageSize, fit);
      var was := Lookup(ms, ModelHandle, h);
      && |r| == |ms| && SceneOk(r, n) && n == next + 1 && FreshOrOld(ms, r, next)
      && r == Replace(ms, h, FilledTemplate(was, next, path, imageSize, fit))
      && !HasKey(r, ModelHandle, h)
      && (forall g :: g != h && HasKey(ms, ModelHandle, g) ==> Untouched(ms, r, g))
  {
    UpdateFilePathFacts(ms, next, h, path, imageSize, fit);
  }
}
