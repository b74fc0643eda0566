/** The controller: every change of the scene's models goes through it; it
    keeps one canvas item per model, bound to it and in depth order, and
    lowers the render quality during interaction until a single-shot timer
    restores it. */
module Control {
  import opened ScreenieTypes
  import opened Geometry
  import opened ModelList
  import opened DepthOrder
  import opened SceneEdits
  import opened DropPairing
  import opened Canvas

  class ScreenieControl {
    /** The scene's models (ScreenieScene::getModels), in order. */
    var models: seq<Model>
    /** The handle the next model constructed gets. */
    var nextHandle: Handle
    /** The pixmap items of the graphics scene, in items() order. */
    var items: seq<Item>
    /** The render hints last given to the views. */
    var viewQuality: RenderQuality
    /** Whether the single-shot quality timer is running. */
    var timerArmed: bool
    /** The default model: the attribute values every new model gets. */
    var defaults: Defaults
    /** Image decoding: the size of the image stored at a path. */
    const imageSize: string -> Size
    /** The SizeFitter rule of the templates. */
    const fit: Fitter
    /** The transformation mode a new item starts in. */
    const itemMode: RenderQuality

    /** Every model has its item, at the same rank, in depth order, and the
        handles are distinct and below the next fresh one. */
    ghost predicate Valid()
      reads this
    {
      Consistent(models, items, nextHandle)
    }

    /** A controller over an empty scene and an empty canvas. */
    constructor(imageSize: string -> Size, fit: Fitter, itemMode: RenderQuality, defaults: Defaults)
      ensures Valid() && models == [] && items == [] && !timerArmed && viewQuality == High
      ensures this.imageSize == imageSize && this.fit == fit && this.itemMode == itemMode
      ensures this.defaults == defaults
    {
      models := [];
      nextHandle := 0;
      items := [];
      viewQuality := High;
      timerArmed := false;
      this.defaults := defaults;
      this.imageSize := imageSize;
      this.fit := fit;
      this.itemMode := itemMode;
    }

    // ------------------------------------------------------------ selection

    /** getSelectedScreenieModels: the models of the selected items, each
        once, in item order. */
    method GetSelectedScreenieModels() returns (hs: seq<Handle>)
      ensures hs == SelectedHandles(items)
      ensures forall h :: h in hs <==> h in SelectedSet(items)
    {
      hs := [];
      var i := 0;
      while i < |items|
        invariant 0 <= i <= |items|
        invariant hs == SelectedHandles(items[..i])
      {
        assert items[..i + 1][..i] == items[..i];
        if items[i].selected {
          hs := hs + [items[i].model];
        }
        i := i + 1;
      }
      assert items[..|items|] == items;
      SelectedHandlesMembers(items);
    }

    /** selectAll: every item becomes selected. */
    method SelectAll()
      requires Valid()
      modifies this`items
      ensures Valid()
      ensures |items| == |old(items)|
      ensures forall j :: 0 <= j < |items| ==> items[j] == old(items)[j].(selected := true)
    {
      var i := 0;
      while i < |items|
        invariant 0 <= i <= |items| == |old(items)|
        invariant forall j :: 0 <= j < |items| ==> items[j] == if j < i then old(items)[j].(selected := true) else old(items)[j]
      {
        items := items[i := items[i].(selected := true)];
        i := i + 1;
      }
    }

    // ------------------------------------------------------- depth and items

    /** handleDistanceChanged: the items are sorted by zSort on the distance
        of their models and get the z-values 0, 1, 2, ... in that order. */
    method HandleDistanceChanged()
      requires |items| <= |models| && Bound(models[..|items|], items)
      modifies this`items
      ensures Shape(items) == Shape(old(items))
      ensures DepthOrdered(models[..|items|], items)
      ensures forall j :: 0 <= j < |items| ==> 0 <= items[j].z < |items|
      ensures forall a, b :: 0 <= a < b < |items| ==> items[a].z != items[b].z
    {
      var n := |items|;
      var ms := models[..n];
      var ds := seq(n, j requires 0 <= j < n => ms[j].distance);
      var order := SortByDistance(ds);
      var z := 0;
      while z < n
        invariant 0 <= z <= n && |items| == n
        invariant Shape(items) == Shape(old(items))
        invariant forall k :: 0 <= k < z ==> items[order[k]].z == k
      {
        items := items[order[z] := items[order[z]].(z := z)];
        z := z + 1;
      }
      var its := items;
      var zs := seq(n, j requires 0 <= j < n => its[j].z);
      RanksRespectZSort(ds, order, zs);
      assert models[..|items|] == ms;
      assert forall j :: 0 <= j < n ==> zs[j] == items[j].z && ds[j] == ms[j].distance;
    }

    /** handleModelAdded(m), m being the model just appended to the scene: a
        new selected item for m, the only selected one, then the depth order
        is restored. */
    method HandleModelAdded(m: Model)
      requires |items| < |models| && models[|items|] == m && Bound(models[..|items|], items)
      modifies this`items
      ensures Shape(items) == Shape(Deselected(old(items)) + [NewItem(m, itemMode)])
      ensures |items| == |old(items)| + 1
      ensures Bound(models[..|items|], items) && DepthOrdered(models[..|items|], items)
      ensures forall j :: 0 <= j < |items| ==> 0 <= items[j].z < |items|
      ensures forall a, b :: 0 <= a < b < |items| ==> items[a].z != items[b].z
    {
      var n := |items|;
      items := Deselected(items) + [NewItem(m, itemMode)];
      assert Bound(models[..n + 1], items) by {
        assert forall j :: 0 <= j < n ==> models[..n + 1][j] == models[..n][j];
      }
      HandleDistanceChanged();
    }

    /** handleModelRemoved(h): the first item bound to h leaves the canvas;
        nothing happens when there is none. */
    method HandleModelRemoved(h: Handle)
      modifies this`items
      ensures var k := FirstIndex(old(items), ItemModel, h);
        && (k < |old(items)| ==> items == old(items)[..k] + old(items)[k + 1..])
        && (k == |old(items)| ==> items == old(items))
    {
      var i := 0;
      while i < |items|
        invariant 0 <= i <= |items| && items == old(items)
        invariant forall j :: 0 <= j < i ==> items[j].model != h
      {
        if items[i].model == h {
          items := items[..i] + items[i + 1..];
          return;
        }
        i := i + 1;
      }
    }

    /** updateScene: the canvas is cleared and every model of the scene gets
        a new item again, in scene order, so that the items are bound and in
        depth order whatever the canvas held; the last item is the only
        selected one. */
    method UpdateScene()
      requires SceneOk(models, nextHandle)
      modifies this`items
      ensures Valid()
      ensures forall j :: 0 <= j < |items| ==> items[j].pos == models[j].position && items[j].mode == itemMode
      ensures forall j :: 0 <= j < |items| ==> (items[j].selected <==> j == |items| - 1)
    {
      items := [];
      var i := 0;
      while i < |models|
        invariant 0 <= i <= |models| && |items| == i
        invariant Bound(models[..i], items) && DepthOrdered(models[..i], items)
        invariant forall j :: 0 <= j < i ==> items[j].pos == models[j].position && items[j].mode == itemMode
        invariant forall j :: 0 <= j < i ==> (items[j].selected <==> j == i - 1)
        modifies this`items
      {
        ghost var before := items;
        HandleModelAdded(models[i]);
        forall j | 0 <= j <= i
          ensures items[j].pos == models[j].position && items[j].mode == itemMode && (items[j].selected <==> j == i)
        {
          assert Shape(items)[j] == Shape(Deselected(before) + [NewItem(models[i], itemMode)])[j];
        }
        i := i + 1;
      }
      assert models[..i] == models;
    }

    /** ScreenieScene::addModel(m) with the modelAdded notification: m, the
        model constructed last, joins the scene and gets its item. */
    method SceneAddModel(m: Model)
      requires Valid() && m.handle == nextHandle
      modifies this`models, this`nextHandle, this`items
      ensures Valid()
      ensures models == old(models) + [m] && nextHandle == old(nextHandle) + 1
      ensures Shape(items) == Shape(Deselected(old(items)) + [NewItem(m, itemMode)])
    {
      models := models + [m];
      nextHandle := nextHandle + 1;
      assert models[..|items|] == old(models);
      HandleModelAdded(m);
      assert models[..|items|] == models;
    }

    /** ScreenieScene::removeModel(h) with the modelRemoved notification: the
        model and its item leave. */
    method SceneRemoveModel(h: Handle)
      requires Valid() && HasKey(models, ModelHandle, h)
      modifies this`models, this`items
      ensures Valid()
      ensures var k := FirstIndex(old(models), ModelHandle, h);
        && models == old(models)[..k] + old(models)[k + 1..]
        && items == old(items)[..k] + old(items)[k + 1..]
    {
      var k := FirstIndex(models, ModelHandle, h);
      RemoveAtKeepsConsistent(models, items, nextHandle, h, k);
      models := models[..k] + models[k + 1..];
      HandleModelRemoved(h);
    }

    // -------------------------------------------------------- render quality

    /** setRenderQuality(q): every item gets the transformation mode of q and
        the views get its render hints. */
    method SetRenderQuality(q: RenderQuality)
      requires Valid()
      modifies this`items, this`viewQuality
      ensures Valid()
      ensures items == WithMode(old(items), q) && viewQuality == q
    {
      var i := 0;
      while i < |items|
        invariant 0 <= i <= |items| == |old(items)|
        invariant forall j :: 0 <= j < |items| ==> items[j] == if j < i then old(items)[j].(mode := q) else old(items)[j]
      {
        items := items[i := items[i].(mode := q)];
        i := i + 1;
      }
      viewQuality := q;
    }

    /** restoreRenderQuality. */
    method RestoreRenderQuality()
      requires Valid()
      modifies this`items, this`viewQuality
      ensures Valid()
      ensures items == WithMode(old(items), High) && viewQuality == High
    {
      SetRenderQuality(High);
    }

    /** The timeout of the single-shot quality timer: when it is running it
        stops and high quality returns; a timer that is not running does not
        fire. */
    method QualityTimerFired()
      requires Valid()
      modifies this`items, this`viewQuality, this`timerArmed
      ensures Valid() && !timerArmed
      ensures old(timerArmed) ==> items == WithMode(old(items), High) && viewQuality == High
      ensures !old(timerArmed) ==> items == old(items) && viewQuality == old(viewQuality)
    {
      if timerArmed {
        timerArmed := false;
        RestoreRenderQuality();
      }
    }

    // --------------------------------------------------------- batch setters

    /** The loop every batch setter shares: the change applied to the model
        of each selected item, with handleDistanceChanged after each change
        to a distance. */
    method ApplyToSelected(c: Change)
      requires Valid()
      modifies this`models, this`items
      ensures Valid()
      ensures models == AppliedToSelected(c, old(models), old(items))
      ensures Shape(items) == Shape(old(items))
      ensures !c.ChangesDistance() ==> items == old(items)
    {
      var hs := GetSelectedScreenieModels();
      ghost var ms0, its0 := models, items;
      ghost var done: set<Handle> := {};
      BoundIndex(models, items, 0);
      SelectedHandlesDistinct(items);
      SelectedPresent(models, items);
      var i := 0;
      while i < |hs|
        invariant 0 <= i <= |hs| && Applying(c, ms0, its0, done, models, items, nextHandle)
        invariant done == set k | 0 <= k < i :: hs[k]
      {
        PrefixStep(hs, i);
        ApplyToModel(c, hs[i], ms0, its0, done);
        done := done + {hs[i]};
        i := i + 1;
      }
      assert done == SelectedSet(its0);
      AllApplied(c, ms0, its0, models);
    }

    /** One round of the loop of the batch setters: c applied to the model
        with handle h, then, for a distance change, handleDistanceChanged. */
    method ApplyToModel(c: Change, h: Handle, ghost ms0: seq<Model>, ghost its0: seq<Item>, ghost done: set<Handle>)
      requires Applying(c, ms0, its0, done, models, items, nextHandle)
      requires h !in done && HasKey(ms0, ModelHandle, h)
      modifies this`models, this`items
      ensures Applying(c, ms0, its0, done + {h}, models, items, nextHandle)
    {
      ApplyOne(c, ms0, models, done, h);
      var k := FirstIndex(models, ModelHandle, h);
      models := models[k := Apply(c, models[k])];
      PartlyAppliedKeeps(c, ms0, models, done + {h}, items, nextHandle);
      if c.ChangesDistance() {
        ghost var before := items;
        assert models[..|items|] == models;
        HandleDistanceChanged();
        assert models[..|items|] == models;
        RerankStep(c, ms0, its0, done + {h}, models, before, items, nextHandle);
      }
    }

    /** The state a batch setter leaves, given the models and items before:
        c applied to the model of every selected item, low quality with the
        restore timer running, the items only re-ranked. */
    ghost predicate BatchDone(c: Change, ms0: seq<Model>, its0: seq<Item>)
      requires |its0| == |ms0|
      reads this
    {
      && models == AppliedToSelected(c, ms0, its0)
      && viewQuality == Low && timerArmed
      && Shape(items) == Shape(WithMode(its0, Low))
      && (!c.ChangesDistance() ==> items == WithMode(its0, Low))
    }

    /** The body every batch setter shares: low quality, the change applied
        to the selected models, the restore timer started. */
    method BatchSet(c: Change)
      requires Valid()
      modifies this`models, this`items, this`viewQuality, this`timerArmed
      ensures Valid() && BatchDone(c, old(models), old(items))
    {
      ghost var ms0, its0 := models, items;
      SetRenderQuality(Low);
      ApplyToSelected(c);
      timerArmed := true;
      WithModeKeepsSelection(c, ms0, its0, Low);
    }

    /** setRotation(angle). */
    method SetRotation(angle: int)
      requires Valid()
      modifies this`models, this`items, this`viewQuality, this`timerArmed
      ensures Valid() && BatchDone(Change.SetRotation(angle), old(models), old(items))
    {
      BatchSet(Change.SetRotation(angle));
    }

    /** rotate(angle). */
    method Rotate(angle: int)
      requires Valid()
      modifies this`models, this`items, this`viewQuality, this`timerArmed
      ensures Valid() && BatchDone(Change.Rotate(angle), old(models), old(items))
    {
      BatchSet(Change.Rotate(angle));
    }

    /** setDistance(distance). */
    method SetDistance(distance: int)
      requires Valid()
      modifies this`models, this`items, this`viewQuality, this`timerArmed
      ensures Valid() && BatchDone(Change.SetDistance(distance), old(models), old(items))
    {
      BatchSet(Change.SetDistance(distance));
    }

    /** addDistance(distance). */
    method AddDistance(distance: int)
      requires Valid()
      modifies this`models, this`items, this`viewQuality, this`timerArmed
      ensures Valid() && BatchDone(Change.AddDistance(distance), old(models), old(items))
    {
      BatchSet(Change.AddDistance(distance));
    }

    /** setReflectionEnabled(enable). */
    method SetReflectionEnabled(enable: bool)
      requires Valid()
      modifies this`models, this`items, this`viewQuality, this`timerArmed
      ensures Valid() && BatchDone(Change.SetReflectionEnabled(enable), old(models), old(items))
    {
      BatchSet(Change.SetReflectionEnabled(enable));
    }

    /** setReflectionOffset(reflectionOffset). */
    method SetReflectionOffset(offset: int)
      requires Valid()
      modifies this`models, this`items, this`viewQuality, this`timerArmed
      ensures Valid() && BatchDone(Change.SetReflectionOffset(offset), old(models), old(items))
    {
      BatchSet(Change.SetReflectionOffset(offset));
    }

    /** addReflectionOffset(reflectionOffset). */
    method AddReflectionOffset(offset: int)
      requires Valid()
      modifies this`models, this`items, this`viewQuality, this`timerArmed
      ensures Valid() && BatchDone(Change.AddReflectionOffset(offset), old(models), old(items))
    {
      BatchSet(Change.AddReflectionOffset(offset));
    }

    /** setReflectionOpacity(reflectionOpacity). */
    method SetReflectionOpacity(opacity: int)
      requires Valid()
      modifies this`models, this`items, this`viewQuality, this`timerArmed
      ensures Valid() && BatchDone(Change.SetReflectionOpacity(opacity), old(models), old(items))
    {
      BatchSet(Change.SetReflectionOpacity(opacity));
    }

    /** addReflectionOpacity(reflectionOpacity). */
    method AddReflectionOpacity(opacity: int)
      requires Valid()
      modifies this`models, this`items, this`viewQuality, this`timerArmed
      ensures Valid() && BatchDone(Change.AddReflectionOpacity(opacity), old(models), old(items))
    {
      BatchSet(Change.AddReflectionOpacity(opacity));
    }

    /** translate(dx, dy): the selected models move by (dx, dy); only a move
        along both axes at once lowers the quality and starts the timer. */
    method Translate(dx: real, dy: real)
      requires Valid()
      modifies this`models, this`items, this`viewQuality, this`timerArmed
      ensures Valid()
      ensures models == AppliedToSelected(Change.Translate(dx, dy), old(models), old(items))
      ensures dx != 0.0 && dy != 0.0 ==> items == WithMode(old(items), Low) && viewQuality == Low && timerArmed
      ensures !(dx != 0.0 && dy != 0.0) ==>
        items == old(items) && viewQuality == old(viewQuality) && timerArmed == old(timerArmed)
    {
      ghost var ms0, its0 := models, items;
      if dx != 0.0 && dy != 0.0 {
        SetRenderQuality(Low);
        timerArmed := true;
      }
      ApplyToSelected(Change.Translate(dx, dy));
      WithModeKeepsSelection(Change.Translate(dx, dy), ms0, its0, Low);
    }

    // -------------------------------------------------------------- adding

    /** The loop both addImages share: for each source a new model with the
        default values, centred on the drop point moved one diagonal step
        further each time, joins the scene; the last one ends up the only
        selected item. */
    method AddPlaced(sources: seq<(Variant, Size)>, centre: Point)
      requires Valid()
      modifies this`models, this`nextHandle, this`items
      ensures Valid()
      ensures models == old(models) + Placed(sources, centre, old(nextHandle), defaults)
      ensures nextHandle == old(nextHandle) + |sources|
      ensures sources == [] ==> items == old(items)
      ensures sources != [] ==> forall j :: 0 <= j < |items| ==> (items[j].selected <==> j == |items| - 1)
    {
      ghost var ms0, next0 := models, nextHandle;
      var position := centre;
      var i := 0;
      while i < |sources|
        invariant 0 <= i <= |sources| && Valid()
        invariant nextHandle == next0 + i && position == Cascade(centre, i)
        invariant models == ms0 + Placed(sources[..i], centre, next0, defaults)
        invariant i == 0 ==> items == old(items)
        invariant i > 0 ==> forall j :: 0 <= j < |items| ==> (items[j].selected <==> j == |items| - 1)
        modifies this`models, this`nextHandle, this`items
      {
        var (variant, size) := sources[i];
        var m := NewModel(nextHandle, variant, size, defaults, PositionForCentre(size, position));
        position := Point(position.x + CascadeStep, position.y + CascadeStep);
        PlacedStep(sources, centre, next0, defaults, i);
        SceneAddModel(m);
        assert forall j :: 0 <= j < |items| ==> items[j].selected == Shape(items)[j].selected;
        i := i + 1;
      }
      assert sources[..i] == sources;
    }

    /** addImages(filePaths, centerPosition). */
    method AddImages(paths: seq<string>, centre: Point)
      requires Valid()
      modifies this`models, this`nextHandle, this`items
      ensures Valid()
      ensures models == old(models) + Placed(FilePathSources(imageSize, paths), centre, old(nextHandle), defaults)
      ensures nextHandle == old(nextHandle) + |paths|
      ensures paths == [] ==> items == old(items)
      ensures paths != [] ==> forall j :: 0 <= j < |items| ==> (items[j].selected <==> j == |items| - 1)
    {
      AddPlaced(FilePathSources(imageSize, paths), centre);
    }

    /** addImages(pixmaps, centerPosition). */
    method AddPixmapImages(pixmaps: seq<Pixmap>, centre: Point)
      requires Valid()
      modifies this`models, this`nextHandle, this`items
      ensures Valid()
      ensures models == old(models) + Placed(PixmapSources(pixmaps), centre, old(nextHandle), defaults)
      ensures nextHandle == old(nextHandle) + |pixmaps|
      ensures pixmaps == [] ==> items == old(items)
      ensures pixmaps != [] ==> forall j :: 0 <= j < |items| ==> (items[j].selected <==> j == |items| - 1)
    {
      AddPlaced(PixmapSources(pixmaps), centre);
    }

    /** addTemplate(centerPosition): a 400 x 400 template with the default
        values, stored at the given point, becomes the only selected item. */
    method AddTemplate(centre: Point)
      requires Valid()
      modifies this`models, this`nextHandle, this`items
      ensures Valid()
      ensures models == old(models) + [NewTemplate(old(nextHandle), centre, defaults)]
      ensures nextHandle == old(nextHandle) + 1
      ensures forall j :: 0 <= j < |items| ==> (items[j].selected <==> j == |items| - 1)
    {
      SceneAddModel(NewTemplate(nextHandle, centre, defaults));
      assert forall j :: 0 <= j < |items| ==> items[j].selected == Shape(items)[j].selected;
    }

    // ------------------------------------------------------------ updating

    /** setPixmap or setFilePath on the model with handle h, then setPosition
        so that its centre stays put. */
    method UpdateContent(h: Handle, v: Variant, s: Size)
      requires Valid() && HasKey(models, ModelHandle, h)
      modifies this`models
      ensures Valid() && models == UpdateInPlace(old(models), h, v, s)
    {
      ghost var ms0 := models;
      var k := FirstIndex(models, ModelHandle, h);
      var m := models[k];
      var m' := m.(variant := v, size := s, position := ResizedPosition(m.position, m.size, s));
      InPlaceFacts(ms0, nextHandle, h, v, s);
      SameSlotKeepsOrder(ms0, items, k, m');
      models := models[k := m'];
    }

    /** removeModel(h) followed by addModel(m): m, constructed last, takes the
        place of the model with handle h at the end of the scene and becomes
        the only selected item. */
    method ReplaceModel(h: Handle, m: Model)
      requires Valid() && HasKey(models, ModelHandle, h) && m.handle == nextHandle
      modifies this`models, this`nextHandle, this`items
      ensures Valid()
      ensures models == Replace(old(models), h, m) && nextHandle == old(nextHandle) + 1
      ensures var k := FirstIndex(old(models), ModelHandle, h);
        Shape(items) == Shape(Deselected(old(items)[..k] + old(items)[k + 1..]) + [NewItem(m, itemMode)])
    {
      ghost var ms0 := models;
      var k := FirstIndex(models, ModelHandle, h);
      SceneRemoveModel(h);
      RemoveAtIsWithout(ms0, ModelHandle, k);
      SceneAddModel(m);
    }

    /** updatePixmapModel(pixmap, model h): a null pixmap changes nothing; a
        pixmap model gets the pixmap in place, keeping its centre; any other
        model is replaced by a pixmap model converted from it, a template's
        pixmap first fitted to its footprint. */
    method UpdatePixmapModel(p: Pixmap, h: Handle)
      requires Valid() && HasKey(models, ModelHandle, h)
      modifies this`models, this`nextHandle, this`items
      ensures Valid()
      ensures (models, nextHandle) == UpdatePixmap(old(models), old(nextHandle), h, p, fit)
      ensures p.NullPixmap? || Lookup(old(models), ModelHandle, h).variant.PixmapData? ==> items == old(items)
    {
      if p.Image? {
        var k := FirstIndex(models, ModelHandle, h);
        var m := models[k];
        if m.variant.PixmapData? {
          UpdateContent(h, PixmapData(p), PixmapSize(p));
        } else {
          var actual := ActualPixmap(m, p, fit);
          ReplaceModel(h, Converted(m, nextHandle, PixmapData(actual), PixmapSize(actual)));
        }
      }
    }

    /** updateFilePathModel(filePath, model h): a file-path model gets the
        path in place, keeping its centre; any other model is replaced by a
        file-path model converted from it, which keeps a template's fitter. */
    method UpdateFilePathModel(path: string, h: Handle)
      requires Valid() && HasKey(models, ModelHandle, h)
      modifies this`models, this`nextHandle, this`items
      ensures Valid()
      ensures (models, nextHandle) == UpdateFilePath(old(models), old(nextHandle), h, path, imageSize, fit)
      ensures Lookup(old(models), ModelHandle, h).variant.FilePath? ==> items == old(items)
    {
      var k := FirstIndex(models, ModelHandle, h);
      var m := models[k];
      if m.variant.FilePath? {
        var fp := m.variant.fitFootprint;
        UpdateContent(h, FilePath(path, fp), FilePathSize(imageSize, fit, path, fp));
      } else {
        var fp := InheritedFootprint(m);
        ReplaceModel(h, Converted(m, nextHandle, FilePath(path, fp), FilePathSize(imageSize, fit, path, fp)));
      }
    }

    /** updateModel(mimeData, model h): image data is preferred; otherwise
        the first URL's local file. */
    method UpdateModel(mime: MimeData, h: Handle)
      requires Valid() && HasKey(models, ModelHandle, h)
      requires mime.image.Some? || mime.urls != []
      modifies this`models, this`nextHandle, this`items
      ensures Valid()
      ensures mime.image.Some? ==>
        (models, nextHandle) == UpdatePixmap(old(models), old(nextHandle), h, mime.image.value, fit)
      ensures mime.image.None? ==>
        (models, nextHandle) == UpdateFilePath(old(models), old(nextHandle), h, mime.urls[0], imageSize, fit)
    {
      if mime.image.Some? {
        UpdatePixmapModel(mime.image.value, h);
      } else {
        UpdateFilePathModel(mime.urls[0], h);
      }
    }

    // ---------------------------------------------------------------- drops

    /** handlePixmapsDrop(pixmaps, centerPosition), `ordered` being the
        template organizer's list: without templates the pixmaps are added
        as new images; otherwise the i-th template is updated by the i-th
        pixmap while both last. */
    method HandlePixmapsDrop(pixmaps: seq<Pixmap>, centre: Point, ordered: seq<Handle>)
      requires Valid() && OrderedTemplates(models, ordered)
      modifies this`models, this`nextHandle, this`items
      ensures Valid()
      ensures !HasTemplates(old(models)) ==>
        && models == old(models) + Placed(PixmapSources(pixmaps), centre, old(nextHandle), defaults)
        && nextHandle == old(nextHandle) + |pixmaps|
      ensures HasTemplates(old(models)) ==>
        && (models, nextHandle) == DropPixmaps(old(models), old(nextHandle), ordered, pixmaps, fit)
        && (models, nextHandle) == PixmapsDropped(old(models), old(nextHandle), ordered, pixmaps, fit)
    {
      if !HasTemplates(models) {
        AddPixmapImages(pixmaps, centre);
      } else {
        DropPixmapsClosedForm(models, nextHandle, ordered, pixmaps, fit);
        PixmapsIntoTemplates(pixmaps, ordered);
      }
    }

    /** The loop of handlePixmapsDrop over the templates: the i-th template
        of `ordered` is updated by the i-th pixmap while both last. */
    method PixmapsIntoTemplates(pixmaps: seq<Pixmap>, ordered: seq<Handle>)
      requires Valid() && TemplateTargets(models, ordered)
      modifies this`models, this`nextHandle, this`items
      ensures Valid()
      ensures (models, nextHandle) == DropPixmaps(old(models), old(nextHandle), ordered, pixmaps, fit)
    {
      ghost var r0 := DropPixmaps(models, nextHandle, ordered, pixmaps, fit);
      var ts, ps := ordered, pixmaps;
      while ts != [] && ps != []
        invariant Valid() && TemplateTargets(models, ts)
        invariant DropPixmaps(models, nextHandle, ts, ps, fit) == r0
        decreases |ts|
      {
        DropPixmapsStep(models, nextHandle, ts, ps, fit);
        UpdatePixmapModel(ps[0], ts[0]);
        ts, ps := ts[1..], ps[1..];
      }
    }

    /** handleFilePathsDrop(filePaths, centerPosition), `ordered` being the
        template organizer's list: without templates the files are added as
        new images; otherwise the i-th template is replaced by a model of the
        i-th file while both last. */
    method HandleFilePathsDrop(paths: seq<string>, centre: Point, ordered: seq<Handle>)
      requires Valid() && OrderedTemplates(models, ordered)
      modifies this`models, this`nextHandle, this`items
      ensures Valid()
      ensures !HasTemplates(old(models)) ==>
        && models == old(models) + Placed(FilePathSources(imageSize, paths), centre, old(nextHandle), defaults)
        && nextHandle == old(nextHandle) + |paths|
      ensures HasTemplates(old(models)) ==>
        && (models, nextHandle) == DropFilePaths(old(models), old(nextHandle), ordered, paths, imageSize, fit)
        && (models, nextHandle) == FilePathsDropped(old(models), old(nextHandle), ordered, paths, imageSize, fit)
    {
      if !HasTemplates(models) {
        AddImages(paths, centre);
      } else {
        DropFilePathsClosedForm(models, nextHandle, ordered, paths, imageSize, fit);
        FilePathsIntoTemplates(paths, ordered);
      }
    }

    /** The loop of handleFilePathsDrop over the templates: the i-th template
        of `ordered` is replaced by a model of the i-th file while both last. */
    method FilePathsIntoTemplates(paths: seq<string>, ordered: seq<Handle>)
      requires Valid() && TemplateTargets(models, ordered)
      modifies this`models, this`nextHandle, this`items
      ensures Valid()
      ensures (models, nextHandle) == DropFilePaths(old(models), old(nextHandle), ordered, paths, imageSize, fit)
    {
      ghost var r0 := DropFilePaths(models, nextHandle, ordered, paths, imageSize, fit);
      var ts, ps := ordered, paths;
      while ts != [] && ps != []
        invariant Valid() && TemplateTargets(models, ts)
        invariant DropFilePaths(models, nextHandle, ts, ps, imageSize, fit) == r0
        decreases |ts|
      {
        FilePathsDropStep(models, nextHandle, ts, ps, imageSize, fit);
        UpdateFilePathModel(ps[0], ts[0]);
        ts, ps := ts[1..], ps[1..];
      }
    }

    // ------------------------------------------------------------- removal

    /** removeAll: low quality, every selected model leaves the scene with
        its item, the restore timer started. */
    method RemoveAll()
      requires Valid()
      modifies this`models, this`items, this`viewQuality, this`timerArmed
      ensures Valid() && viewQuality == Low && timerArmed
      ensures models == Without(old(models), ModelHandle, SelectedSet(old(items)))
      ensures items == Without(WithMode(old(items), Low), ItemModel, SelectedSet(old(items)))
    {
      SetRenderQuality(Low);
      var hs := GetSelectedScreenieModels();
      BoundIndex(models, items, 0);
      SelectedHandlesDistinct(items);
      SelectedPresent(models, items);
      WithModeKeepsSelection(Change.SetDistance(0), old(models), old(items), Low);
      assert (set k | 0 <= k < |hs| :: hs[k]) == SelectedSet(old(items));
      RemoveModels(hs);
      timerArmed := true;
    }

    /** The loop of removeAll over the handles hs, distinct and all in the
        scene: each of their models leaves with its item. */
    method RemoveModels(hs: seq<Handle>)
      requires Valid()
      requires forall a, b :: 0 <= a < b < |hs| ==> hs[a] != hs[b]
      requires forall k :: 0 <= k < |hs| ==> HasKey(models, ModelHandle, hs[k])
      modifies this`models, this`items
      ensures Valid()
      ensures models == Without(old(models), ModelHandle, set k | 0 <= k < |hs| :: hs[k])
      ensures items == Without(old(items), ItemModel, set k | 0 <= k < |hs| :: hs[k])
    {
      ghost var ms0, its0 := models, items;
      WithoutNothing(ms0, ModelHandle, {});
      WithoutNothing(its0, ItemModel, {});
      ghost var gone: set<Handle> := {};
      var i := 0;
      while i < |hs|
        invariant 0 <= i <= |hs| && Valid()
        invariant gone == set k | 0 <= k < i :: hs[k]
        invariant models == Without(ms0, ModelHandle, gone) && items == Without(its0, ItemModel, gone)
      {
        PrefixStep(hs, i);
        LookupWithout(ms0, ModelHandle, gone, hs[i]);
        RemoveSelected(hs[i], ms0, its0, gone);
        gone := gone + {hs[i]};
        i := i + 1;
      }
    }

    /** One round of the loop of removeAll: the model with handle h, still
        in the scene, leaves with its item. */
    method RemoveSelected(h: Handle, ghost ms0: seq<Model>, ghost its0: seq<Item>, ghost gone: set<Handle>)
      requires Valid() && HasKey(models, ModelHandle, h)
      requires models == Without(ms0, ModelHandle, gone) && items == Without(its0, ItemModel, gone)
      modifies this`models, this`items
      ensures Valid()
      ensures models == Without(ms0, ModelHandle, gone + {h}) && items == Without(its0, ItemModel, gone + {h})
    {
      ghost var ms1, its1 := models, items;
      var k := FirstIndex(models, ModelHandle, h);
      BoundIndex(ms1, its1, h);
      SceneRemoveModel(h);
      RemoveAtIsWithout(ms1, ModelHandle, k);
      RemoveAtIsWithout(its1, ItemModel, k);
      WithoutTwice(ms0, ModelHandle, gone, {h});
      WithoutTwice(its0, ItemModel, gone, {h});
    }
  }
}
