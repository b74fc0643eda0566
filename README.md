# Screenie's scene controller, in Dafny

Screenie composes screenshots into a 3D-looking scene: placed images (file
paths, pixmaps, or empty templates waiting for content) with a distance,
rotation and reflection each, shown on a Qt graphics scene. `ScreenieControl`
is the controller between the two.

- Every change of the scene's models goes through it.
- It reacts to the scene's add/remove/distance notifications by keeping one
  pixmap item per model, stacked by distance.
- It pairs dropped content with the ordered templates.
- It lowers the render quality during interaction until a single-shot timer
  restores it.

The model is organised as follows:

- `types.dfy` (`ScreenieTypes`): the entities. A model has a handle (its
  identity), one of three variants, a size, a position and its attributes.
  An item is bound to a model and carries its position, selection flag,
  z-value and transformation mode. It also defines the batch-setter changes
  and the drag-and-drop payload.
- `geometry.dfy` (`Geometry`): the two `calculateItemPosition` overloads,
  the diagonal cascade of `addImages`, `scaleToTemplate`, and the size of a
  file-path model.
- `modellist.dfy` (`ModelList`): lists keyed by handle — find, look up,
  filter out — with their algebra.
- `depth.dfy` (`DepthOrder`): `zSort`, the sort of `handleDistanceChanged`
  as an insertion sort of item indices, and the z-ranks it hands out.
- `edits.dfy` (`SceneEdits`): what each editing operation does to the
  scene's list of models, as functions of the old list. It covers placing new
  images and templates, and updating a model in place or by remove-and-add
  conversion. The proofs show that centres are preserved and that every
  other model is untouched.
- `drops.dfy` (`DropPairing`): the lockstep loops of the two drop handlers
  as functions, each with a closed form. For file paths the first
  min(#paths, #templates) templates leave, and their replacements are
  appended in order. For pixmaps the templates paired with a non-null
  pixmap leave, and the pixmap models holding those pixmaps, fitted to
  their templates, are appended in order.
- `canvas.dfy` (`Canvas`): the item list and its relation to the models.
  `Bound` means item j shows model j. `DepthOrdered` means the z-values
  follow `zSort`. It also holds selection and the lemmas the controller's
  loops use.
- `control.dfy` (`Control.ScreenieControl`): the controller as a class.
  - Its fields are the scene's models, the next fresh handle, the canvas
    items, the views' render quality, whether the quality timer is running,
    and the default model.
  - Every public method keeps `Valid()`: items and models correspond one to
    one, handles are distinct, and items are in depth order.
  - Each method is proved against the functions of `SceneEdits` and
    `DropPairing`.
  - The scene's notifications are synchronous calls. `SceneAddModel` appends
    a model and runs `handleModelAdded`; `SceneRemoveModel` removes one and
    runs `handleModelRemoved`. So the items follow the models without a
    separate signal mechanism.

Behaviour of the code worth noting:

- `addTemplate` stores the given point as the template's position; the
  template is not centred on it (`ScreenieControl.cpp:191-199`).
- `updateFilePathModel` does not check whether the path can be read
  (`ScreenieControl.cpp:479-503`).
- `handleModelRemoved` does nothing when no item shows the model
  (`ScreenieControl.cpp:573-585`).
- `handleDistanceChanged` sorts with `qSort`, which is not stable, so the
  order of items at equal distance is left open
  (`ScreenieControl.cpp:547-561`).
- `scaleToTemplate` hands the pixmap to `QPixmap::scaled` without checking
  the fitted size; an empty size gives a null pixmap, and
  `updatePixmapModel` then builds the pixmap model from that null pixmap
  (`ScreenieControl.cpp:440`, `:467-472`).
- `updateModel` takes the first URL of the drag data without checking that
  there is one; data holding neither an image nor a URL is outside what the
  code handles, so the model asks for one or the other
  (`ScreenieControl.cpp:130-137`).

## Model

| member | source | states |
|---|---|---|
| ScreenieTypes.Apply | src/Kernel/src/ScreenieControl.cpp:232-320 | a setter changes the one attribute it names and keeps everything else: handle, variant and size stay; translate moves the position by exactly (dx, dy); the set-setters give the attribute the new value and the add-setters add the delta, for rotation, distance, reflection switch, reflection offset and reflection opacity; every other attribute keeps its value |
| Geometry.PositionForCentre | src/Kernel/src/ScreenieControl.cpp:424-431 | the computed top-left corner puts the centre of a box of the model's size exactly on the given point |
| Geometry.ResizedPosition | src/Kernel/src/ScreenieControl.cpp:447-453 | the box resized from the old to the new size keeps its centre; an unchanged size keeps the position |
| Geometry.ScaleToTemplate | src/Kernel/src/ScreenieControl.cpp:433-445 | a null pixmap stays null; without a resize the pixmap is returned unchanged; with one it keeps its content and gets the fitter's size, or becomes null when that size is empty, as `QPixmap::scaled` does |
| DepthOrder.ZSort | src/Kernel/src/ScreenieControl.cpp:55-59 | the comparator of the depth sort: an item sorts before another exactly when its model's distance is strictly larger, so closer items come first and equal distances are unordered |
| DepthOrder.SortByDistance | src/Kernel/src/ScreenieControl.cpp:556 | the result lists every item index exactly once, and no index sorts by zSort before one listed earlier |
| DepthOrder.RanksRespectZSort | src/Kernel/src/ScreenieControl.cpp:557-560 | z-values 0, 1, 2, ... given along a zSort-sorted order are distinct and in 0..n-1, and every item that zSort puts first is strictly lower |
| ModelList.FirstIndex | src/Kernel/src/ScreenieControl.cpp:575-582 | the scan stops at the first element bound to the handle, or runs off the end exactly when there is none |
| ModelList.RemoveAtIsWithout | src/Kernel/src/ScreenieControl.cpp:206 | removing the one element of a handle from a list of distinct handles is filtering that handle out |
| ModelList.WithoutMembers | src/Kernel/src/ScreenieControl.cpp:205-207 | filtering keeps exactly the elements whose handle is not filtered out |
| ModelList.WithoutTwice | src/Kernel/src/ScreenieControl.cpp:205-207 | removing one set of handles and then another is removing their union |
| ModelList.LookupWithout | src/Kernel/src/ScreenieControl.cpp:205-207 | a model whose handle is not filtered out is still found, unchanged |
| SceneEdits.NewModel | src/Kernel/src/ScreenieControl.cpp:415-422 | a new model has its handle, variant, size and position and every attribute of the default model |
| SceneEdits.Placed | src/Kernel/src/ScreenieControl.cpp:158-189 | the k-th added image has the k-th fresh handle, its source's variant and size, the default attributes, and its centre on the drop point moved k steps of 20 along both axes |
| SceneEdits.PlacedKeepsSceneOk | src/Kernel/src/ScreenieControl.cpp:158-189 | appending the placed images keeps the handles distinct and below the advanced counter |
| SceneEdits.NewTemplate | src/Kernel/src/ScreenieControl.cpp:191-199 | a template is 400 x 400 with the default attributes and the given point as its position |
| SceneEdits.OrderedTemplatesEmpty | src/Kernel/src/ScreenieControl.cpp:510-513 | the organizer's list is empty exactly when the scene has no template |
| SceneEdits.Converted | src/Kernel/src/ScreenieControl.cpp:469-472 | a converted model has the new handle, variant and size, the old model's attributes, and the old model's centre |
| SceneEdits.UpdateInPlace | src/Kernel/src/ScreenieControl.cpp:459-463 | only the model with the handle changes; it gets the new content and size and keeps its attributes and centre; every handle stays in place |
| SceneEdits.ReplaceFacts | src/Kernel/src/ScreenieControl.cpp:473-474 | remove-then-add keeps the scene's length, ends with the new model, loses the old handle, and leaves every other model as it was |
| SceneEdits.InPlaceFacts | src/Kernel/src/ScreenieControl.cpp:481-486 | an update in place keeps the handles valid and every other model as it was |
| SceneEdits.UpdatePixmap | src/Kernel/src/ScreenieControl.cpp:455-477 | the scene and counter after updating one model by a pixmap; a fresh handle is used up exactly when the pixmap is not null and the model is not already a pixmap model |
| SceneEdits.UpdatePixmapFacts | src/Kernel/src/ScreenieControl.cpp:455-477 | null pixmap: nothing changes. Pixmap model: the new pixmap and its size in place, attributes and centre kept. Any other model: replaced by a pixmap model with the next fresh handle holding the pixmap (fitted to the footprint for a template) and its size, carrying the old attributes and centre. Every other model untouched, length kept |
| SceneEdits.UpdateFilePath | src/Kernel/src/ScreenieControl.cpp:479-503 | the scene and counter after updating one model by a file path; a fresh handle is used up exactly when the model is not already a file-path model |
| SceneEdits.UpdateFilePathFacts | src/Kernel/src/ScreenieControl.cpp:479-503 | file-path model: new path in place, with its own fitter, the size of the path's image fitted by that fitter, attributes and centre kept. Any other model: replaced by a file-path model with the next fresh handle, carrying its attributes and centre and a template's fitter, sized as the path's image fitted by that fitter. Every other model untouched |
| SceneEdits.UpdateTemplateByPixmap | src/Kernel/src/ScreenieControl.cpp:466-474 | a null pixmap leaves the scene and counter alone; any other pixmap replaces the template by the pixmap model holding that pixmap fitted to the template, appended at the end, and the counter advances by one; every other model is untouched |
| SceneEdits.PixmapFilledTemplate | src/Kernel/src/ScreenieControl.cpp:466-472 | the pixmap model replacing a template holds the pixmap scaled to the template's footprint and that pixmap's size, and keeps the template's attributes and centre |
| SceneEdits.FilledTemplate | src/Kernel/src/ScreenieControl.cpp:488-499 | the file-path model replacing a template inherits the template's fitter, attributes and centre, and its size is the path's image size fitted to the template's footprint |
| SceneEdits.UpdateTemplateByFilePath | src/Kernel/src/ScreenieControl.cpp:488-501 | a template updated by a path is always replaced, by the filled template appended at the end, and the counter advances by one |
| DropPairing.DropPixmaps | src/Kernel/src/ScreenieControl.cpp:527-545 | the pixmap-drop loop: the i-th ordered template is updated by the i-th pixmap until either list runs out; its outcome is given by DropPixmapsClosedForm |
| DropPairing.DropPixmapsStep | src/Kernel/src/ScreenieControl.cpp:537-543 | one round of the pixmap-drop loop updates the first template by the first pixmap; the remaining targets are still templates |
| DropPairing.ConsumedAt | src/Kernel/src/ScreenieControl.cpp:535-543 | the k-th template is consumed exactly when there is a k-th pixmap and it is not null |
| DropPairing.DropPixmapsFacts | src/Kernel/src/ScreenieControl.cpp:527-545 | a pixmap drop onto templates keeps the scene's length, removes exactly the consumed templates, leaves every other model untouched, and gives every new model a fresh handle |
| DropPairing.DropPixmapsClosedForm | src/Kernel/src/ScreenieControl.cpp:527-545 | a pixmap drop onto templates removes exactly the templates paired with a non-null pixmap and appends, in rank order, the pixmap models holding those pixmaps fitted to their templates; the counter advances by as many |
| DropPairing.PixmapModelAt | src/Kernel/src/ScreenieControl.cpp:533-543 | the models a pixmap drop adds are pixmap models whose handles count up from the counter, one per round that consumes a template |
| DropPairing.PixmapModelsCount | src/Kernel/src/ScreenieControl.cpp:533-543 | a pixmap drop adds exactly one model per consumed template |
| DropPairing.DropFilePaths | src/Kernel/src/ScreenieControl.cpp:507-525 | the file-path-drop loop: the i-th ordered template is updated by the i-th path until either list runs out; its outcome is given by DropFilePathsClosedForm |
| DropPairing.FilePathsDropStep | src/Kernel/src/ScreenieControl.cpp:517-523 | one round of the file-path loop replaces the first template; the rest of the drop on what remains has the same closed form |
| DropPairing.DropFilePathsClosedForm | src/Kernel/src/ScreenieControl.cpp:507-525 | a file-path drop removes exactly the first min(#paths, #templates) templates and appends, in order, the models built from the paths of the same rank; the counter advances by that many |
| Canvas.SelectedHandles | src/Kernel/src/ScreenieControl.cpp:102-112 | the handles of the selected items' models, in item order, at most one per item; membership and distinctness are given by SelectedHandlesMembers and SelectedHandlesDistinct |
| Canvas.SelectedHandlesMembers | src/Kernel/src/ScreenieControl.cpp:102-112 | the selected models are exactly those of the selected items |
| Canvas.SelectedHandlesDistinct | src/Kernel/src/ScreenieControl.cpp:102-112 | each selected model is listed once |
| Canvas.AppliedKeeps | src/Kernel/src/ScreenieControl.cpp:232-320 | a batch setter keeps each item bound to its model, and a change that is not to a distance keeps the depth order |
| Canvas.BoundIndex | src/Kernel/src/ScreenieControl.cpp:573-585 | items bound to distinct models are distinct, and the first item of a model sits at that model's index |
| Canvas.RemoveAtKeepsOrder | src/Kernel/src/ScreenieControl.cpp:573-585 | removing a model and its item keeps the rest bound and in depth order |
| Canvas.SelectedPresent | src/Kernel/src/ScreenieControl.cpp:204-206 | every selected handle belongs to a model of the scene |
| Canvas.AllApplied | src/Kernel/src/ScreenieControl.cpp:235-238 | once every selected model has had the change, the models are the change applied to exactly the selected ones |
| Canvas.ShapeKeepsBound | src/Kernel/src/ScreenieControl.cpp:557-560 | re-ranking the items keeps their models and their selection |
| Canvas.WithModeKeepsSelection | src/Kernel/src/ScreenieControl.cpp:203-204 | lowering the quality first does not change which models are selected |
| Canvas.SameSlotKeepsOrder | src/Kernel/src/ScreenieControl.cpp:459-463 | a model changed in place without a new handle or distance stays bound and in depth order |
| Canvas.RemovedExactlySelected | src/Kernel/src/ScreenieControl.cpp:201-209 | removeAll keeps a model exactly when its item was not selected |
| Control.ScreenieControl.constructor | src/Kernel/src/ScreenieControl.cpp:88-95 | the controller starts consistent, with no items, the timer stopped, and the given collaborators |
| Control.ScreenieControl.GetSelectedScreenieModels | src/Kernel/src/ScreenieControl.cpp:102-112 | the models of the selected items, in item order; a handle is in the result exactly when its item is selected |
| Control.ScreenieControl.SelectAll | src/Kernel/src/ScreenieControl.cpp:211-216 | every item becomes selected and nothing else about it changes |
| Control.ScreenieControl.HandleDistanceChanged | src/Kernel/src/ScreenieControl.cpp:547-561 | only z-values change; afterwards they are distinct, in 0..n-1, and follow zSort |
| Control.ScreenieControl.HandleModelAdded | src/Kernel/src/ScreenieControl.cpp:563-571 | the canvas gets one new item bound to the model, at its position, as the only selected item, and the depth order is restored with distinct z-values in 0..n-1 |
| Control.ScreenieControl.HandleModelRemoved | src/Kernel/src/ScreenieControl.cpp:573-585 | the first item bound to the model leaves; without one nothing changes |
| Control.ScreenieControl.UpdateScene | src/Kernel/src/ScreenieControl.cpp:119-126 | whatever the canvas held, afterwards each model has its item at its position, bound and in depth order, and the last one alone is selected |
| Control.ScreenieControl.SceneAddModel | src/Kernel/src/ScreenieControl.cpp:563-571 | adding a model and its item keeps the controller consistent: the model is appended and the counter advances |
| Canvas.RemoveAtKeepsConsistent | src/Kernel/src/ScreenieControl.cpp:573-585 | the item of a model sits at the model's rank, and removing both keeps models and items bound, handles distinct and fresh, and items in depth order |
| Control.ScreenieControl.SceneRemoveModel | src/Kernel/src/ScreenieControl.cpp:573-585 | removing a model removes its item at the same rank and keeps the controller consistent |
| Control.ScreenieControl.SetRenderQuality | src/Kernel/src/ScreenieControl.cpp:391-413 | every item gets the level's transformation mode and the views the level's hints; nothing else changes |
| Control.ScreenieControl.RestoreRenderQuality | src/Kernel/src/ScreenieControl.cpp:602-605 | high quality for every item and the views |
| Control.ScreenieControl.QualityTimerFired | src/Kernel/src/ScreenieControl.cpp:375-376 | a running timer stops and high quality returns; a stopped timer changes nothing |
| Control.ScreenieControl.ApplyToSelected | src/Kernel/src/ScreenieControl.cpp:235-238 | the change is applied to the model of every selected item and to no other; items are only re-ranked, and untouched unless a distance changed |
| Control.ScreenieControl.ApplyToModel | src/Kernel/src/ScreenieControl.cpp:236-237 | one round of the setter loop applies the change to one more model and keeps the controller consistent |
| Control.ScreenieControl.BatchSet | src/Kernel/src/ScreenieControl.cpp:232-320 | low quality, the change applied to exactly the selected models, the timer running, the controller consistent |
| Control.ScreenieControl.SetRotation | src/Kernel/src/ScreenieControl.cpp:232-240 | the batch-setter outcome for setting the rotation |
| Control.ScreenieControl.Rotate | src/Kernel/src/ScreenieControl.cpp:242-250 | the batch-setter outcome for adding to the rotation |
| Control.ScreenieControl.SetDistance | src/Kernel/src/ScreenieControl.cpp:252-260 | the batch-setter outcome for setting the distance, the items re-ranked into depth order |
| Control.ScreenieControl.AddDistance | src/Kernel/src/ScreenieControl.cpp:262-270 | the batch-setter outcome for adding to the distance, the items re-ranked into depth order |
| Control.ScreenieControl.SetReflectionEnabled | src/Kernel/src/ScreenieControl.cpp:272-280 | the batch-setter outcome for the reflection switch |
| Control.ScreenieControl.SetReflectionOffset | src/Kernel/src/ScreenieControl.cpp:282-290 | the batch-setter outcome for setting the reflection offset |
| Control.ScreenieControl.AddReflectionOffset | src/Kernel/src/ScreenieControl.cpp:292-300 | the batch-setter outcome for adding to the reflection offset |
| Control.ScreenieControl.SetReflectionOpacity | src/Kernel/src/ScreenieControl.cpp:302-310 | the batch-setter outcome for setting the reflection opacity |
| Control.ScreenieControl.AddReflectionOpacity | src/Kernel/src/ScreenieControl.cpp:312-320 | the batch-setter outcome for adding to the reflection opacity |
| Control.ScreenieControl.Translate | src/Kernel/src/ScreenieControl.cpp:218-230 | the selected models always move by (dx, dy); quality drops and the timer starts only when both dx and dy are non-zero, otherwise items, quality and timer stay |
| Control.ScreenieControl.AddPlaced | src/Kernel/src/ScreenieControl.cpp:158-189 | the scene gains exactly the placed models, in order, with fresh handles; the last new item alone is selected |
| Control.ScreenieControl.AddImages | src/Kernel/src/ScreenieControl.cpp:158-169 | the placed file-path models, each the size of its decoded image |
| Control.ScreenieControl.AddPixmapImages | src/Kernel/src/ScreenieControl.cpp:178-189 | the placed pixmap models, each the size of its pixmap |
| Control.ScreenieControl.AddTemplate | src/Kernel/src/ScreenieControl.cpp:191-199 | the scene gains the new template, whose item alone is selected |
| Control.ScreenieControl.UpdateContent | src/Kernel/src/ScreenieControl.cpp:459-463 | the in-place update of one model, keeping the controller consistent |
| Control.ScreenieControl.ReplaceModel | src/Kernel/src/ScreenieControl.cpp:473-474 | the old model and its item leave, the new model joins at the end, and its item alone is selected |
| Control.ScreenieControl.UpdatePixmapModel | src/Kernel/src/ScreenieControl.cpp:455-477 | the scene and counter become those of the pixmap-update function; a null pixmap or an in-place update leaves the items alone |
| Control.ScreenieControl.UpdateFilePathModel | src/Kernel/src/ScreenieControl.cpp:479-503 | the scene and counter become those of the file-path-update function; an in-place update leaves the items alone |
| Control.ScreenieControl.UpdateModel | src/Kernel/src/ScreenieControl.cpp:128-139 | image data wins; without it the first URL's file updates the model |
| Control.ScreenieControl.HandlePixmapsDrop | src/Kernel/src/ScreenieControl.cpp:527-545 | without templates the pixmaps are added as new images; with templates the scene becomes the closed form: consumed templates out, the pixmap models fitted to them appended in order |
| Control.ScreenieControl.PixmapsIntoTemplates | src/Kernel/src/ScreenieControl.cpp:533-543 | walking the ordered templates and the pixmaps in lockstep, the scene and counter become those of the pixmap pairing function, and the controller stays consistent |
| Control.ScreenieControl.HandleFilePathsDrop | src/Kernel/src/ScreenieControl.cpp:507-525 | without templates the files are added as new images; with templates the scene becomes the closed form: paired templates out, their replacements appended in order |
| Control.ScreenieControl.FilePathsIntoTemplates | src/Kernel/src/ScreenieControl.cpp:513-523 | walking the ordered templates and the paths in lockstep, the scene and counter become those of the file-path pairing function, and the controller stays consistent |
| Control.ScreenieControl.RemoveAll | src/Kernel/src/ScreenieControl.cpp:201-209 | exactly the selected models leave, each with its item; quality is low and the timer is running |
| Control.ScreenieControl.RemoveModels | src/Kernel/src/ScreenieControl.cpp:205-207 | removing a list of distinct handles, all in the scene, takes exactly those models and their items out, in order otherwise kept, and keeps the controller consistent |
| Control.ScreenieControl.RemoveSelected | src/Kernel/src/ScreenieControl.cpp:205-207 | one round of removeAll's loop removes one more selected model and its item |

## Left out

- Painting, reflection rendering, render hints beyond the two quality
  levels, and the background brush (`handleBackgroundChanged`, the
  background setters at lines 322-351). They draw pixels or delegate to
  the scene without affecting the controller's state.
- The pixel work of `QPixmap::scaled` and image decoding. A pixmap is an
  identity with a size. The file decoder is the parameter `imageSize`, and
  the template's SizeFitter rule is the uninterpreted parameter `fit`.
- Parsing of the MIME payload and of URLs. `updateModel` receives the image,
  if any, and the local file paths.
- The timer's 300 ms interval and the event loop. The timer is a "running"
  flag. Starting it again is setting the flag. Its expiry is
  `QualityTimerFired`, which the environment calls.
- The internals of `ScreenieScene`, `TemplateOrganizer`,
  `ScreeniePixmapItem`, `Reflection` and the model classes are not part of
  this model.
  - Scene notifications are synchronous calls.
  - The organizer's order is the input `ordered`, which lists every
    template of the scene once.
  - The model setters are plain assignments and additions, with no clamping
    and no reduction of angles.
- An item follows its model's position in the item's own slot, which is not
  part of this model. So `Translate`, `UpdateContent` and the setters leave
  item positions alone, and an item's position is its model's position when
  the item was created.
- The graphics scene's `items()` order: the items are kept in the order in
  which their models were added.
- The single `addImage` wrappers (lines 152-156 and 171-176) and
  `getDefaultScreenieModel`, `getScreenieScene` and
  `getScreenieGraphicsScene`. The wrappers only wrap one element into a
  list; the getters only return a member.
- `qreal` rounding. Coordinates are real numbers.
- Control.ScreenieControl.constructor: starts over an empty scene with high
  quality. A controller built over a scene that already holds models gets
  its items from `UpdateScene`.
- Control.ScreenieControl.UpdatePixmapModel: states the items only where
  they stay as they were. After a conversion the items are what
  `ReplaceModel` states.
- Control.ScreenieControl.UpdateFilePathModel: states the items only where
  they stay as they were. After a conversion the items are what
  `ReplaceModel` states.
- Control.ScreenieControl.HandlePixmapsDrop: states the items only through
  `Valid()`, the one-to-one binding in depth order.
- Control.ScreenieControl.HandleFilePathsDrop: states the items only
  through `Valid()`, the one-to-one binding in depth order.
- Control.ScreenieControl.AddPlaced: states the items' selection and
  `Valid()`. It does not state their positions and modes.
