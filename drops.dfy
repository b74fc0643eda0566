/** Content dropped onto a scene that holds templates: the i-th dropped file
    path or pixmap updates the i-th template in the organizer's order, in
    lockstep, until either list runs out. */
module DropPairing {
  import opened ScreenieTypes
  import opened Geometry
  import opened ModelList
  import opened SceneEdits

  function Min(a: nat, b: nat): (m: nat) { if a <= b then a else b }

  /** After the first target is updated, the other targets are still
      templates of the scene. */
  lemma TargetsTail(ms: seq<Model>, r: seq<Model>, targets: seq<Handle>)
    requires TemplateTargets(ms, targets) && targets != []
    requires forall g :: g != targets[0] && HasKey(ms, ModelHandle, g) ==>
               HasKey(r, ModelHandle, g) && Lookup(r, ModelHandle, g) == Lookup(ms, ModelHandle, g)
    ensures TemplateTargets(r, targets[1..])
  {
    forall k | 0 <= k < |targets| - 1
      ensures HasKey(r, ModelHandle, targets[1..][k]) && Lookup(r, ModelHandle, targets[1..][k]).variant.Template?
    {
      assert targets[1..][k] == targets[k + 1] != targets[0];
    }
  }

  /** The while loop of handlePixmapsDrop over the ordered templates. */
  function DropPixmaps(ms: seq<Model>, next: Handle, targets: seq<Handle>, pixmaps: seq<Pixmap>, fit: Fitter)
    : (after: (seq<Model>, Handle))
    requires SceneOk(ms, next) && TemplateTargets(ms, targets)
    decreases |targets|
  {
    if targets == [] || pixmaps == [] then (ms, next)
    else
      var (r, n) := UpdatePixmap(ms, next, targets[0], pixmaps[0], fit);
      UpdatePixmapFacts(ms, next, targets[0], pixmaps[0], fit);
      TargetsTail(ms, r, targets);
      DropPixmaps(r, n, targets[1..], pixmaps[1..], fit)
  }

  /** The while loop of handleFilePathsDrop over the ordered templates. */
  function DropFilePaths(ms: seq<Model>, next: Handle, targets: seq<Handle>, paths: seq<string>,
                         imageSize: string -> Size, fit: Fitter): (after: (seq<Model>, Handle))
    requires SceneOk(ms, next) && TemplateTargets(ms, targets)
    decreases |targets|
  {
    if targets == [] || paths == [] then (ms, next)
    else
      var (r, n) := UpdateFilePath(ms, next, targets[0], paths[0], imageSize, fit);
      UpdateFilePathFacts(ms, next, targets[0], paths[0], imageSize, fit);
      TargetsTail(ms, r, targets);
      DropFilePaths(r, n, targets[1..], paths[1..], imageSize, fit)
  }

  /** One step of a pixmap drop: the first template is updated by the first
      pixmap, and the rest of the drop works on what that leaves. */
  lemma DropPixmapsStep(ms: seq<Model>, next: Handle, targets: seq<Handle>, pixmaps: seq<Pixmap>, fit: Fitter)
    requires SceneOk(ms, next) && TemplateTargets(ms, targets) && targets != [] && pixmaps != []
    ensures var (r, n) := UpdatePixmap(ms, next, targets[0], pixmaps[0], fit);
      && SceneOk(r, n) && TemplateTargets(r, targets[1..])
      && DropPixmaps(ms, next, targets, pixmaps, fit) == DropPixmaps(r, n, targets[1..], pixmaps[1..], fit)
  {
    var (r, n) := UpdatePixmap(ms, next, targets[0], pixmaps[0], fit);
    UpdatePixmapFacts(ms, next, targets[0], pixmaps[0], fit);
    TargetsTail(ms, r, targets);
  }

  /** The templates a pixmap drop consumes: those paired with a non-null
      pixmap. */
  function Consumed(targets: seq<Handle>, pixmaps: seq<Pixmap>): (c: set<Handle>)
    ensures forall g :: g in c ==> g in targets
  {
    if targets == [] || pixmaps == [] then {}
    else (if pixmaps[0].Image? then {targets[0]} else {}) + Consumed(targets[1..], pixmaps[1..])
  }

  /** The k-th template is consumed exactly when a pixmap of the same rank
      exists and is not null. */
  lemma {:induction false} ConsumedAt(targets: seq<Handle>, pixmaps: seq<Pixmap>, k: nat)
    requires k < |targets|
    requires forall a, b :: 0 <= a < b < |targets| ==> targets[a] != targets[b]
    ensures targets[k] in Consumed(targets, pixmaps) <==> k < |pixmaps| && pixmaps[k].Image?
  {
    if pixmaps != [] {
      if k == 0 {
        assert targets[0] !in targets[1..];
      } else {
        assert targets[1..][k - 1] == targets[k];
        if k < |pixmaps| { assert pixmaps[1..][k - 1] == pixmaps[k]; }
        ConsumedAt(targets[1..], pixmaps[1..], k - 1);
      }
    }
  }

  /** A pixmap drop onto templates keeps the scene's length; the consumed
      templates are gone, every other model is untouched, and every model
      that was not there has a fresh handle. */
  lemma {:induction false} DropPixmapsFacts(ms: seq<Model>, next: Handle, targets: seq<Handle>,
                                            pixmaps: seq<Pixmap>, fit: Fitter)
    requires SceneOk(ms, next) && TemplateTargets(ms, targets)
    decreases |targets|
    ensures var (r, n) := DropPixmaps(ms, next, targets, pixmaps, fit);
      && |r| == |ms| && SceneOk(r, n) && next <= n && FreshOrOld(ms, r, next)
      && (forall g :: g in Consumed(targets, pixmaps) ==> !HasKey(r, ModelHandle, g))
      && (forall g :: g !in Consumed(targets, pixmaps) && HasKey(ms, ModelHandle, g) ==> Untouched(ms, r, g))
  {
    if targets != [] && pixmaps != [] {
      var t := targets[0];
      var (r1, n1) := UpdatePixmap(ms, next, t, pixmaps[0], fit);
      UpdateTemplateByPixmap(ms, next, t, pixmaps[0], fit);
      TargetsTail(ms, r1, targets);
      DropPixmapsFacts(r1, n1, targets[1..], pixmaps[1..], fit);
      var (r, n) := DropPixmaps(r1, n1, targets[1..], pixmaps[1..], fit);
      assert t !in Consumed(targets[1..], pixmaps[1..]) by { assert t !in targets[1..]; }
      ComposeDropSteps(ms, next, r1, n1, r, n, t, pixmaps[0].Image?, Consumed(targets[1..], pixmaps[1..]));
    }
  }

  /** Composing the update of the first template (handle t, consumed when
      `image`) with the rest of a pixmap drop (consuming `rest`). */
  lemma ComposeDropSteps(ms: seq<Model>, next: Handle, r1: seq<Model>, n1: Handle,
                         r: seq<Model>, n: Handle, t: Handle, image: bool, rest: set<Handle>)
    requires |r1| == |ms| && SceneOk(r1, n1) && next <= n1 && FreshOrOld(ms, r1, next)
    requires !image ==> r1 == ms && n1 == next
    requires image ==> !HasKey(r1, ModelHandle, t)
    requires forall g :: g != t && HasKey(ms, ModelHandle, g) ==> Untouched(ms, r1, g)
    requires |r| == |r1| && SceneOk(r, n) && n1 <= n && FreshOrOld(r1, r, n1)
    requires forall g :: g in rest ==> !HasKey(r, ModelHandle, g)
    requires forall g :: g !in rest && HasKey(r1, ModelHandle, g) ==> Untouched(r1, r, g)
    requires t !in rest && t < next
    ensures |r| == |ms| && SceneOk(r, n) && next <= n && FreshOrOld(ms, r, next)
    ensures forall g :: g in (if image then {t} else {}) + rest ==> !HasKey(r, ModelHandle, g)
    ensures forall g :: g !in (if image then {t} else {}) + rest && HasKey(ms, ModelHandle, g) ==> Untouched(ms, r, g)
  {
    forall j | 0 <= j < |r| ensures r[j].handle >= next || HasKey(ms, ModelHandle, r[j].handle) {
      if r[j].handle < n1 {
        assert HasKey(r1, ModelHandle, r[j].handle);
      }
    }
    if image {
      forall j | 0 <= j < |r| ensures r[j].handle != t {
        if r[j].handle < n1 {
          assert HasKey(r1, ModelHandle, r[j].handle);
        }
      }
    }
    forall g | g !in (if image then {t} else {}) + rest && HasKey(ms, ModelHandle, g)
      ensures Untouched(ms, r, g)
    {
      if g != t {
        assert Untouched(ms, r1, g) && Untouched(r1, r, g);
      } else {
        assert Untouched(r1, r, g);
      }
    }
  }

  /** The handles of the first m targets. */
  function PairedTargets(targets: seq<Handle>, m: nat): (hs: set<Handle>)
    requires m <= |targets|
  {
    set k | 0 <= k < m :: targets[k]
  }

  /** The models a file-path drop adds, in order: the k-th is built from the
      k-th path with the k-th fresh handle, and carries the attributes, the
      centre and the fitter of the k-th template. */
  function PairedFilePathModels(ms: seq<Model>, next: Handle, targets: seq<Handle>, paths: seq<string>,
                                imageSize: string -> Size, fit: Fitter): (r: seq<Model>)
    requires TemplateTargets(ms, targets)
    ensures |r| == Min(|targets|, |paths|)
  {
    seq(Min(|targets|, |paths|), k requires 0 <= k < Min(|targets|, |paths|) =>
      FilledTemplate(Lookup(ms, ModelHandle, targets[k]), next + k, paths[k], imageSize, fit))
  }

  /** What a file-path drop onto templates leaves: the scene without the
      first min(#paths, #templates) templates, followed by the models built
      from the paths of the same rank, and the handle counter advanced by
      as many. */
  function FilePathsDropped(ms: seq<Model>, next: Handle, targets: seq<Handle>, paths: seq<string>,
                            imageSize: string -> Size, fit: Fitter): (after: (seq<Model>, Handle))
    requires TemplateTargets(ms, targets)
  {
    var m := Min(|targets|, |paths|);
    (Without(ms, ModelHandle, PairedTargets(targets, m))
       + PairedFilePathModels(ms, next, targets, paths, imageSize, fit), next + m)
  }

  /** A file-path drop onto templates removes exactly the first
      min(#paths, #templates) templates and appends, in order, the models
      built from the paths of the same rank; nothing else changes. */
  lemma {:induction false} DropFilePathsClosedForm(ms: seq<Model>, next: Handle, targets: seq<Handle>,
                                                   paths: seq<string>, imageSize: string -> Size, fit: Fitter)
    requires SceneOk(ms, next) && TemplateTargets(ms, targets)
    decreases |targets|
    ensures DropFilePaths(ms, next, targets, paths, imageSize, fit)
         == FilePathsDropped(ms, next, targets, paths, imageSize, fit)
  {
    if targets == [] || paths == [] {
      WithoutNothing(ms, ModelHandle, {});
      assert PairedTargets(targets, 0) == {};
      assert PairedFilePathModels(ms, next, targets, paths, imageSize, fit) == [];
      assert ms + [] == ms;
    } else {
      var r1 := UpdateFilePath(ms, next, targets[0], paths[0], imageSize, fit).0;
      FilePathsDropStep(ms, next, targets, paths, imageSize, fit);
      DropFilePathsClosedForm(r1, next + 1, targets[1..], paths[1..], imageSize, fit);
    }
  }

  /** One step of a file-path drop: the first template is replaced, and the
      rest of the drop, on what that leaves, has the same closed form. */
  lemma FilePathsDropStep(ms: seq<Model>, next: Handle, targets: seq<Handle>, paths: seq<string>,
                          imageSize: string -> Size, fit: Fitter)
    requires SceneOk(ms, next) && TemplateTargets(ms, targets) && targets != [] && paths != []
    ensures var r1 := UpdateFilePath(ms, next, targets[0], paths[0], imageSize, fit).0;
      && SceneOk(r1, next + 1) && TemplateTargets(r1, targets[1..])
      && DropFilePaths(ms, next, targets, paths, imageSize, fit)
         == DropFilePaths(r1, next + 1, targets[1..], paths[1..], imageSize, fit)
      && FilePathsDropped(r1, next + 1, targets[1..], paths[1..], imageSize, fit)
         == FilePathsDropped(ms, next, targets, paths, imageSize, fit)
  {
    var t := targets[0];
    var m := Min(|targets|, |paths|);
    var r1 := UpdateFilePath(ms, next, t, paths[0], imageSize, fit).0;
    var c0 := FilledTemplate(Lookup(ms, ModelHandle, t), next, paths[0], imageSize, fit);
    UpdateTemplateByFilePath(ms, next, t, paths[0], imageSize, fit);
    TargetsTail(ms, r1, targets);
    assert r1 == Without(ms, ModelHandle, {t}) + [c0];
    RemainingScene(ms, next, targets, m, c0);
    AddedModelsStep(ms, next, targets, paths, imageSize, fit, r1, c0);
    ClosedFormStep(ms, next, targets, paths, imageSize, fit, r1, c0);
  }

  /** The closed form after the first template is replaced by c is the
      closed form before, given how the scene and the added models split. */
  lemma ClosedFormStep(ms: seq<Model>, next: Handle, targets: seq<Handle>, paths: seq<string>,
                       imageSize: string -> Size, fit: Fitter, r1: seq<Model>, c: Model)
    requires targets != [] && paths != []
    requires TemplateTargets(ms, targets) && TemplateTargets(r1, targets[1..])
    requires var m := Min(|targets|, |paths|);
      Without(r1, ModelHandle, PairedTargets(targets[1..], m - 1))
      == Without(ms, ModelHandle, PairedTargets(targets, m)) + [c]
    requires PairedFilePathModels(ms, next, targets, paths, imageSize, fit)
          == [c] + PairedFilePathModels(r1, next + 1, targets[1..], paths[1..], imageSize, fit)
    ensures FilePathsDropped(r1, next + 1, targets[1..], paths[1..], imageSize, fit)
         == FilePathsDropped(ms, next, targets, paths, imageSize, fit)
  {
    var m := Min(|targets|, |paths|);
    var w := Without(ms, ModelHandle, PairedTargets(targets, m));
    var added1 := PairedFilePathModels(r1, next + 1, targets[1..], paths[1..], imageSize, fit);
    assert (w + [c]) + added1 == w + ([c] + added1);
  }

  /** The scene part of one step of a file-path drop. */
  lemma RemainingScene(ms: seq<Model>, next: Handle, targets: seq<Handle>, m: nat, c0: Model)
    requires SceneOk(ms, next) && TemplateTargets(ms, targets)
    requires 0 < m <= |targets| && c0.handle == next
    ensures Without(Without(ms, ModelHandle, {targets[0]}) + [c0], ModelHandle, PairedTargets(targets[1..], m - 1))
         == Without(ms, ModelHandle, PairedTargets(targets, m)) + [c0]
  {
    var t, tl := targets[0], targets[1..];
    var rest := PairedTargets(tl, m - 1);
    forall g | g in rest ensures HasKey(ms, ModelHandle, g) {
      var k :| 0 <= k < m - 1 && tl[k] == g;
      assert tl[k] == targets[k + 1];
    }
    ReplacedThenRemoved(ms, next, t, rest, c0);
    assert {t} + rest == PairedTargets(targets, m) by {
      forall g | g in PairedTargets(targets, m) ensures g in {t} + rest {
        var k :| 0 <= k < m && targets[k] == g;
        if k > 0 { assert tl[k - 1] == g; }
      }
      forall g | g in rest ensures g in PairedTargets(targets, m) {
        var k :| 0 <= k < m - 1 && tl[k] == g;
        assert targets[k + 1] == g;
      }
    }
  }

  /** Removing the models of `rest` after model t was replaced by the fresh
      model c0 is removing t and `rest` at once, c0 staying last. */
  lemma ReplacedThenRemoved(ms: seq<Model>, next: Handle, t: Handle, rest: set<Handle>, c0: Model)
    requires SceneOk(ms, next) && c0.handle == next
    requires forall g :: g in rest ==> HasKey(ms, ModelHandle, g)
    ensures Without(Without(ms, ModelHandle, {t}) + [c0], ModelHandle, rest)
         == Without(ms, ModelHandle, {t} + rest) + [c0]
  {
    assert c0.handle !in rest by {
      forall g | g in rest ensures g < next {
        var j := FirstIndex(ms, ModelHandle, g);
      }
    }
    WithoutConcat(Without(ms, ModelHandle, {t}), [c0], ModelHandle, rest);
    WithoutNothing([c0], ModelHandle, rest);
    WithoutTwice(ms, ModelHandle, {t}, rest);
  }

  /** The added-models part of one step of a file-path drop: the first
      added model is c, built from the first template and path, and the rest
      are the models the rest of the drop adds. */
  lemma AddedModelsStep(ms: seq<Model>, next: Handle, targets: seq<Handle>, paths: seq<string>,
                        imageSize: string -> Size, fit: Fitter, r1: seq<Model>, c: Model)
    requires TemplateTargets(ms, targets) && targets != [] && paths != []
    requires TemplateTargets(r1, targets[1..])
    requires forall g :: g != targets[0] && HasKey(ms, ModelHandle, g) ==> Untouched(ms, r1, g)
    requires c == FilledTemplate(Lookup(ms, ModelHandle, targets[0]), next, paths[0], imageSize, fit)
    ensures PairedFilePathModels(ms, next, targets, paths, imageSize, fit)
         == [c] + PairedFilePathModels(r1, next + 1, targets[1..], paths[1..], imageSize, fit)
  {
    var added := PairedFilePathModels(ms, next, targets, paths, imageSize, fit);
    var added1 := PairedFilePathModels(r1, next + 1, targets[1..], paths[1..], imageSize, fit);
    var rhs := [c] + added1;
    forall i | 0 < i < |added| ensures added[i] == rhs[i] {
      var g := targets[i];
      assert targets[1..][i - 1] == g != targets[0];
      assert Untouched(ms, r1, g);
      AddedModelAt(ms, next, targets, paths, imageSize, fit, r1, i);
    }
    assert added == rhs;
  }

  /** The i-th model a file-path drop adds, for i > 0, is the (i-1)-th the
      rest of the drop adds, when the i-th template is untouched by the
      first step. */
  lemma AddedModelAt(ms: seq<Model>, next: Handle, targets: seq<Handle>, paths: seq<string>,
                     imageSize: string -> Size, fit: Fitter, r1: seq<Model>, i: nat)
    requires TemplateTargets(ms, targets) && targets != [] && TemplateTargets(r1, targets[1..])
    requires 0 < i < Min(|targets|, |paths|) && Untouched(ms, r1, targets[i])
    ensures PairedFilePathModels(r1, next + 1, targets[1..], paths[1..], imageSize, fit)[i - 1]
         == PairedFilePathModels(ms, next, targets, paths, imageSize, fit)[i]
  {
    var g := targets[i];
    assert targets[1..][i - 1] == g && paths[1..][i - 1] == paths[i];
    assert Lookup(r1, ModelHandle, g) == Lookup(ms, ModelHandle, g);
  }

  /** The models a pixmap drop adds, in order: each non-null pixmap, paired
      with the template of the same rank, gives the pixmap model holding it
      fitted to that template, with the next fresh handle; a null pixmap
      adds nothing and leaves its template in place. */
  function PixmapModels(ms: seq<Model>, next: Handle, targets: seq<Handle>, pixmaps: seq<Pixmap>, fit: Fitter)
    : (r: seq<Model>)
    requires TemplateTargets(ms, targets)
    decreases |targets|
    ensures |r| <= Min(|targets|, |pixmaps|)
  {
    if targets == [] || pixmaps == [] then []
    else
      assert TemplateTargets(ms, targets[1..]) by {
        forall k | 0 <= k < |targets| - 1 ensures targets[1..][k] == targets[k + 1] { }
      }
      if pixmaps[0].Image? then
        [PixmapFilledTemplate(Lookup(ms, ModelHandle, targets[0]), next, pixmaps[0], fit)]
          + PixmapModels(ms, next + 1, targets[1..], pixmaps[1..], fit)
      else PixmapModels(ms, next, targets[1..], pixmaps[1..], fit)
  }

  /** What a pixmap drop onto templates leaves: the scene without the
      consumed templates, followed by the models built from their pixmaps,
      and the handle counter advanced by as many. */
  function PixmapsDropped(ms: seq<Model>, next: Handle, targets: seq<Handle>, pixmaps: seq<Pixmap>, fit: Fitter)
    : (after: (seq<Model>, Handle))
    requires TemplateTargets(ms, targets)
  {
    var added := PixmapModels(ms, next, targets, pixmaps, fit);
    (Without(ms, ModelHandle, Consumed(targets, pixmaps)) + added, next + |added|)
  }

  /** A pixmap drop onto templates removes exactly the templates paired with
      a non-null pixmap and appends, in rank order, the pixmap models
      holding those pixmaps fitted to their templates; nothing else
      changes. */
  lemma {:induction false} DropPixmapsClosedForm(ms: seq<Model>, next: Handle, targets: seq<Handle>,
                                                 pixmaps: seq<Pixmap>, fit: Fitter)
    requires SceneOk(ms, next) && TemplateTargets(ms, targets)
    decreases |targets|
    ensures DropPixmaps(ms, next, targets, pixmaps, fit) == PixmapsDropped(ms, next, targets, pixmaps, fit)
  {
    if targets == [] || pixmaps == [] {
      WithoutNothing(ms, ModelHandle, {});
      assert ms + [] == ms;
    } else if pixmaps[0].Image? {
      var r1 := UpdatePixmap(ms, next, targets[0], pixmaps[0], fit).0;
      DropPixmapsStep(ms, next, targets, pixmaps, fit);
      ImageStep(ms, next, targets, pixmaps, fit);
      DropPixmapsClosedForm(r1, next + 1, targets[1..], pixmaps[1..], fit);
    } else {
      NullDropStep(ms, next, targets, pixmaps, fit);
      NullStep(ms, next, targets, pixmaps, fit);
      DropPixmapsClosedForm(ms, next, targets[1..], pixmaps[1..], fit);
    }
  }

  /** A null first pixmap leaves the first template in place: the drop is
      the drop of the rest. */
  lemma NullDropStep(ms: seq<Model>, next: Handle, targets: seq<Handle>, pixmaps: seq<Pixmap>, fit: Fitter)
    requires SceneOk(ms, next) && TemplateTargets(ms, targets) && targets != [] && pixmaps != []
    requires pixmaps[0].NullPixmap?
    ensures TemplateTargets(ms, targets[1..])
    ensures DropPixmaps(ms, next, targets, pixmaps, fit) == DropPixmaps(ms, next, targets[1..], pixmaps[1..], fit)
  {
    DropPixmapsStep(ms, next, targets, pixmaps, fit);
    UpdateTemplateByPixmap(ms, next, targets[0], pixmaps[0], fit);
  }

  /** One step of the closed form of a pixmap drop whose first pixmap is
      null: the closed form is that of the rest. */
  lemma NullStep(ms: seq<Model>, next: Handle, targets: seq<Handle>, pixmaps: seq<Pixmap>, fit: Fitter)
    requires TemplateTargets(ms, targets) && targets != [] && pixmaps != []
    requires pixmaps[0].NullPixmap?
    ensures TemplateTargets(ms, targets[1..])
    ensures PixmapsDropped(ms, next, targets[1..], pixmaps[1..], fit) == PixmapsDropped(ms, next, targets, pixmaps, fit)
  {
    PixmapModelsSkip(ms, next, targets, pixmaps, fit);
    assert Consumed(targets, pixmaps) == Consumed(targets[1..], pixmaps[1..]);
  }

  /** One step of the closed form of a pixmap drop whose first pixmap is not
      null: the first template is replaced, and the closed form of the rest
      of the drop on what that leaves is the closed form of the whole. */
  lemma ImageStep(ms: seq<Model>, next: Handle, targets: seq<Handle>, pixmaps: seq<Pixmap>, fit: Fitter)
    requires SceneOk(ms, next) && TemplateTargets(ms, targets) && targets != [] && pixmaps != []
    requires pixmaps[0].Image?
    ensures var (r1, n1) := UpdatePixmap(ms, next, targets[0], pixmaps[0], fit);
      && n1 == next + 1 && TemplateTargets(r1, targets[1..])
      && PixmapsDropped(r1, n1, targets[1..], pixmaps[1..], fit) == PixmapsDropped(ms, next, targets, pixmaps, fit)
  {
    DropPixmapsStep(ms, next, targets, pixmaps, fit);
    var t := targets[0];
    var r1 := UpdatePixmap(ms, next, t, pixmaps[0], fit).0;
    var c0 := PixmapFilledTemplate(Lookup(ms, ModelHandle, t), next, pixmaps[0], fit);
    UpdateTemplateByPixmap(ms, next, t, pixmaps[0], fit);
    PixmapSceneStep(ms, next, targets, pixmaps, c0);
    PixmapAddedStep(ms, next, targets, pixmaps, fit, r1);
    PixmapModelsCons(ms, next, targets, pixmaps, fit);
    PixmapStep(ms, next, targets, pixmaps, fit, r1, c0, PixmapModels(r1, next + 1, targets[1..], pixmaps[1..], fit));
  }

  /** One step of the closed form of a pixmap drop whose first pixmap is not
      null: when the scene r1 the first step leaves and the models the drop
      adds split as stated, the closed form of the rest of the drop on r1 is
      the closed form of the whole. */
  lemma PixmapStep(ms: seq<Model>, next: Handle, targets: seq<Handle>, pixmaps: seq<Pixmap>, fit: Fitter,
                   r1: seq<Model>, c0: Model, added1: seq<Model>)
    requires targets != [] && pixmaps != []
    requires TemplateTargets(ms, targets) && TemplateTargets(r1, targets[1..])
    requires Without(r1, ModelHandle, Consumed(targets[1..], pixmaps[1..]))
          == Without(ms, ModelHandle, Consumed(targets, pixmaps)) + [c0]
    requires added1 == PixmapModels(r1, next + 1, targets[1..], pixmaps[1..], fit)
    requires PixmapModels(ms, next, targets, pixmaps, fit) == [c0] + added1
    ensures PixmapsDropped(r1, next + 1, targets[1..], pixmaps[1..], fit)
         == PixmapsDropped(ms, next, targets, pixmaps, fit)
  {
    SpliceLast(Without(ms, ModelHandle, Consumed(targets, pixmaps)), c0, added1);
  }

  /** Moving the last element of a scene to the front of what follows it
      leaves the concatenation the same. */
  lemma SpliceLast(w: seq<Model>, c: Model, rest: seq<Model>)
    ensures (w + [c]) + rest == w + ([c] + rest)
  {
    assert |(w + [c]) + rest| == |w| + 1 + |rest|;
  }

  /** The models a pixmap drop adds, when its first pixmap is not null: the
      model filled from the first template, then those the rest adds. */
  lemma PixmapModelsCons(ms: seq<Model>, next: Handle, targets: seq<Handle>, pixmaps: seq<Pixmap>, fit: Fitter)
    requires targets != [] && pixmaps != [] && pixmaps[0].Image? && TemplateTargets(ms, targets)
    ensures TemplateTargets(ms, targets[1..])
    ensures PixmapModels(ms, next, targets, pixmaps, fit)
         == [PixmapFilledTemplate(Lookup(ms, ModelHandle, targets[0]), next, pixmaps[0], fit)]
            + PixmapModels(ms, next + 1, targets[1..], pixmaps[1..], fit)
  {
    assert TemplateTargets(ms, targets[1..]) by {
      forall k | 0 <= k < |targets| - 1 ensures targets[1..][k] == targets[k + 1] { }
    }
  }

  /** A non-null first pixmap consumes the first template, which the rest
      of the drop does not consume again. */
  lemma ConsumedCons(targets: seq<Handle>, pixmaps: seq<Pixmap>)
    requires targets != [] && pixmaps != [] && pixmaps[0].Image?
    requires forall a, b :: 0 <= a < b < |targets| ==> targets[a] != targets[b]
    ensures Consumed(targets, pixmaps) == {targets[0]} + Consumed(targets[1..], pixmaps[1..])
    ensures targets[0] !in Consumed(targets[1..], pixmaps[1..])
    ensures |Consumed(targets, pixmaps)| == |Consumed(targets[1..], pixmaps[1..])| + 1
  {
    assert targets[0] !in targets[1..];
    var rest := Consumed(targets[1..], pixmaps[1..]);
    assert {targets[0]} + rest == rest + {targets[0]};
  }

  /** The models a pixmap drop adds, when its first pixmap is null: those
      the rest adds; the first template is not consumed. */
  lemma PixmapModelsSkip(ms: seq<Model>, next: Handle, targets: seq<Handle>, pixmaps: seq<Pixmap>, fit: Fitter)
    requires targets != [] && pixmaps != [] && pixmaps[0].NullPixmap? && TemplateTargets(ms, targets)
    ensures TemplateTargets(ms, targets[1..])
    ensures PixmapModels(ms, next, targets, pixmaps, fit) == PixmapModels(ms, next, targets[1..], pixmaps[1..], fit)
  {
    assert TemplateTargets(ms, targets[1..]) by {
      forall k | 0 <= k < |targets| - 1 ensures targets[1..][k] == targets[k + 1] { }
    }
  }

  /** The scene part of one step of a pixmap drop whose first pixmap is not
      null. */
  lemma PixmapSceneStep(ms: seq<Model>, next: Handle, targets: seq<Handle>, pixmaps: seq<Pixmap>, c0: Model)
    requires SceneOk(ms, next) && TemplateTargets(ms, targets) && targets != [] && pixmaps != []
    requires pixmaps[0].Image? && c0.handle == next
    ensures Without(Without(ms, ModelHandle, {targets[0]}) + [c0], ModelHandle, Consumed(targets[1..], pixmaps[1..]))
         == Without(ms, ModelHandle, Consumed(targets, pixmaps)) + [c0]
  {
    var tl, rest := targets[1..], Consumed(targets[1..], pixmaps[1..]);
    forall g | g in rest ensures HasKey(ms, ModelHandle, g) {
      var k :| 0 <= k < |tl| && tl[k] == g;
      assert tl[k] == targets[k + 1];
    }
    ReplacedThenRemoved(ms, next, targets[0], rest, c0);
  }

  /** The added-models part of one step of a pixmap drop whose first pixmap
      is not null. */
  lemma PixmapAddedStep(ms: seq<Model>, next: Handle, targets: seq<Handle>, pixmaps: seq<Pixmap>, fit: Fitter,
                        r1: seq<Model>)
    requires TemplateTargets(ms, targets) && targets != [] && pixmaps != []
    requires pixmaps[0].Image? && TemplateTargets(r1, targets[1..])
    requires forall g :: g != targets[0] && HasKey(ms, ModelHandle, g) ==> Untouched(ms, r1, g)
    ensures TemplateTargets(ms, targets[1..])
    ensures PixmapModels(r1, next + 1, targets[1..], pixmaps[1..], fit)
         == PixmapModels(ms, next + 1, targets[1..], pixmaps[1..], fit)
  {
    var tl := targets[1..];
    assert TemplateTargets(ms, tl) by {
      forall k | 0 <= k < |tl| ensures tl[k] == targets[k + 1] { }
    }
    forall k | 0 <= k < |tl| ensures Lookup(r1, ModelHandle, tl[k]) == Lookup(ms, ModelHandle, tl[k]) {
      assert tl[k] == targets[k + 1] != targets[0];
    }
    PixmapModelsAgree(ms, r1, next + 1, tl, pixmaps[1..], fit);
  }

  /** The models a pixmap drop adds depend on the scene only through the
      templates it targets. */
  lemma {:induction false} PixmapModelsAgree(ms: seq<Model>, ms': seq<Model>, next: Handle,
                                             targets: seq<Handle>, pixmaps: seq<Pixmap>, fit: Fitter)
    requires TemplateTargets(ms, targets) && TemplateTargets(ms', targets)
    requires forall k :: 0 <= k < |targets| ==>
               Lookup(ms', ModelHandle, targets[k]) == Lookup(ms, ModelHandle, targets[k])
    decreases |targets|
    ensures PixmapModels(ms', next, targets, pixmaps, fit) == PixmapModels(ms, next, targets, pixmaps, fit)
  {
    if targets != [] && pixmaps != [] {
      var tl := targets[1..];
      assert TemplateTargets(ms, tl) && TemplateTargets(ms', tl) by {
        forall k | 0 <= k < |tl| ensures tl[k] == targets[k + 1] { }
      }
      forall k | 0 <= k < |tl|
        ensures Lookup(ms', ModelHandle, tl[k]) == Lookup(ms, ModelHandle, tl[k])
      {
        assert tl[k] == targets[k + 1];
      }
      var n1 := if pixmaps[0].Image? then next + 1 else next;
      PixmapModelsAgree(ms, ms', n1, tl, pixmaps[1..], fit);
    }
  }

  /** The j-th model a pixmap drop adds is a pixmap model with handle
      next + j: the handles count up from next. */
  lemma {:induction false} PixmapModelAt(ms: seq<Model>, next: Handle, targets: seq<Handle>,
                                         pixmaps: seq<Pixmap>, fit: Fitter, j: nat)
    requires TemplateTargets(ms, targets) && j < |PixmapModels(ms, next, targets, pixmaps, fit)|
    decreases |targets|
    ensures PixmapModels(ms, next, targets, pixmaps, fit)[j].handle == next + j
    ensures PixmapModels(ms, next, targets, pixmaps, fit)[j].variant.PixmapData?
  {
    if pixmaps[0].Image? {
      PixmapModelsCons(ms, next, targets, pixmaps, fit);
      if j > 0 {
        PixmapModelAt(ms, next + 1, targets[1..], pixmaps[1..], fit, j - 1);
      }
    } else {
      PixmapModelsSkip(ms, next, targets, pixmaps, fit);
      PixmapModelAt(ms, next, targets[1..], pixmaps[1..], fit, j);
    }
  }

  /** A pixmap drop adds one model per consumed template. */
  lemma {:induction false} PixmapModelsCount(ms: seq<Model>, next: Handle, targets: seq<Handle>,
                                             pixmaps: seq<Pixmap>, fit: Fitter)
    requires TemplateTargets(ms, targets)
    decreases |targets|
    ensures |PixmapModels(ms, next, targets, pixmaps, fit)| == |Consumed(targets, pixmaps)|
  {
    if targets != [] && pixmaps != [] {
      if pixmaps[0].Image? {
        PixmapModelsCons(ms, next, targets, pixmaps, fit);
        ConsumedCons(targets, pixmaps);
        PixmapModelsCount(ms, next + 1, targets[1..], pixmaps[1..], fit);
      } else {
        PixmapModelsSkip(ms, next, targets, pixmaps, fit);
        assert Consumed(targets, pixmaps) == Consumed(targets[1..], pixmaps[1..]);
        PixmapModelsCount(ms, next, targets[1..], pixmaps[1..], fit);
      }
    }
  }
}
