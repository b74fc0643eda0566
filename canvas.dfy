/** The graphics scene as the controller sees it: the list of pixmap items,
    each bound to one model, with its selection flag, z-value and
    transformation mode. */
module Canvas {
  import opened ScreenieTypes
  import opened ModelList
  import opened DepthOrder
  import opened SceneEdits

  /** Item j shows model j: the canvas holds exactly one item per model, in
      the scene's order. */
  predicate Bound(ms: seq<Model>, its: seq<Item>)
  {
    |its| == |ms| && forall j :: 0 <= j < |ms| ==> its[j].model == ms[j].handle
  }

  /** The z-values follow zSort: an item whose model is further away is
      strictly behind every item whose model is closer. */
  predicate DepthOrdered(ms: seq<Model>, its: seq<Item>)
    requires |its| == |ms|
  {
    forall a, b :: 0 <= a < |ms| && 0 <= b < |ms| && ZSort(ms[a].distance, ms[b].distance) ==> its[a].z < its[b].z
  }

  /** The items with their z-values forgotten. */
  function Shape(its: seq<Item>): (r: seq<Item>)
    ensures |r| == |its| && forall j :: 0 <= j < |its| ==> r[j] == its[j].(z := 0)
  {
    seq(|its|, j requires 0 <= j < |its| => its[j].(z := 0))
  }

  /** QGraphicsScene::clearSelection. */
  function Deselected(its: seq<Item>): (r: seq<Item>)
    ensures |r| == |its| && forall j :: 0 <= j < |its| ==> r[j] == its[j].(selected := false)
  {
    seq(|its|, j requires 0 <= j < |its| => its[j].(selected := false))
  }

  /** Every item in transformation mode q. */
  function WithMode(its: seq<Item>, q: RenderQuality): (r: seq<Item>)
    ensures |r| == |its| && forall j :: 0 <= j < |its| ==> r[j] == its[j].(mode := q)
  {
    seq(|its|, j requires 0 <= j < |its| => its[j].(mode := q))
  }

  /** The item handleModelAdded creates for model m: at m's position,
      selected, at z 0, in the mode a new item starts in. */
  function NewItem(m: Model, mode: RenderQuality): (it: Item)
  {
    Item(m.handle, m.position, true, 0, mode)
  }

  /** The handles of the models of the selected items. */
  function SelectedSet(its: seq<Item>): (hs: set<Handle>)
  {
    set j | 0 <= j < |its| && its[j].selected :: its[j].model
  }

  /** getSelectedScreenieModels: the models of the selected items, in item
      order. */
  function SelectedHandles(its: seq<Item>): (hs: seq<Handle>)
    ensures |hs| <= |its|
  {
    if its == [] then []
    else
      var last := its[|its| - 1];
      SelectedHandles(its[..|its| - 1]) + (if last.selected then [last.model] else [])
  }

  /** The selected models are exactly those of the selected items. */
  lemma {:induction false} SelectedHandlesMembers(its: seq<Item>)
    ensures forall k :: 0 <= k < |SelectedHandles(its)| ==> SelectedHandles(its)[k] in SelectedSet(its)
    ensures forall h :: h in SelectedSet(its) ==> h in SelectedHandles(its)
  {
    if its != [] {
      var init := its[..|its| - 1];
      SelectedHandlesMembers(init);
      assert forall j :: 0 <= j < |init| ==> init[j] == its[j];
      forall h | h in SelectedSet(its) ensures h in SelectedHandles(its) {
        var j :| 0 <= j < |its| && its[j].selected && its[j].model == h;
        if j < |init| {
          assert h in SelectedSet(init);
        }
      }
    }
  }

  /** Items bound to distinct models yield each selected model once. */
  lemma {:induction false} SelectedHandlesDistinct(its: seq<Item>)
    requires DistinctKeys(its, ItemModel)
    ensures forall a, b :: 0 <= a < b < |SelectedHandles(its)| ==> SelectedHandles(its)[a] != SelectedHandles(its)[b]
  {
    if its != [] {
      var init := its[..|its| - 1];
      var last := its[|its| - 1];
      assert DistinctKeys(init, ItemModel) by {
        assert forall j :: 0 <= j < |init| ==> init[j] == its[j];
      }
      SelectedHandlesDistinct(init);
      SelectedHandlesMembers(init);
      var hs := SelectedHandles(init);
      forall k | 0 <= k < |hs| ensures hs[k] != last.model {
        assert hs[k] in SelectedSet(init);
        var j :| 0 <= j < |init| && init[j].selected && init[j].model == hs[k];
        assert its[j] == init[j];
      }
    }
  }

  /** What a batch setter does to the models: the change applied to the
      model of every selected item, every other model left alone. */
  function AppliedToSelected(c: Change, ms: seq<Model>, its: seq<Item>): (r: seq<Model>)
    requires |its| == |ms|
    ensures |r| == |ms|
  {
    seq(|ms|, j requires 0 <= j < |ms| => if its[j].selected then Apply(c, ms[j]) else ms[j])
  }

  /** A batch setter keeps every model's handle, and a change that is not
      to the distance keeps the z-order valid. */
  lemma AppliedKeeps(c: Change, ms: seq<Model>, its: seq<Item>)
    requires Bound(ms, its)
    ensures Bound(AppliedToSelected(c, ms, its), its)
    ensures !c.ChangesDistance() && DepthOrdered(ms, its) ==> DepthOrdered(AppliedToSelected(c, ms, its), its)
  {
    var r := AppliedToSelected(c, ms, its);
    assert forall j :: 0 <= j < |ms| ==> r[j].handle == ms[j].handle;
    if !c.ChangesDistance() {
      assert forall j :: 0 <= j < |ms| ==> r[j].distance == ms[j].distance;
    }
  }

  /** Items bound to models with distinct handles have distinct models, and
      the first item of a model sits where that model does. */
  lemma BoundIndex(ms: seq<Model>, its: seq<Item>, h: Handle)
    requires Bound(ms, its) && DistinctKeys(ms, ModelHandle)
    ensures DistinctKeys(its, ItemModel)
    ensures HasKey(its, ItemModel, h) == HasKey(ms, ModelHandle, h)
    ensures FirstIndex(its, ItemModel, h) == FirstIndex(ms, ModelHandle, h)
  {
    var k := FirstIndex(ms, ModelHandle, h);
    if k < |ms| {
      assert ItemModel(its[k]) == h;
    }
  }

  /** Taking the same position out of the models and their items keeps the
      items bound and depth-ordered. */
  lemma RemoveAtKeepsOrder(ms: seq<Model>, its: seq<Item>, k: nat)
    requires Bound(ms, its) && DepthOrdered(ms, its) && k < |ms|
    ensures Bound(ms[..k] + ms[k + 1..], its[..k] + its[k + 1..])
    ensures DepthOrdered(ms[..k] + ms[k + 1..], its[..k] + its[k + 1..])
  {
    var ms', its' := ms[..k] + ms[k + 1..], its[..k] + its[k + 1..];
    assert forall j :: 0 <= j < |ms'| ==> ms'[j] == ms[if j < k then j else j + 1];
    assert forall j :: 0 <= j < |its'| ==> its'[j] == its[if j < k then j else j + 1];
  }

  /** Every selected handle is the handle of a model of the scene. */
  lemma SelectedPresent(ms: seq<Model>, its: seq<Item>)
    requires Bound(ms, its)
    ensures forall k :: 0 <= k < |SelectedHandles(its)| ==> HasKey(ms, ModelHandle, SelectedHandles(its)[k])
  {
    SelectedHandlesMembers(its);
    var hs := SelectedHandles(its);
    forall k | 0 <= k < |hs| ensures HasKey(ms, ModelHandle, hs[k]) {
      assert hs[k] in SelectedSet(its);
      var j :| 0 <= j < |its| && its[j].selected && its[j].model == hs[k];
      assert ModelHandle(ms[j]) == hs[k];
    }
  }

  /** Part way through a batch setter: the models whose handle is in done
      have had c applied, the others are as they were in ms0. */
  predicate PartlyApplied(c: Change, ms0: seq<Model>, ms: seq<Model>, done: set<Handle>)
  {
    |ms| == |ms0| && forall j :: 0 <= j < |ms0| ==> ms[j] == if ms0[j].handle in done then Apply(c, ms0[j]) else ms0[j]
  }

  /** Applying c to the model with a handle not yet done extends the done
      set by that handle. */
  lemma ApplyOne(c: Change, ms0: seq<Model>, ms: seq<Model>, done: set<Handle>, h: Handle)
    requires PartlyApplied(c, ms0, ms, done) && DistinctKeys(ms0, ModelHandle)
    requires h !in done && HasKey(ms0, ModelHandle, h)
    ensures FirstIndex(ms, ModelHandle, h) == FirstIndex(ms0, ModelHandle, h) < |ms|
    ensures var k := FirstIndex(ms, ModelHandle, h);
      PartlyApplied(c, ms0, ms[k := Apply(c, ms[k])], done + {h})
  {
    var k := FirstIndex(ms0, ModelHandle, h);
    SameHandles(c, ms0, ms, done, h);
    var ms' := ms[k := Apply(c, ms[k])];
    forall j | 0 <= j < |ms0|
      ensures ms'[j] == if ms0[j].handle in done + {h} then Apply(c, ms0[j]) else ms0[j]
    {
      if j != k {
        assert ModelHandle(ms0[j]) != ModelHandle(ms0[k]);
      }
    }
  }

  /** A batch setter part way through finds each model where it was. */
  lemma SameHandles(c: Change, ms0: seq<Model>, ms: seq<Model>, done: set<Handle>, h: Handle)
    requires PartlyApplied(c, ms0, ms, done)
    ensures FirstIndex(ms, ModelHandle, h) == FirstIndex(ms0, ModelHandle, h)
  {
    assert forall j :: 0 <= j < |ms| ==> ModelHandle(ms[j]) == ModelHandle(ms0[j]);
  }

  /** A batch setter part way through keeps the models bound to their items
      and the handles valid, and, when it does not touch distances, the
      depth order. */
  lemma PartlyAppliedKeeps(c: Change, ms0: seq<Model>, ms: seq<Model>, done: set<Handle>, its: seq<Item>, next: Handle)
    requires PartlyApplied(c, ms0, ms, done) && Bound(ms0, its) && SceneOk(ms0, next)
    ensures Bound(ms, its) && SceneOk(ms, next)
    ensures !c.ChangesDistance() && DepthOrdered(ms0, its) ==> DepthOrdered(ms, its)
  {
    assert forall j :: 0 <= j < |ms| ==> ms[j].handle == ms0[j].handle;
    if !c.ChangesDistance() {
      assert forall j :: 0 <= j < |ms| ==> ms[j].distance == ms0[j].distance;
    }
  }

  /** Between two rounds of a batch setter's loop, given the models ms0 and
      items its0 before it and the handles done so far: consistent, the
      change applied to exactly the done models, the items only re-ranked
      and, unless distances change, untouched. */
  predicate Applying(c: Change, ms0: seq<Model>, its0: seq<Item>, done: set<Handle>,
                     ms: seq<Model>, its: seq<Item>, next: Handle)
  {
    && Consistent(ms, its, next) && SceneOk(ms0, next)
    && Shape(its) == Shape(its0) && Bound(ms0, its)
    && (!c.ChangesDistance() ==> its == its0 && DepthOrdered(ms0, its0))
    && PartlyApplied(c, ms0, ms, done)
  }

  /** The re-ranking after a change of distance completes the round: the
      items before it were bound and shaped as at the start. */
  lemma RerankStep(c: Change, ms0: seq<Model>, its0: seq<Item>, done: set<Handle>,
                   ms: seq<Model>, before: seq<Item>, its: seq<Item>, next: Handle)
    requires c.ChangesDistance() && PartlyApplied(c, ms0, ms, done)
    requires SceneOk(ms, next) && SceneOk(ms0, next)
    requires Bound(ms, before) && Bound(ms0, before) && Shape(before) == Shape(its0)
    requires Shape(its) == Shape(before) && DepthOrdered(ms, its)
    ensures Applying(c, ms0, its0, done, ms, its, next)
  {
    ShapeKeepsBound(ms, its, before);
    ShapeKeepsBound(ms0, its, before);
  }

  /** Once every selected handle is done, the batch setter has produced
      AppliedToSelected. */
  lemma AllApplied(c: Change, ms0: seq<Model>, its0: seq<Item>, ms: seq<Model>)
    requires Bound(ms0, its0) && DistinctKeys(ms0, ModelHandle)
    requires PartlyApplied(c, ms0, ms, SelectedSet(its0))
    ensures ms == AppliedToSelected(c, ms0, its0)
  {
    forall j | 0 <= j < |ms0| ensures ms0[j].handle in SelectedSet(its0) <==> its0[j].selected {
      if ms0[j].handle in SelectedSet(its0) {
        var j' :| 0 <= j' < |its0| && its0[j'].selected && its0[j'].model == ms0[j].handle;
        assert ModelHandle(ms0[j']) == ModelHandle(ms0[j]);
      }
    }
  }

  /** The controller's invariant: every model has its item at the same
      rank, the handles are distinct and below the next fresh one, and the
      z-values follow zSort. */
  predicate Consistent(ms: seq<Model>, its: seq<Item>, next: Handle)
  {
    Bound(ms, its) && SceneOk(ms, next) && DepthOrdered(ms, its)
  }

  /** removeModel with its notification: the model and the item at the
      model's rank leave, and what remains is consistent. */
  lemma RemoveAtKeepsConsistent(ms: seq<Model>, its: seq<Item>, next: Handle, h: Handle, k: nat)
    requires Consistent(ms, its, next) && HasKey(ms, ModelHandle, h) && k == FirstIndex(ms, ModelHandle, h)
    ensures k < |ms| && FirstIndex(its, ItemModel, h) == k
    ensures Consistent(ms[..k] + ms[k + 1..], its[..k] + its[k + 1..], next)
  {
    BoundIndex(ms, its, h);
    RemoveAtKeepsOrder(ms, its, k);
    RemoveAtKeepsSceneOk(ms, next, k);
  }

  /** Items of the same shape differ at most in their z-values, so they are
      bound to the same models. */
  lemma ShapeKeepsBound(ms: seq<Model>, a: seq<Item>, b: seq<Item>)
    requires Shape(a) == Shape(b) && Bound(ms, b)
    ensures Bound(ms, a)
    ensures forall j :: 0 <= j < |a| ==> a[j].model == b[j].model && a[j].selected == b[j].selected
  {
    forall j | 0 <= j < |a| ensures a[j].model == b[j].model && a[j].selected == b[j].selected {
      assert Shape(a)[j] == Shape(b)[j];
    }
  }

  /** Changing the transformation mode keeps the selection, so a batch
      setter that lowers the quality first changes the same models. */
  lemma WithModeKeepsSelection(c: Change, ms: seq<Model>, its: seq<Item>, q: RenderQuality)
    requires |its| == |ms|
    ensures SelectedSet(WithMode(its, q)) == SelectedSet(its)
    ensures AppliedToSelected(c, ms, WithMode(its, q)) == AppliedToSelected(c, ms, its)
  {
    var w := WithMode(its, q);
    assert forall j :: 0 <= j < |its| ==> w[j].selected == its[j].selected && w[j].model == its[j].model;
    forall h | h in SelectedSet(w) ensures h in SelectedSet(its) {
      var j :| 0 <= j < |w| && w[j].selected && w[j].model == h;
      assert its[j].selected && its[j].model == h;
    }
    forall h | h in SelectedSet(its) ensures h in SelectedSet(w) {
      var j :| 0 <= j < |its| && its[j].selected && its[j].model == h;
      assert w[j].selected && w[j].model == h;
    }
  }

  /** A model changed in place without touching its handle or distance
      keeps the items bound and depth-ordered. */
  lemma SameSlotKeepsOrder(ms: seq<Model>, its: seq<Item>, k: nat, m: Model)
    requires Bound(ms, its) && DepthOrdered(ms, its) && k < |ms|
    requires m.handle == ms[k].handle && m.distance == ms[k].distance
    ensures Bound(ms[k := m], its) && DepthOrdered(ms[k := m], its)
  {
    var ms' := ms[k := m];
    assert forall j :: 0 <= j < |ms| ==> ms'[j].handle == ms[j].handle && ms'[j].distance == ms[j].distance;
  }

  /** removeAll keeps a model exactly when its item was not selected. */
  lemma RemovedExactlySelected(ms: seq<Model>, its: seq<Item>)
    requires Bound(ms, its) && DistinctKeys(ms, ModelHandle)
    ensures forall j :: 0 <= j < |ms| ==>
      (ms[j] in Without(ms, ModelHandle, SelectedSet(its)) <==> !its[j].selected)
  {
    var gone := SelectedSet(its);
    var r := Without(ms, ModelHandle, gone);
    WithoutMembers(ms, ModelHandle, gone);
    forall j | 0 <= j < |ms| ensures ms[j] in r <==> !its[j].selected {
      if its[j].selected {
        assert ModelHandle(ms[j]) in gone;
      } else {
        forall j' | 0 <= j' < |its| && its[j'].selected ensures its[j'].model != ms[j].handle {
          assert j' != j;
          assert ModelHandle(ms[j']) != ModelHandle(ms[j]);
        }
      }
    }
  }
}
