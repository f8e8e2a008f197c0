/**
 `TasksApplication._create_windows`: choosing between the restored and the
 default application layout, and creating, filling and opening one window per
 window layout.
 */
module Startup {
  import opened Wrappers
  import opened Layouts
  import opened Tasks
  import opened Lifecycle

  /**
   The window layouts to create at startup. With `restoreLayout` on, the
   restored window layouts are used when there are any and the default ones
   otherwise. With it off, the default layouts are used, each with the restored
   task layouts merged into its layout state, the restored entries winning, so
   that every task still gets its saved arrangement.
   */
  function ChooseLayouts(restoreLayout: bool, restored: TasksApplicationState, defaults: seq<TaskWindowLayout>)
    : (r: seq<TaskWindowLayout>)
    ensures restoreLayout && |restored.windowLayouts| > 0 ==> r == restored.windowLayouts
    ensures restoreLayout && |restored.windowLayouts| == 0 ==> r == defaults
    ensures !restoreLayout ==> |r| == |defaults|
    ensures !restoreLayout ==> forall i :: 0 <= i < |r| ==>
      && r[i].tasks == defaults[i].tasks
      && r[i].geometry == defaults[i].geometry
      && r[i].layoutState.Keys == defaults[i].layoutState.Keys + restored.taskLayouts.Keys
      && (forall t :: t in restored.taskLayouts ==> r[i].layoutState[t] == restored.taskLayouts[t])
      && (forall t :: t in defaults[i].layoutState && t !in restored.taskLayouts ==>
            r[i].layoutState[t] == defaults[i].layoutState[t])
  {
    if restoreLayout then
      if |restored.windowLayouts| > 0 then restored.windowLayouts else defaults
    else
      seq(|defaults|, i requires 0 <= i < |defaults| =>
        defaults[i].(layoutState := Update(defaults[i].layoutState, restored.taskLayouts)))
  }

  /**
   A state saved with at least one window layout, as `exit` and the last-window
   close save it, is what the next start reopens when restoring is on.
   */
  lemma SavedWindowLayoutsRestored(saved: TasksApplicationState, defaults: seq<TaskWindowLayout>)
    requires |saved.windowLayouts| > 0
    ensures ChooseLayouts(true, LoadState(Stored(saved)), defaults) == saved.windowLayouts
  {
  }

  /**
   `r` is `app` after opening the windows `created` in order, those in
   `vetoed` having been refused: the others joined the window list, the last
   of them is active, and nothing else changed.
   */
  ghost predicate OpenedAfter(app: App, r: App, created: seq<Window>, vetoed: set<WindowId>) {
    var shown := Without(created, vetoed);
    && r.windows == app.windows + shown
    && (shown == [] ==> r.active == app.active)
    && (shown != [] ==> r.active == Some(shown[|shown| - 1]))
    && r.nextId == app.nextId + |created|
    && Valid(r)
    && r.(windows := app.windows, active := app.active, nextId := app.nextId) == app
  }

  /** `create_window` followed by `window.open()`, the opening vetoed when `w` is in `vetoed`. */
  function CreateAndOpen(r: App, w: Window, vetoed: set<WindowId>): App {
    Open(r.(nextId := r.nextId + 1), w, w.id in vetoed).0
  }

  /**
   `created` holds one window per layout of `layouts[..|created|]`, numbered
   from `first`, each carrying its layout and the tasks created for it.
   */
  ghost predicate BuiltFrom(reg: Registry, layouts: seq<TaskWindowLayout>, created: seq<Window>, first: WindowId) {
    && |created| <= |layouts|
    && forall j :: 0 <= j < |created| ==>
      && created[j].id == first + j
      && created[j].layout == layouts[j]
      && created[j].tasks == CreateTasks(reg, layouts[j].tasks)
  }

  /** Opening one more window, with a fresh identity, keeps OpenedAfter. */
  lemma OpenOne(app: App, r: App, created: seq<Window>, vetoed: set<WindowId>, w: Window)
    requires OpenedAfter(app, r, created, vetoed)
    requires w.id == r.nextId
    ensures OpenedAfter(app, CreateAndOpen(r, w, vetoed), created + [w], vetoed)
  {
    WithoutAppend(created, [w], vetoed);
    assert [w][1..] == [];
    if w.id in vetoed {
      OpenVetoed(app, r, created, vetoed, w);
    } else {
      OpenShown(app, r, created, vetoed, w);
    }
  }

  lemma OpenVetoed(app: App, r: App, created: seq<Window>, vetoed: set<WindowId>, w: Window)
    requires OpenedAfter(app, r, created, vetoed)
    requires w.id == r.nextId && w.id in vetoed
    requires Without(created + [w], vetoed) == Without(created, vetoed)
    ensures OpenedAfter(app, CreateAndOpen(r, w, vetoed), created + [w], vetoed)
  {
    assert CreateAndOpen(r, w, vetoed) == r.(nextId := r.nextId + 1);
  }

  lemma OpenShown(app: App, r: App, created: seq<Window>, vetoed: set<WindowId>, w: Window)
    requires OpenedAfter(app, r, created, vetoed)
    requires w.id == r.nextId && w.id !in vetoed
    requires Without(created + [w], vetoed) == Without(created, vetoed) + [w]
    ensures OpenedAfter(app, CreateAndOpen(r, w, vetoed), created + [w], vetoed)
  {
    var next := CreateAndOpen(r, w, vetoed);
    assert next == r.(windows := r.windows + [w], active := Some(w), nextId := r.nextId + 1);
    AppendFresh(r.windows, w, r.nextId);
    assert next.windows == app.windows + (Without(created, vetoed) + [w]);
  }

  /** Appending a window with a fresh identity keeps identities distinct and below the next one. */
  lemma AppendFresh(ws: seq<Window>, w: Window, n: WindowId)
    requires DistinctIds(ws) && forall i :: 0 <= i < |ws| ==> ws[i].id < n
    requires w.id == n
    ensures DistinctIds(ws + [w])
    ensures forall i :: 0 <= i < |ws + [w]| ==> (ws + [w])[i].id < n + 1
  {
  }

  /** Creating the window for the next layout keeps BuiltFrom. */
  lemma BuildOne(reg: Registry, layouts: seq<TaskWindowLayout>, created: seq<Window>, first: WindowId, w: Window)
    requires BuiltFrom(reg, layouts, created, first) && |created| < |layouts|
    requires w == Window(first + |created|, CreateTasks(reg, layouts[|created|].tasks), layouts[|created|])
    ensures BuiltFrom(reg, layouts, created + [w], first)
  {
    assert forall j :: 0 <= j < |created| ==> (created + [w])[j] == created[j];
  }

  /**
   `created` and `r` are what opening one window per layout of `layouts` does to
   `app`: fresh identities in order, each window with its layout and the tasks
   created for it; the windows not in `vetoed` join the list in order, the last
   of them becomes active, and the state, the save log and the flags are kept.
   */
  ghost predicate CreatedAndOpened(app: App, r: App, reg: Registry, layouts: seq<TaskWindowLayout>, created: seq<Window>, vetoed: set<WindowId>) {
    var shown := Without(created, vetoed);
    && |created| == |layouts|
    && (forall i :: 0 <= i < |created| ==>
      && created[i].id == app.nextId + i
      && created[i].layout == layouts[i]
      && created[i].tasks == CreateTasks(reg, layouts[i].tasks)
      && TaskIds(created[i].tasks) == KnownIds(reg.factories, layouts[i].tasks))
    && r.windows == app.windows + shown
    && (shown == [] ==> r.active == app.active)
    && (shown != [] ==> r.active == Some(shown[|shown| - 1]))
    && r.nextId == app.nextId + |created|
    && Valid(r)
    && r.state == app.state && r.saves == app.saves
    && r.explicitExit == app.explicitExit && r.stopScheduled == app.stopScheduled
  }

  /** BuiltFrom and OpenedAfter, once every layout has its window, give CreatedAndOpened. */
  lemma FinishOpening(app: App, r: App, reg: Registry, layouts: seq<TaskWindowLayout>, created: seq<Window>, vetoed: set<WindowId>)
    requires |created| == |layouts|
    requires BuiltFrom(reg, layouts, created, app.nextId)
    requires OpenedAfter(app, r, created, vetoed)
    ensures CreatedAndOpened(app, r, reg, layouts, created, vetoed)
  {
  }

  /**
   The second half of `_create_windows`. Each window layout yields one new
   window, numbered from `app.nextId`, holding the tasks of its layout that
   have a factory, in order, and carrying that layout; it is then opened,
   which the application's opening listeners veto for the windows in
   `openVetoes`. The opened windows join the window list in creation order
   and the last of them becomes active.
   */
  method OpenLayouts(app: App, reg: Registry, layouts: seq<TaskWindowLayout>, openVetoes: set<WindowId>)
    returns (r: App, created: seq<Window>)
    requires Valid(app)
    ensures |created| == |layouts|
    ensures forall i :: 0 <= i < |created| ==>
      && created[i].id == app.nextId + i
      && created[i].layout == layouts[i]
      && created[i].tasks == CreateTasks(reg, layouts[i].tasks)
      && TaskIds(created[i].tasks) == KnownIds(reg.factories, layouts[i].tasks)
    ensures r.windows == app.windows + Without(created, openVetoes)
    ensures Without(created, openVetoes) == [] ==> r.active == app.active
    ensures Without(created, openVetoes) != [] ==>
      r.active == Some(Without(created, openVetoes)[|Without(created, openVetoes)| - 1])
    ensures r.nextId == app.nextId + |created|
    ensures Valid(r)
    ensures r.state == app.state && r.saves == app.saves
    ensures r.explicitExit == app.explicitExit && r.stopScheduled == app.stopScheduled
  {
    r := app;
    created := [];
    var i := 0;
    while i < |layouts|
      invariant 0 <= i <= |layouts| && |created| == i
      invariant BuiltFrom(reg, layouts, created, app.nextId)
      invariant OpenedAfter(app, r, created, openVetoes)
    {
      var w := Window(r.nextId, CreateTasks(reg, layouts[i].tasks), layouts[i]);
      OpenOne(app, r, created, openVetoes, w);
      BuildOne(reg, layouts, created, app.nextId, w);
      r := CreateAndOpen(r, w, openVetoes);
      created := created + [w];
      i := i + 1;
    }
    FinishOpening(app, r, reg, layouts, created, openVetoes);
  }

  /**
   `_create_windows`: the state is loaded (an unreadable or missing file
   counting as empty), the window layouts are chosen (`layouts`), and one
   window is created and opened per chosen layout.
   */
  method CreateWindows(
    app: App, reg: Registry, restoreLayout: bool, stored: StoredState,
    defaults: seq<TaskWindowLayout>, openVetoes: set<WindowId>)
    returns (r: App, layouts: seq<TaskWindowLayout>, created: seq<Window>)
    requires Valid(app)
    ensures layouts == ChooseLayouts(restoreLayout, LoadState(stored), defaults)
    ensures |created| == |layouts|
    ensures forall i :: 0 <= i < |created| ==>
      && created[i].id == app.nextId + i
      && created[i].layout == layouts[i]
      && created[i].tasks == CreateTasks(reg, layouts[i].tasks)
      && TaskIds(created[i].tasks) == KnownIds(reg.factories, layouts[i].tasks)
    ensures r.windows == app.windows + Without(created, openVetoes)
    ensures Without(created, openVetoes) == [] ==> r.active == app.active
    ensures Without(created, openVetoes) != [] ==>
      r.active == Some(Without(created, openVetoes)[|Without(created, openVetoes)| - 1])
    ensures r.nextId == app.nextId + |created|
    ensures Valid(r)
    ensures r.state == app.state && r.saves == app.saves
    ensures r.explicitExit == app.explicitExit && r.stopScheduled == app.stopScheduled
  {
    layouts := ChooseLayouts(restoreLayout, LoadState(stored), defaults);
    r, created := OpenLayouts(app, reg, layouts, openVetoes);
  }
}
