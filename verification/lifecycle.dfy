/**
 The application's bookkeeping of task windows: the live window list, the active
 window, the explicit-exit flag, the persisted state with its log of saves, and
 the handlers the application attaches to each window's lifecycle events.
 */
module Lifecycle {
  import opened Wrappers
  import opened Layouts
  import opened Tasks

  /** The identity of a TaskWindow object. */
  type WindowId = nat

  /**
   A task window: its identity, the tasks added to it, and the layout it
   reports from `get_window_layout`.
   */
  datatype Window = Window(id: WindowId, tasks: seq<Task>, layout: TaskWindowLayout)

  /**
   The mutable part of a TasksApplication. `saves` lists every state written to
   the memento file, oldest first; `stopScheduled` records that `stop` has been
   handed to the event loop; `nextId` is the identity the next created window gets.
   */
  datatype App = App(
    windows: seq<Window>,
    active: Option<Window>,
    explicitExit: bool,
    state: TasksApplicationState,
    saves: seq<TasksApplicationState>,
    stopScheduled: bool,
    nextId: WindowId)

  function Ids(ws: seq<Window>): set<WindowId> {
    set w | w in ws :: w.id
  }

  ghost predicate DistinctIds(ws: seq<Window>) {
    forall i, j :: 0 <= i < j < |ws| ==> ws[i].id != ws[j].id
  }

  /** Each live window appears once, and identities handed out are never reused. */
  ghost predicate Valid(app: App) {
    && DistinctIds(app.windows)
    && forall i :: 0 <= i < |app.windows| ==> app.windows[i].id < app.nextId
  }

  /** `k` is the first position of a window with identity `id`. */
  predicate IsFirstWith(ws: seq<Window>, id: WindowId, k: nat) {
    && k < |ws|
    && ws[k].id == id
    && forall j :: 0 <= j < k ==> ws[j].id != id
  }

  /**
   Python's `list.remove`: drops the first window with identity `id`. The
   identity must be present, since `list.remove` raises otherwise.
   */
  function RemoveFirst(ws: seq<Window>, id: WindowId): seq<Window>
    requires id in Ids(ws)
    decreases |ws|
  {
    if ws[0].id == id then ws[1..]
    else
      PresentInTail(ws, id);
      [ws[0]] + RemoveFirst(ws[1..], id)
  }

  /** An identity present in `ws` but not at its head is present in its tail. */
  lemma PresentInTail(ws: seq<Window>, id: WindowId)
    requires id in Ids(ws) && ws[0].id != id
    ensures id in Ids(ws[1..])
  {
    var v :| v in ws && v.id == id;
    var j :| 0 <= j < |ws| && ws[j] == v;
    assert ws[1..][j - 1] == v;
  }

  /** Removal at the first position `k` holding `id` drops exactly `ws[k]` and keeps the order of the rest. */
  lemma {:induction false} RemoveFirstAt(ws: seq<Window>, id: WindowId, k: nat)
    requires IsFirstWith(ws, id, k)
    ensures RemoveFirst(ws, id) == ws[..k] + ws[k + 1..]
    decreases k
  {
    if k > 0 {
      assert IsFirstWith(ws[1..], id, k - 1);
      RemoveFirstAt(ws[1..], id, k - 1);
      assert ws[1..][..k - 1] == ws[1..k] && ws[1..][k..] == ws[k + 1..];
      assert ws[..k] == [ws[0]] + ws[1..k];
    }
  }

  /** The windows of `ws` whose identity is not in `gone`, in order. */
  function Without(ws: seq<Window>, gone: set<WindowId>): (r: seq<Window>)
    ensures |r| <= |ws|
    decreases |ws|
  {
    if |ws| == 0 then []
    else if ws[0].id in gone then Without(ws[1..], gone)
    else [ws[0]] + Without(ws[1..], gone)
  }

  /** Exactly the windows of `ws` whose identity is not in `gone` are kept. */
  lemma {:induction false} WithoutMembers(ws: seq<Window>, gone: set<WindowId>)
    ensures forall w :: w in Without(ws, gone) <==> w in ws && w.id !in gone
    decreases |ws|
  {
    if |ws| > 0 {
      WithoutMembers(ws[1..], gone);
      assert ws == [ws[0]] + ws[1..];
    }
  }

  lemma WithoutSingle(w: Window, gone: set<WindowId>)
    ensures Without([w], gone) == if w.id in gone then [] else [w]
  {
    assert [w][0] == w && [w][1..] == [];
  }

  lemma {:induction false} WithoutAppend(a: seq<Window>, b: seq<Window>, gone: set<WindowId>)
    ensures Without(a + b, gone) == Without(a, gone) + Without(b, gone)
    decreases |a|
  {
    if |a| > 0 {
      assert (a + b)[0] == a[0];
      assert (a + b)[1..] == a[1..] + b;
      WithoutAppend(a[1..], b, gone);
      if a[0].id !in gone {
        assert [a[0]] + (Without(a[1..], gone) + Without(b, gone))
          == ([a[0]] + Without(a[1..], gone)) + Without(b, gone);
      }
    } else {
      assert a + b == b;
    }
  }

  /** `_on_window_opened`: the window joins the end of the live list and becomes active. */
  function OnOpened(app: App, w: Window): (r: App)
    ensures r.windows == app.windows + [w]
    ensures r.active == Some(w)
    ensures r.(windows := app.windows, active := app.active) == app
  {
    app.(windows := app.windows + [w], active := Some(w))
  }

  /** `_on_window_activated`: only the active window changes. */
  function OnActivated(app: App, w: Window): (r: App)
    ensures r.active == Some(w)
    ensures r.(active := app.active) == app
  {
    app.(active := Some(w))
  }

  /**
   `_on_window_closing`. `appVeto` is whether a listener of the application's
   `window_closing` event vetoed it; the veto is passed on to the window
   (`r.1`) and then nothing changes. Otherwise the window's task layouts are
   merged into the saved ones, the incoming entries winning, and the state is
   written with the window's layout as the only window layout exactly when it
   is the last live window and no explicit exit is under way.
   */
  function OnClosing(app: App, w: Window, appVeto: bool): (r: (App, bool))
    ensures r.1 == appVeto
    ensures r.1 ==> r.0 == app
    ensures !r.1 ==> r.0.state.taskLayouts == Update(app.state.taskLayouts, w.layout.layoutState)
    ensures var lastImplicit := !r.1 && |app.windows| == 1 && !app.explicitExit;
      && (lastImplicit ==> r.0.state.windowLayouts == [w.layout] && r.0.saves == app.saves + [r.0.state])
      && (!lastImplicit ==> r.0.state.windowLayouts == app.state.windowLayouts && r.0.saves == app.saves)
    ensures r.0.(state := app.state, saves := app.saves) == app
  {
    if appVeto then (app, true)
    else
      var merged := app.state.(taskLayouts := Update(app.state.taskLayouts, w.layout.layoutState));
      if |app.windows| == 1 && !app.explicitExit then
        var saved := merged.(windowLayouts := [w.layout]);
        (app.(state := saved, saves := app.saves + [saved]), false)
      else
        (app.(state := merged), false)
  }

  /**
   `_on_window_closed`: the window leaves the live list (the list must hold it,
   as `list.remove` raises otherwise), and `stop` is scheduled when the list
   has become empty.
   */
  function OnClosed(app: App, w: Window): (r: App)
    requires w.id in Ids(app.windows)
    ensures |r.windows| == |app.windows| - 1
    ensures forall k: nat :: IsFirstWith(app.windows, w.id, k) ==> r.windows == app.windows[..k] + app.windows[k + 1..]
    ensures r.stopScheduled <==> app.stopScheduled || r.windows == []
    ensures r.(windows := app.windows, stopScheduled := app.stopScheduled) == app
  {
    var k :| 0 <= k < |app.windows| && app.windows[k].id == w.id;
    var first := FirstWith(app.windows, w.id, k);
    RemoveFirstAt(app.windows, w.id, first);
    var ws := RemoveFirst(app.windows, w.id);
    app.(windows := ws, stopScheduled := app.stopScheduled || |ws| == 0)
  }

  /** The first position of identity `id`, given one position `k` that holds it. */
  ghost function FirstWith(ws: seq<Window>, id: WindowId, k: nat): (r: nat)
    requires k < |ws| && ws[k].id == id
    ensures r <= k && IsFirstWith(ws, id, r)
  {
    if exists j :: 0 <= j < k && ws[j].id == id then
      var j :| 0 <= j < k && ws[j].id == id;
      FirstWith(ws, id, j)
    else k
  }

  /**
   `window.open()` for a window whose opening listeners answer `appVeto`: a
   veto keeps the window from opening and changes nothing; otherwise the
   `opened` handler runs. `r.1` reports whether the window opened.
   */
  function Open(app: App, w: Window, appVeto: bool): (r: (App, bool))
    ensures r.1 == !appVeto
    ensures !r.1 ==> r.0 == app
    ensures r.1 ==> r.0.windows == app.windows + [w] && r.0.active == Some(w)
    ensures r.0.(windows := app.windows, active := app.active) == app
  {
    if appVeto then (app, false) else (OnOpened(app, w), true)
  }

  /**
   `window.close()`. The window's `closing` event is vetoed by the
   application's `window_closing` listeners (`appVeto`) or by another listener
   of the window's own event (`windowVeto`); the closing handler runs either
   way, and only sees `appVeto`. The window closes, and the `closed` handler
   runs, iff neither vetoed. So a close refused by the window's own listener
   still merges the window's task layouts and, for the last window outside an
   explicit exit, still saves. `r.1` reports whether the window closed.
   */
  function Close(app: App, w: Window, appVeto: bool, windowVeto: bool): (r: (App, bool))
    requires w.id in Ids(app.windows)
    ensures r.1 <==> !appVeto && !windowVeto
    ensures appVeto ==> r.0 == app
    ensures !r.1 ==> r.0.windows == app.windows && r.0.stopScheduled == app.stopScheduled
    ensures r.1 ==> |r.0.windows| == |app.windows| - 1 && (r.0.stopScheduled <==> app.stopScheduled || r.0.windows == [])
    ensures r.1 ==> forall k: nat :: IsFirstWith(app.windows, w.id, k) ==> r.0.windows == app.windows[..k] + app.windows[k + 1..]
    ensures DistinctIds(app.windows) ==> DistinctIds(r.0.windows)
    ensures !appVeto ==> r.0.state.taskLayouts == Update(app.state.taskLayouts, w.layout.layoutState)
    ensures var lastImplicit := !appVeto && |app.windows| == 1 && !app.explicitExit;
      && (lastImplicit ==> r.0.state.windowLayouts == [w.layout] && r.0.saves == app.saves + [r.0.state])
      && (!lastImplicit ==> r.0.state.windowLayouts == app.state.windowLayouts && r.0.saves == app.saves)
    ensures app.explicitExit ==> r.0.saves == app.saves
    ensures r.0.active == app.active && r.0.explicitExit == app.explicitExit && r.0.nextId == app.nextId
  {
    var (a, vetoed) := OnClosing(app, w, appVeto);
    if vetoed || windowVeto then (a, false)
    else
      var k :| 0 <= k < |app.windows| && app.windows[k].id == w.id;
      var first := FirstWith(app.windows, w.id, k);
      DistinctRemoveAt(app.windows, first);
      (OnClosed(a, w), true)
  }

  /** Dropping one position keeps identities distinct. */
  lemma DistinctRemoveAt(ws: seq<Window>, k: nat)
    requires k < |ws|
    ensures DistinctIds(ws) ==> DistinctIds(ws[..k] + ws[k + 1..])
  {
    if DistinctIds(ws) {
      var r := ws[..k] + ws[k + 1..];
      forall i, j | 0 <= i < j < |r| ensures r[i].id != r[j].id {
        var i' := if i < k then i else i + 1;
        var j' := if j < k then j else j + 1;
        assert r[i] == ws[i'] && r[j] == ws[j'];
      }
    }
  }

  /**
   Closing the only live window outside an explicit exit saves the state once,
   with that window's layout as the only window layout, and schedules `stop`.
   */
  lemma CloseLastWindowSaves(app: App, w: Window)
    requires app.windows == [w] && !app.explicitExit
    ensures var (r, closed) := Close(app, w, false, false);
      && closed
      && r.windows == []
      && r.stopScheduled
      && r.saves == app.saves + [r.state]
      && r.state.windowLayouts == [w.layout]
      && r.state.taskLayouts == Update(app.state.taskLayouts, w.layout.layoutState)
  {
  }

  /**
   Closing the only live window outside an explicit exit, refused by a listener
   of the window's own `closing` event: the window stays open, yet its task
   layouts are merged and the state is saved with its layout, because the
   closing handler consults only the application's veto.
   */
  lemma WindowRefusalStillSaves(app: App, w: Window)
    requires app.windows == [w] && !app.explicitExit
    ensures var (r, closed) := Close(app, w, false, true);
      && !closed
      && r.windows == [w]
      && r.stopScheduled == app.stopScheduled
      && r.saves == app.saves + [r.state]
      && r.state.windowLayouts == [w.layout]
      && r.state.taskLayouts == Update(app.state.taskLayouts, w.layout.layoutState)
  {
  }
}
