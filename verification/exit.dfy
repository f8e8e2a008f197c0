/**
 `TasksApplication.exit`: closing every window newest first, stopping at the
 first refusal, and saving the state only when all windows closed.
 */
module Exit {
  import opened Layouts
  import opened Lifecycle

  /** The layouts `get_window_layout` reports for `ws`, in list order. */
  function LayoutsOf(ws: seq<Window>): (r: seq<TaskWindowLayout>)
    ensures |r| == |ws|
    ensures forall i :: 0 <= i < |ws| ==> r[i] == ws[i].layout
  {
    seq(|ws|, i requires 0 <= i < |ws| => ws[i].layout)
  }

  /**
   The task layouts after the closing handler has run for every window of `ws`,
   newest first: each merge lets the incoming entries win, so the last merge,
   that of the oldest window, has the final word.
   */
  function MergeClosed(taskLayouts: map<TaskId, TaskLayout>, ws: seq<Window>): map<TaskId, TaskLayout>
    decreases |ws|
  {
    if |ws| == 0 then taskLayouts
    else Update(MergeClosed(taskLayouts, ws[1..]), ws[0].layout.layoutState)
  }

  /** `i` is the oldest window of `ws` that carries a layout for task `t`. */
  ghost predicate OldestWith(ws: seq<Window>, t: TaskId, i: nat) {
    && i < |ws|
    && t in ws[i].layout.layoutState
    && forall j :: 0 <= j < i ==> t !in ws[j].layout.layoutState
  }

  /**
   After closing `ws` newest first, a task's saved layout is the one carried by
   the oldest window that has one.
   */
  lemma {:induction false} MergeClosedOldestWins(taskLayouts: map<TaskId, TaskLayout>, ws: seq<Window>, t: TaskId, i: nat)
    requires OldestWith(ws, t, i)
    ensures t in MergeClosed(taskLayouts, ws)
    ensures MergeClosed(taskLayouts, ws)[t] == ws[i].layout.layoutState[t]
    decreases i
  {
    if i > 0 {
      assert OldestWith(ws[1..], t, i - 1) by {
        assert forall j :: 0 <= j < i - 1 ==> ws[1..][j] == ws[j + 1];
      }
      MergeClosedOldestWins(taskLayouts, ws[1..], t, i - 1);
      assert t !in ws[0].layout.layoutState;
    }
  }

  /** A task no window of `ws` carries a layout for keeps its saved layout, or its absence. */
  lemma {:induction false} MergeClosedKeepsOthers(taskLayouts: map<TaskId, TaskLayout>, ws: seq<Window>, t: TaskId)
    requires forall j :: 0 <= j < |ws| ==> t !in ws[j].layout.layoutState
    ensures t in MergeClosed(taskLayouts, ws) <==> t in taskLayouts
    ensures t in taskLayouts ==> MergeClosed(taskLayouts, ws)[t] == taskLayouts[t]
    decreases |ws|
  {
    if |ws| > 0 {
      assert forall j :: 0 <= j < |ws| - 1 ==> ws[1..][j] == ws[j + 1];
      MergeClosedKeepsOthers(taskLayouts, ws[1..], t);
      assert t !in ws[0].layout.layoutState;
    }
  }

  /** `k` is the position of the newest window of `ws` that refuses to close. */
  ghost predicate NewestRefusal(ws: seq<Window>, refusing: set<WindowId>, k: nat) {
    && k < |ws|
    && ws[k].id in refusing
    && forall j :: k < j < |ws| ==> ws[j].id !in refusing
  }

  /**
   One close inside `exit`, of the newest live window, not refused: it leaves
   the list, its task layouts are merged, nothing is saved because the exit is
   explicit, and `stop` is scheduled only once the list is empty.
   */
  lemma CloseNewestDuringExit(r: App, w: Window)
    requires r.explicitExit && DistinctIds(r.windows)
    requires |r.windows| > 0 && r.windows[|r.windows| - 1] == w
    ensures var next := Close(r, w, false, false).0;
      && next.windows == r.windows[..|r.windows| - 1]
      && next.state.taskLayouts == Update(r.state.taskLayouts, w.layout.layoutState)
      && next.state.windowLayouts == r.state.windowLayouts
      && next.saves == r.saves
      && (next.stopScheduled <==> r.stopScheduled || next.windows == [])
      && next.explicitExit && next.active == r.active && next.nextId == r.nextId
  {
  }

  lemma DistinctPrefix(ws: seq<Window>, n: nat)
    requires DistinctIds(ws) && n <= |ws|
    ensures DistinctIds(ws[..n])
  {
  }

  /**
   The state of `exit` once the windows from position `i` on have closed, newest
   first: the older ones are still live, their task layouts have been merged,
   nothing has been saved, and none of the closed ones refused.
   */
  ghost predicate ClosedFrom(app: App, r: App, i: nat, refusing: set<WindowId>) {
    var ws := app.windows;
    && i <= |ws|
    && r.windows == ws[..i]
    && r.explicitExit
    && r.saves == app.saves
    && r.state.windowLayouts == app.state.windowLayouts
    && r.state.taskLayouts == MergeClosed(app.state.taskLayouts, ws[i..])
    && (r.stopScheduled <==> app.stopScheduled || (i == 0 && |ws| > 0))
    && r.active == app.active && r.nextId == app.nextId
    && forall j :: i <= j < |ws| ==> ws[j].id !in refusing
  }

  /** Closing the next window, which does not refuse, extends ClosedFrom by one position. */
  lemma CloseNext(app: App, r: App, i: nat, refusing: set<WindowId>)
    requires DistinctIds(app.windows)
    requires ClosedFrom(app, r, i, refusing) && i > 0
    requires app.windows[i - 1].id !in refusing
    ensures app.windows[i - 1].id in Ids(r.windows)
    ensures ClosedFrom(app, Close(r, app.windows[i - 1], false, false).0, i - 1, refusing)
  {
    var ws := app.windows;
    var w := ws[i - 1];
    assert r.windows[i - 1] == w;
    DistinctPrefix(ws, i);
    CloseNewestDuringExit(r, w);
    assert ws[i - 1..][1..] == ws[i..];
    assert ws[..i][..i - 1] == ws[..i - 1];
  }

  /**
   The newest refusing window's close inside `exit`, once the newer windows have
   closed. The window stays open and the loop stops; a refusal by the window's
   own `closing` listener still merges the window's task layouts, while one by
   the application's `window_closing` listeners merges nothing. Nothing is saved,
   since the exit is explicit.
   */
  lemma RefuseNext(app: App, r: App, i: nat, appVetoes: set<WindowId>, windowVetoes: set<WindowId>)
    requires DistinctIds(app.windows)
    requires ClosedFrom(app, r, i, appVetoes + windowVetoes) && i > 0
    requires app.windows[i - 1].id in appVetoes + windowVetoes
    ensures app.windows[i - 1].id in Ids(r.windows)
    ensures var w := app.windows[i - 1];
      var (next, closed) := Close(r, w, w.id in appVetoes, w.id in windowVetoes);
      && !closed
      && StoppedAt(app, next, i - 1, appVetoes, windowVetoes)
  {
    var ws := app.windows;
    assert r.windows[i - 1] == ws[i - 1];
    assert ws[i - 1..][1..] == ws[i..];
  }

  /** The outcome of an `exit` that stopped at the refusal of window `k`. */
  ghost predicate StoppedAt(app: App, r: App, k: nat, appVetoes: set<WindowId>, windowVetoes: set<WindowId>) {
    var ws := app.windows;
    && NewestRefusal(ws, appVetoes + windowVetoes, k)
    && r.windows == ws[..k + 1]
    && r.state.taskLayouts == MergeClosed(app.state.taskLayouts, if ws[k].id in appVetoes then ws[k + 1..] else ws[k..])
    && r.state.windowLayouts == app.state.windowLayouts
    && r.saves == app.saves
    && r.stopScheduled == app.stopScheduled
    && r.active == app.active && r.nextId == app.nextId
  }

  /** What StoppedAt says, spelled out for the failure clauses of `Exit`. */
  lemma Stopped(app: App, r: App, k: nat, appVetoes: set<WindowId>, windowVetoes: set<WindowId>)
    requires StoppedAt(app, r, k, appVetoes, windowVetoes)
    ensures k < |app.windows| && app.windows[k].id in appVetoes + windowVetoes
    ensures NewestRefusal(app.windows, appVetoes + windowVetoes, k)
    ensures r.windows == app.windows[..k + 1]
    ensures app.windows[k].id in appVetoes ==>
      r.state.taskLayouts == MergeClosed(app.state.taskLayouts, app.windows[k + 1..])
    ensures app.windows[k].id !in appVetoes ==>
      r.state.taskLayouts == MergeClosed(app.state.taskLayouts, app.windows[k..])
    ensures r.state.windowLayouts == app.state.windowLayouts && r.saves == app.saves
    ensures r.stopScheduled == app.stopScheduled && r.active == app.active && r.nextId == app.nextId
  {
  }

  /** Every window has closed without refusing: what ClosedFrom says at position 0. */
  lemma AllClosed(app: App, r: App, refusing: set<WindowId>)
    requires ClosedFrom(app, r, 0, refusing)
    ensures forall i :: 0 <= i < |app.windows| ==> app.windows[i].id !in refusing
    ensures r.windows == [] && r.explicitExit
    ensures r.state.taskLayouts == MergeClosed(app.state.taskLayouts, app.windows)
    ensures r.state.windowLayouts == app.state.windowLayouts && r.saves == app.saves
    ensures r.stopScheduled <==> app.stopScheduled || |app.windows| > 0
    ensures r.active == app.active && r.nextId == app.nextId
  {
    assert app.windows[0..] == app.windows;
  }

  /**
   The loop of `exit`: with the explicit-exit flag set in `start`, the windows
   are closed newest first until one refuses.
   */
  method CloseNewestFirst(app: App, start: App, appVetoes: set<WindowId>, windowVetoes: set<WindowId>)
    returns (r: App, success: bool, ghost k: nat)
    requires DistinctIds(app.windows)
    requires ClosedFrom(app, start, |app.windows|, appVetoes + windowVetoes)
    ensures success ==> ClosedFrom(app, r, 0, appVetoes + windowVetoes)
    ensures !success ==> StoppedAt(app, r, k, appVetoes, windowVetoes)
  {
    var ws := app.windows;
    ghost var refusing := appVetoes + windowVetoes;
    r := start;
    success := true;
    k := 0;
    var i: nat := |ws|;
    while i > 0
      invariant ClosedFrom(app, r, i, refusing)
      invariant success
    {
      var w := ws[i - 1];
      var byApp := w.id in appVetoes;
      var byWindow := w.id in windowVetoes;
      if !byApp && !byWindow {
        CloseNext(app, r, i, refusing);
        r := Close(r, w, false, false).0;
        i := i - 1;
      } else {
        RefuseNext(app, r, i, appVetoes, windowVetoes);
        r := Close(r, w, byApp, byWindow).0;
        k := i - 1;
        success := false;
        break;
      }
    }
  }

  /**
   `exit`. The windows in `appVetoes` have their close vetoed by the
   application's `window_closing` listeners, those in `windowVetoes` by another
   listener of their own `closing` event. Windows are asked to close newest
   first; the first refusal stops the loop, leaving the windows up to and
   including it open. The state is saved exactly when every window closed,
   with the window layouts all windows reported before any close was
   attempted; the explicit-exit flag is clear afterwards whatever the outcome,
   and at most one save happens.
   */
  method Exit(app: App, appVetoes: set<WindowId>, windowVetoes: set<WindowId>) returns (r: App, success: bool)
    requires DistinctIds(app.windows)
    ensures success <==> forall i :: 0 <= i < |app.windows| ==> app.windows[i].id !in appVetoes + windowVetoes
    ensures !r.explicitExit
    ensures success ==>
      && r.windows == []
      && r.state.windowLayouts == LayoutsOf(app.windows)
      && r.state.taskLayouts == MergeClosed(app.state.taskLayouts, app.windows)
      && r.saves == app.saves + [r.state]
    ensures !success ==> exists k: nat ::
      && NewestRefusal(app.windows, appVetoes + windowVetoes, k)
      && r.windows == app.windows[..k + 1]
      && (app.windows[k].id in appVetoes ==>
            r.state.taskLayouts == MergeClosed(app.state.taskLayouts, app.windows[k + 1..]))
      && (app.windows[k].id !in appVetoes ==>
            r.state.taskLayouts == MergeClosed(app.state.taskLayouts, app.windows[k..]))
    ensures !success ==> r.state.windowLayouts == app.state.windowLayouts && r.saves == app.saves
    ensures r.stopScheduled <==> app.stopScheduled || (success && |app.windows| > 0)
    ensures r.active == app.active && r.nextId == app.nextId
  {
    var snapshot := LayoutsOf(app.windows);
    var start := app.(explicitExit := true);
    assert app.windows[|app.windows|..] == [];
    var closing;
    ghost var k;
    closing, success, k := CloseNewestFirst(app, start, appVetoes, windowVetoes);
    if success {
      AllClosed(app, closing, appVetoes + windowVetoes);
      var saved := closing.state.(windowLayouts := snapshot);
      r := closing.(state := saved, saves := closing.saves + [saved]);
    } else {
      Stopped(app, closing, k, appVetoes, windowVetoes);
      r := closing;
    }
    r := r.(explicitExit := false);
  }
}
