/**
 Sequences of window lifecycle events as the toolkit delivers them, and the
 claim that the application's window list is exactly the windows that have
 fired `opened` and not yet `closed`, in the order they opened.
 */
module Trace {
  import opened Wrappers
  import opened Lifecycle

  /** One notification from a window; the veto flags are the answers of the application's listeners. */
  datatype Event =
    | Opening(w: Window, appVeto: bool)
    | Opened(w: Window)
    | Activated(w: Window)
    | Closing(w: Window, appVeto: bool)
    | Closed(w: Window)

  /** The ValueError `list.remove` raises for a window that is not in the list. */
  datatype Error = NotInWindowList(id: WindowId)

  /** Dispatch of one event to its handler. */
  function Step(app: App, e: Event): (r: Result<App, Error>)
    ensures r.Err? <==> e.Closed? && e.w.id !in Ids(app.windows)
    ensures r.Ok? && !e.Opened? && !e.Closed? ==> r.value.windows == app.windows
  {
    match e
    case Opening(_, _) => Ok(app)
    case Opened(w) => Ok(OnOpened(app, w))
    case Activated(w) => Ok(OnActivated(app, w))
    case Closing(w, veto) => Ok(OnClosing(app, w, veto).0)
    case Closed(w) =>
      if w.id in Ids(app.windows) then Ok(OnClosed(app, w)) else Err(NotInWindowList(w.id))
  }

  /** Events handled in order; the first error ends the run. */
  function Run(app: App, evs: seq<Event>): Result<App, Error>
    decreases |evs|
  {
    if |evs| == 0 then Ok(app)
    else
      match Step(app, evs[0])
      case Err(e) => Err(e)
      case Ok(next) => Run(next, evs[1..])
  }

  /** The windows of the `opened` events, in order. */
  function OpenedWindows(evs: seq<Event>): (r: seq<Window>)
    decreases |evs|
  {
    if |evs| == 0 then []
    else if evs[0].Opened? then [evs[0].w] + OpenedWindows(evs[1..])
    else OpenedWindows(evs[1..])
  }

  /** The identities of the windows of the `closed` events. */
  function ClosedIds(evs: seq<Event>): (r: set<WindowId>)
    decreases |evs|
  {
    if |evs| == 0 then {}
    else if evs[0].Closed? then {evs[0].w.id} + ClosedIds(evs[1..])
    else ClosedIds(evs[1..])
  }

  lemma {:induction false} WithoutTwice(ws: seq<Window>, s: set<WindowId>, t: set<WindowId>)
    ensures Without(Without(ws, s), t) == Without(ws, s + t)
    decreases |ws|
  {
    if |ws| > 0 {
      WithoutTwice(ws[1..], s, t);
    }
  }

  lemma {:induction false} WithoutNothing(ws: seq<Window>, gone: set<WindowId>)
    requires gone !! Ids(ws)
    ensures Without(ws, gone) == ws
    decreases |ws|
  {
    if |ws| > 0 {
      assert ws[0] in ws;
      assert Ids(ws[1..]) <= Ids(ws) by {
        forall x | x in Ids(ws[1..]) ensures x in Ids(ws) {
          var w :| w in ws[1..] && w.id == x;
          assert w in ws;
        }
      }
      WithoutNothing(ws[1..], gone);
      assert ws == [ws[0]] + ws[1..];
    }
  }

  lemma DistinctCons(w: Window, ws: seq<Window>)
    ensures DistinctIds([w] + ws) <==> w.id !in Ids(ws) && DistinctIds(ws)
  {
    var s := [w] + ws;
    if DistinctIds(s) {
      forall v | v in ws ensures v.id != w.id {
        var j :| 0 <= j < |ws| && ws[j] == v;
        assert s[0] == w && s[j + 1] == v;
      }
      forall i, j | 0 <= i < j < |ws| ensures ws[i].id != ws[j].id {
        assert s[i + 1] == ws[i] && s[j + 1] == ws[j];
      }
    }
    if w.id !in Ids(ws) && DistinctIds(ws) {
      forall i, j | 0 <= i < j < |s| ensures s[i].id != s[j].id {
        if i > 0 {
          assert s[i] == ws[i - 1] && s[j] == ws[j - 1];
        } else {
          assert s[j] in ws;
        }
      }
    }
  }

  /** Dropping windows from the front part keeps identities distinct. */
  lemma {:induction false} DistinctWithout(a: seq<Window>, b: seq<Window>, gone: set<WindowId>)
    requires DistinctIds(a + b)
    ensures DistinctIds(Without(a, gone) + b)
    decreases |a|
  {
    if |a| > 0 {
      assert a + b == [a[0]] + (a[1..] + b);
      DistinctCons(a[0], a[1..] + b);
      DistinctWithout(a[1..], b, gone);
      if a[0].id !in gone {
        assert Without(a, gone) + b == [a[0]] + (Without(a[1..], gone) + b);
        WithoutMembers(a[1..], gone);
        assert Ids(Without(a[1..], gone) + b) <= Ids(a[1..] + b);
        DistinctCons(a[0], Without(a[1..], gone) + b);
      }
    } else {
      assert a + b == b;
    }
  }

  /** With distinct identities, `list.remove` drops every window with that identity. */
  lemma {:induction false} RemoveFirstIsWithout(ws: seq<Window>, id: WindowId)
    requires DistinctIds(ws) && id in Ids(ws)
    ensures RemoveFirst(ws, id) == Without(ws, {id})
    decreases |ws|
  {
    assert ws == [ws[0]] + ws[1..];
    DistinctCons(ws[0], ws[1..]);
    if ws[0].id == id {
      WithoutNothing(ws[1..], {id});
    } else {
      PresentInTail(ws, id);
      RemoveFirstIsWithout(ws[1..], id);
    }
  }

  /** The effect of one `closed` event on the claim of LiveWindows. */
  lemma CloseKeepsLive(ws: seq<Window>, o: seq<Window>, id: WindowId, closed: set<WindowId>)
    requires DistinctIds(ws + o)
    requires id in Ids(ws)
    ensures DistinctIds(RemoveFirst(ws, id) + o)
    ensures Without(RemoveFirst(ws, id) + o, closed) == Without(ws + o, {id} + closed)
  {
    DistinctWithout(ws, o, {id});
    assert DistinctIds(ws) by {
      forall i, j | 0 <= i < j < |ws| ensures ws[i].id != ws[j].id {
        assert (ws + o)[i] == ws[i] && (ws + o)[j] == ws[j];
      }
    }
    RemoveFirstIsWithout(ws, id);
    assert id !in Ids(o) by {
      forall v | v in o ensures v.id != id {
        var j :| 0 <= j < |o| && o[j] == v;
        var i :| 0 <= i < |ws| && ws[i].id == id;
        assert (ws + o)[i] == ws[i] && (ws + o)[|ws| + j] == v;
      }
    }
    WithoutNothing(o, {id});
    WithoutAppend(Without(ws, {id}), o, closed);
    WithoutTwice(ws, {id}, closed);
    WithoutTwice(o, {id}, closed);
    WithoutAppend(ws, o, {id} + closed);
  }

  /**
   The window list is exactly the windows that were live before or fired
   `opened`, less those that fired `closed`, in opening order, provided no
   window opens twice (so identities stay distinct) and no run raised.
   */
  lemma {:induction false} LiveWindows(app: App, evs: seq<Event>)
    requires DistinctIds(app.windows + OpenedWindows(evs))
    requires Run(app, evs).Ok?
    ensures Run(app, evs).value.windows == Without(app.windows + OpenedWindows(evs), ClosedIds(evs))
    decreases |evs|
  {
    var ws := app.windows;
    if |evs| == 0 {
      assert ws + OpenedWindows(evs) == ws;
      WithoutNothing(ws, {});
    } else {
      var e, rest := evs[0], evs[1..];
      var next := Step(app, e).value;
      assert Run(app, evs) == Run(next, rest);
      if e.Opened? {
        assert OpenedWindows(evs) == [e.w] + OpenedWindows(rest);
        assert ws + OpenedWindows(evs) == next.windows + OpenedWindows(rest);
        LiveWindows(next, rest);
      } else if e.Closed? {
        assert OpenedWindows(evs) == OpenedWindows(rest);
        assert ClosedIds(evs) == {e.w.id} + ClosedIds(rest);
        CloseKeepsLive(ws, OpenedWindows(rest), e.w.id, ClosedIds(rest));
        LiveWindows(next, rest);
      } else {
        assert OpenedWindows(evs) == OpenedWindows(rest);
        assert ClosedIds(evs) == ClosedIds(rest);
        LiveWindows(next, rest);
      }
    }
  }

  /**
   The windows of the `opened` events that no later `closed` event names, in
   the order of those `opened` events.
   */
  function OpenedAndNotClosedAfter(evs: seq<Event>): seq<Window>
    decreases |evs|
  {
    if |evs| == 0 then []
    else if evs[0].Opened? && evs[0].w.id !in ClosedIds(evs[1..]) then
      [evs[0].w] + OpenedAndNotClosedAfter(evs[1..])
    else OpenedAndNotClosedAfter(evs[1..])
  }

  /**
   Every `opened` event of the run, up to a raise if there is one, is for a
   window that is not live at that moment: a window may reopen once it has
   closed, but is never opened while open.
   */
  ghost predicate OpensOnlyClosedWindows(app: App, evs: seq<Event>)
    decreases |evs|
  {
    |evs| == 0 ||
    match Step(app, evs[0])
    case Err(_) => true
    case Ok(next) =>
      && (evs[0].Opened? ==> evs[0].w.id !in Ids(app.windows))
      && OpensOnlyClosedWindows(next, evs[1..])
  }

  lemma DistinctSnoc(ws: seq<Window>, w: Window)
    requires DistinctIds(ws) && w.id !in Ids(ws)
    ensures DistinctIds(ws + [w])
  {
    forall i, j | 0 <= i < j < |ws + [w]| ensures (ws + [w])[i].id != (ws + [w])[j].id {
      assert (ws + [w])[i] == ws[i] && ws[i] in ws;
    }
  }

  /** The effect of one `opened` event on the claim of LiveAfterRun. */
  lemma OpenKeepsLive(ws: seq<Window>, w: Window, closed: set<WindowId>)
    ensures w.id in closed ==> Without(ws + [w], closed) == Without(ws, closed)
    ensures w.id !in closed ==> Without(ws + [w], closed) == Without(ws, closed) + [w]
  {
    WithoutAppend(ws, [w], closed);
    WithoutSingle(w, closed);
    assert Without(ws, closed) + [] == Without(ws, closed);
  }

  /** The effect of one `closed` event on the claim of LiveAfterRun. */
  lemma CloseKeepsDistinct(ws: seq<Window>, id: WindowId, closed: set<WindowId>)
    requires DistinctIds(ws) && id in Ids(ws)
    ensures DistinctIds(RemoveFirst(ws, id))
    ensures Without(RemoveFirst(ws, id), closed) == Without(ws, {id} + closed)
  {
    RemoveFirstIsWithout(ws, id);
    assert ws + [] == ws;
    DistinctWithout(ws, [], {id});
    assert Without(ws, {id}) + [] == Without(ws, {id});
    WithoutTwice(ws, {id}, closed);
  }

  /**
   The window list after any run that does not raise, when windows are only
   opened while closed: the windows live at the start that no `closed` event
   names, followed by the windows of the `opened` events that no later
   `closed` event names, in opening order. A window that closes and opens
   again is live, at the position of its last opening. Identities stay
   distinct throughout.
   */
  lemma {:induction false} LiveAfterRun(app: App, evs: seq<Event>)
    requires DistinctIds(app.windows)
    requires OpensOnlyClosedWindows(app, evs)
    requires Run(app, evs).Ok?
    ensures Run(app, evs).value.windows == Without(app.windows, ClosedIds(evs)) + OpenedAndNotClosedAfter(evs)
    ensures DistinctIds(Run(app, evs).value.windows)
    decreases |evs|, 1
  {
    if |evs| == 0 {
      WithoutNothing(app.windows, {});
      assert app.windows + [] == app.windows;
    } else if evs[0].Opened? {
      LiveAfterOpened(app, evs);
    } else if evs[0].Closed? {
      LiveAfterClosed(app, evs);
    } else {
      var next := Step(app, evs[0]).value;
      assert Run(app, evs) == Run(next, evs[1..]);
      assert next.windows == app.windows;
      LiveAfterRun(next, evs[1..]);
      assert ClosedIds(evs) == ClosedIds(evs[1..]);
      assert OpenedAndNotClosedAfter(evs) == OpenedAndNotClosedAfter(evs[1..]);
    }
  }

  /** How a run that starts with an `opened` event, and each piece of LiveAfterRun's claim, unfold. */
  lemma OpenedFirst(app: App, evs: seq<Event>)
    requires OpensOnlyClosedWindows(app, evs)
    requires Run(app, evs).Ok?
    requires |evs| > 0 && evs[0].Opened?
    ensures var w := evs[0].w;
      && Run(app, evs) == Run(OnOpened(app, w), evs[1..])
      && w.id !in Ids(app.windows)
      && OpensOnlyClosedWindows(OnOpened(app, w), evs[1..])
      && ClosedIds(evs) == ClosedIds(evs[1..])
      && OpenedAndNotClosedAfter(evs)
        == (if w.id in ClosedIds(evs[1..]) then [] else [w]) + OpenedAndNotClosedAfter(evs[1..])
  {
    assert Step(app, evs[0]) == Ok(OnOpened(app, evs[0].w));
  }

  /** LiveAfterRun for a run that starts with an `opened` event. */
  lemma {:induction false} LiveAfterOpened(app: App, evs: seq<Event>)
    requires DistinctIds(app.windows)
    requires OpensOnlyClosedWindows(app, evs)
    requires Run(app, evs).Ok?
    requires |evs| > 0 && evs[0].Opened?
    ensures Run(app, evs).value.windows == Without(app.windows, ClosedIds(evs)) + OpenedAndNotClosedAfter(evs)
    ensures DistinctIds(Run(app, evs).value.windows)
    decreases |evs|, 0
  {
    var ws, w, rest := app.windows, evs[0].w, evs[1..];
    var next := OnOpened(app, w);
    OpenedFirst(app, evs);
    DistinctSnoc(ws, w);
    LiveAfterRun(next, rest);
    var closed, later := ClosedIds(rest), OpenedAndNotClosedAfter(rest);
    OpenKeepsLive(ws, w, closed);
    if w.id !in closed {
      assert Without(ws, closed) + [w] + later == Without(ws, closed) + ([w] + later);
    } else {
      assert [] + later == later;
    }
  }

  /** LiveAfterRun for a run that starts with a `closed` event. */
  lemma {:induction false} LiveAfterClosed(app: App, evs: seq<Event>)
    requires DistinctIds(app.windows)
    requires OpensOnlyClosedWindows(app, evs)
    requires Run(app, evs).Ok?
    requires |evs| > 0 && evs[0].Closed?
    ensures Run(app, evs).value.windows == Without(app.windows, ClosedIds(evs)) + OpenedAndNotClosedAfter(evs)
    ensures DistinctIds(Run(app, evs).value.windows)
    decreases |evs|, 0
  {
    var ws, w, rest := app.windows, evs[0].w, evs[1..];
    assert Step(app, evs[0]).Ok?;
    var next := OnClosed(app, w);
    assert Step(app, evs[0]) == Ok(next);
    assert Run(app, evs) == Run(next, rest);
    assert OpensOnlyClosedWindows(next, rest);
    var closed := ClosedIds(rest);
    CloseKeepsDistinct(ws, w.id, closed);
    LiveAfterRun(next, rest);
    assert ClosedIds(evs) == {w.id} + closed;
    assert OpenedAndNotClosedAfter(evs) == OpenedAndNotClosedAfter(rest);
  }

  /** A window that opens, closes and opens again is live, once, at the end. */
  lemma ReopenedWindowIsLive(app: App, w: Window)
    requires app.windows == []
    ensures Run(app, [Opened(w), Closed(w), Opened(w)]).Ok?
    ensures Run(app, [Opened(w), Closed(w), Opened(w)]).value.windows == [w]
  {
    var evs := [Opened(w), Closed(w), Opened(w)];
    var a1 := OnOpened(app, w);
    assert w in a1.windows;
    var a2 := OnClosed(a1, w);
    assert a2.windows == [];
    var a3 := OnOpened(a2, w);
    assert evs[1..] == [Closed(w), Opened(w)] && evs[1..][1..] == [Opened(w)] && evs[1..][1..][1..] == [];
    assert Run(a2, [Opened(w)]) == Ok(a3);
    assert Run(a1, evs[1..]) == Ok(a3);
  }

  /**
   A second `closed` event for the same window raises: the handler removes the
   window with `list.remove` and does not guard against a window already gone.
   */
  lemma ClosedTwiceRaises(app: App, w: Window)
    requires DistinctIds(app.windows) && w.id in Ids(app.windows)
    ensures Run(app, [Closed(w), Closed(w)]) == Err(NotInWindowList(w.id))
  {
    var next := OnClosed(app, w);
    RemoveFirstIsWithout(app.windows, w.id);
    WithoutMembers(app.windows, {w.id});
    assert w.id !in Ids(next.windows);
    assert Step(next, Closed(w)) == Err(NotInWindowList(w.id));
    assert Run(next, [Closed(w)]) == Err(NotInWindowList(w.id));
    assert Step(app, Closed(w)) == Ok(next);
    assert [Closed(w), Closed(w)][1..] == [Closed(w)];
  }
}
