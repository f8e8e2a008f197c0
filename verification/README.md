# TasksApplication window lifecycle and persistence, in Dafny

This project models the window-lifecycle and layout-persistence logic of the
Envisage Tasks `TasksApplication` (`enthought/envisage/ui/tasks/tasks_application.py`),
with the GUI toolkit taken out. What remains is a sequential state machine:

- `Layouts`: `TaskWindowLayout`, `TasksApplicationState`, the `dict.update` merge of
  task layouts, and `_load_state`, which falls back to an empty state when the
  memento file is missing or unreadable.
- `Tasks`: `create_task` (first-match factory lookup in registry order, selection
  of the task's extensions, appending the global actions, stamping the id), the
  per-window task list built at startup, and `_default_layout_default`.
- `Lifecycle`: the application record (live window list, active window,
  explicit-exit flag, persisted state, log of saves, "stop scheduled" flag), the
  five `_on_window_*` handlers, and `window.open()` / `window.close()` composed
  from them.
- `Trace`: toolkit event sequences dispatched to the handlers, and the claim that
  the window list is exactly the opened-and-not-closed windows.
- `Exit`: `exit()`, as a loop closing windows newest first.
- `Startup`: `_create_windows`, choosing between restored and default layouts
  and creating and opening one window per layout.

Modelling choices:

- The application is an immutable `App` value and every handler is a function
  from `App` to `App`. The file written by `_save_state` is the append-only
  `saves` log; the last entry is what the next run would load.
- A window's identity is its `id`. `windows.remove(window)` removes the first
  window with that id (`RemoveFirst`), which must be present, since
  `list.remove` raises otherwise. `get_window_layout()` is the layout
  stored in the window (set by `set_window_layout` at startup).
- Vetoes are inputs. An opening is vetoed by one boolean: whichever listener
  vetoes, the application is left unchanged. A closing has two sources of veto,
  and they differ. The application's `window_closing` listeners set
  `window_event.veto`, which the closing handler reads; another listener of the
  window's own `closing` event sets only `event.veto`, which the handler never
  reads. `Lifecycle.Close` therefore takes both: the closing handler runs with
  the application's veto, and the window closes only if neither vetoed. A close
  refused by the window's own listener still merges the window's task layouts
  and, for the last window outside an explicit exit, still saves
  (`Lifecycle.WindowRefusalStillSaves`). `exit` takes the two sets of windows
  refusing in each way. `TaskFactory.create_with_extensions` is the `build`
  function of a `Registry`.
- Layout contents, actions, task contents and factory recipes are opaque types.
- `exit` iterates `reversed(self.windows)` while each close removes the window
  from that same list. Each close removes the last element. Python's reverse
  iterator then moves on to the element before it, so the loop visits the
  windows exactly as a backwards walk over a snapshot would. The model walks a
  snapshot. This needs the live windows to have distinct identities
  (`DistinctIds`). That holds as long as a window is opened only while it is
  not in the list, which `Trace.LiveAfterRun` proves; a window may close and
  open again (`Trace.ReopenedWindowIsLive`).
- In the code, a second `closed` event for the same window raises, because
  `list.remove` finds nothing to remove. One might expect closing a window
  twice to be harmless; the model follows the code: `Trace.Step` returns
  `Err(NotInWindowList(..))` and `Trace.ClosedTwiceRaises` proves it.
- With `restore_layout` off, the source updates the `layout_state` of the
  `default_layout` objects in place. The model returns updated copies. The
  difference would only show if `_create_windows` ran twice.

## Model

| member | source | states |
|---|---|---|
| Layouts.Update | enthought/envisage/ui/tasks/tasks_application.py:337 | merging task layouts keeps every key of both maps, incoming entries overwrite existing ones, the others are kept |
| Layouts.LoadState | enthought/envisage/ui/tasks/tasks_application.py:244-258 | loading never fails: a stored state is returned unchanged, a missing or unreadable file gives empty task and window layouts |
| Tasks.FirstMatch | enthought/envisage/ui/tasks/tasks_application.py:146-152 | the factory search finds nothing iff no factory has the id; otherwise it finds the first position, in registry order, whose factory has the id |
| Tasks.ExtensionsFor | enthought/envisage/ui/tasks/tasks_application.py:155-156 | every selected extension is for the requested task, and each matching extension is kept as many times as it is registered |
| Tasks.ExtensionsForAppend | enthought/envisage/ui/tasks/tasks_application.py:155-156 | selection distributes over concatenation of the registry; with the one-element case this means the matching extensions, in registry order |
| Tasks.ExtensionsForSingle | enthought/envisage/ui/tasks/tasks_application.py:155-156 | a single extension is kept iff its task id is the requested one |
| Tasks.CreateTask | enthought/envisage/ui/tasks/tasks_application.py:142-160 | no task iff no factory has the id; otherwise the first matching factory builds it from the selected extensions, global actions follow the task's own extra actions, and the task's id is the requested id |
| Tasks.CreateTasks | enthought/envisage/ui/tasks/tasks_application.py:235-240 | a window's tasks have exactly the ids of its layout that have a factory, in order; ids without a factory are skipped |
| Tasks.CreateTasksAreCreated | enthought/envisage/ui/tasks/tasks_application.py:235-238 | each task added to a window is what `create_task` returns for its id |
| Tasks.DefaultLayout | enthought/envisage/ui/tasks/tasks_application.py:269-273 | the default layout is one window whose task list is the first factory's id, or empty when no factory is registered |
| Tasks.DefaultLayoutTasksResolve | enthought/envisage/ui/tasks/tasks_application.py:269-273 | the default window receives a task iff some factory is registered |
| Lifecycle.RemoveFirstAt | enthought/envisage/ui/tasks/tasks_application.py:346 | removal drops exactly the first window with the identity and keeps the order of the rest |
| Lifecycle.OnOpened | enthought/envisage/ui/tasks/tasks_application.py:316-325 | an opened window is appended to the window list and becomes the active window; nothing else changes |
| Lifecycle.OnActivated | enthought/envisage/ui/tasks/tasks_application.py:304-306 | an activated window becomes the active window; nothing else changes |
| Lifecycle.OnClosing | enthought/envisage/ui/tasks/tasks_application.py:327-343 | a veto is passed to the window and leaves the application untouched; otherwise the window's task layouts are merged in, and exactly one save with that window's layout as the only window layout happens iff it is the last live window and the exit is not explicit |
| Lifecycle.OnClosed | enthought/envisage/ui/tasks/tasks_application.py:345-355 | a closed window leaves the list, which shrinks by one, and a stop is scheduled exactly when the list has become empty |
| Lifecycle.Open | enthought/envisage/ui/tasks/tasks_application.py:308-325 | an opening veto from the application keeps the window from opening and changes nothing; otherwise the window is appended and active |
| Lifecycle.Close | enthought/envisage/ui/tasks/tasks_application.py:327-355 | a window closes iff neither the application nor the window's own listener vetoes; an application veto changes nothing; a window-level veto keeps the window in the list but the task layouts are still merged and the last window outside an explicit exit still saves; on a close, exactly the first window with that identity leaves the list, the others keep their order, and a stop is scheduled when the list empties; distinct identities stay distinct; a close during an explicit exit never saves |
| Lifecycle.WindowRefusalStillSaves | enthought/envisage/ui/tasks/tasks_application.py:332-343 | when the window's own listener refuses to close the only window outside an explicit exit, the window stays open, yet the state is saved with its layout and its task layouts merged |
| Lifecycle.CloseLastWindowSaves | enthought/envisage/ui/tasks/tasks_application.py:339-343 | closing the only window outside an explicit exit saves once, with that window's layout, and schedules a stop |
| Trace.Step | enthought/envisage/ui/tasks/tasks_application.py:304-355 | dispatching an event raises iff it is a `closed` event for a window not in the list; only `opened` and `closed` change the window list |
| Trace.LiveWindows | enthought/envisage/ui/tasks/tasks_application.py:316-346 | after any run of events that does not raise and in which no window opens twice, the window list is exactly the windows that fired `opened` and not `closed`, in opening order |
| Trace.LiveAfterRun | enthought/envisage/ui/tasks/tasks_application.py:316-346 | after any run of events that does not raise and in which a window opens only while it is not in the list, the list is the initially live windows no `closed` event names, followed by the windows opened with no later `closed` event, in opening order; identities stay distinct |
| Trace.ReopenedWindowIsLive | enthought/envisage/ui/tasks/tasks_application.py:316-346 | a window that opens, closes and opens again is in the list once at the end |
| Trace.ClosedTwiceRaises | enthought/envisage/ui/tasks/tasks_application.py:345-346 | a second `closed` event for the same window raises |
| Exit.MergeClosedOldestWins | enthought/envisage/ui/tasks/tasks_application.py:196-200 | after closing windows newest first, a task's saved layout is the one of the oldest window that has one |
| Exit.MergeClosedKeepsOthers | enthought/envisage/ui/tasks/tasks_application.py:196-200 | a task no closed window has a layout for keeps its previously saved layout, or stays absent |
| Exit.CloseNewestDuringExit | enthought/envisage/ui/tasks/tasks_application.py:339-343 | a close inside `exit` removes the newest window and merges its task layouts but never saves, because the explicit-exit flag is set |
| Exit.LayoutsOf | enthought/envisage/ui/tasks/tasks_application.py:193 | the snapshot holds, position by position, the layout each live window reports |
| Exit.RefuseNext | enthought/envisage/ui/tasks/tasks_application.py:197-200 | the newest refusing window stays open and ends the loop; its task layouts are merged iff the refusal came from its own listener rather than the application's; nothing is saved |
| Exit.CloseNewestFirst | enthought/envisage/ui/tasks/tasks_application.py:196-200 | windows close newest first until one refuses; when all closed, none is live, every window's task layouts are merged with the oldest winning, nothing is saved and a stop is scheduled iff there were windows; a refusal stops at the newest refusing window, which stays open with all older ones, and is merged iff its own listener refused |
| Exit.Exit | enthought/envisage/ui/tasks/tasks_application.py:179-208 | exit succeeds iff no window refuses; on failure the windows up to the newest refusing one stay open, the newer ones are closed and merged, and so is the refusing one when its own listener refused, nothing is saved and the window layouts are unchanged; on success all windows are closed and one save records the layouts all windows reported before any close; the explicit-exit flag is clear afterwards |
| Startup.ChooseLayouts | enthought/envisage/ui/tasks/tasks_application.py:219-230 | restored window layouts are used iff restoring is on and there are any; with restoring off the default windows keep their task lists and get every restored task layout, restored entries winning |
| Startup.SavedWindowLayoutsRestored | enthought/envisage/ui/tasks/tasks_application.py:219-222 | a saved state with at least one window layout is reopened as saved by the next start when restoring is on |
| Startup.OpenLayouts | enthought/envisage/ui/tasks/tasks_application.py:232-242 | one window per layout, with fresh identities in order, carrying its layout and its resolvable tasks; the windows not vetoed while opening join the list in order and the last of them is active |
| Startup.CreateWindows | enthought/envisage/ui/tasks/tasks_application.py:214-242 | startup loads the state, returns the layouts it chose and creates one window per chosen layout, with fresh identities, its layout and the tasks `create_task` gives for it; the windows not vetoed join the list in order and the last is active; the saved state, the flags and everything else are untouched |

## Left out

- File I/O and pickling: the bodies of `_load_state` and `_save_state`. Loading is the `StoredState` input; saving appends to the `saves` log.
- `_state_location_default` and its directory creation: they only pick a file system path.
- The event loop and deferred calls: `run`, `start`, `start_event_loop`, `gui.invoke_later(self.stop)`, `_gui_default` and the splash screen. Scheduling the stop is recorded as the `stopScheduled` flag.
- `create_window`'s trait-notification wiring, and the `window_created`, `window_opened` and `window_closed` notifications. They only notify listeners. The answers of the vetoable `window_opening` and `window_closing` notifications are inputs.
- `_global_actions_default`: it only builds menu objects. Global actions are an opaque list.
- Logging: the error logs of `create_task` and `_create_windows`, and the exception log of `_load_state`.
- Exceptions raised by toolkit calls. Only the `finally` of `exit` exists to handle them; `Exit.Exit` clears the flag on every path it models.
- Layout contents: geometry and dock state are opaque values. Rearranging a live window through the GUI is not modelled, so a window reports the layout it was given.
- `enthought/envisage/ui/tasks/action/task_window_toggle_group.py`: menu glue with one toggle action per window.
- `enthought/envisage/i_extension_point.py`: an interface declaration with no behaviour.
- `setup.py`: packaging.
- The extension-point registry, the `TaskWindow` class and `TaskFactory.create_with_extensions` are not part of this model. They are represented by the `Registry` value and the vetoes given as inputs.
- Exit.Exit: requires the live windows to have distinct identities. The Python code assumes this without checking it: `Startup.OpenLayouts` keeps it so, and `Trace.LiveAfterRun` shows that it lasts while windows are opened only when not in the list.
- Trace.LiveWindows: holds only for runs in which no window opens twice; a run that reopens a closed window is covered by `Trace.LiveAfterRun` instead.
