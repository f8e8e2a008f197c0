/**
 Persistable layout records of a Tasks application (TaskLayout, TaskWindowLayout
 and TasksApplicationState), the `dict.update` used to merge task layouts, and the
 loading of saved state with its fallback to an empty state.
 */
module Layouts {

  /** A task's identifier, as registered by its factory. */
  type TaskId = string

  /** The dock-pane arrangement of one task; its contents are not interpreted here. */
  type TaskLayout(==, !new)

  /** Window-level geometry (position, size, active task); not interpreted here. */
  type WindowGeometry(==, !new)

  /** The layout of one window: the tasks it hosts, in order, and their layouts. */
  datatype TaskWindowLayout = TaskWindowLayout(
    tasks: seq<TaskId>,
    layoutState: map<TaskId, TaskLayout>,
    geometry: WindowGeometry)

  /** The record persisted between runs. */
  datatype TasksApplicationState = TasksApplicationState(
    taskLayouts: map<TaskId, TaskLayout>,
    windowLayouts: seq<TaskWindowLayout>)

  /** A freshly constructed TasksApplicationState. */
  const EmptyState := TasksApplicationState(map[], [])

  /** Python's `base.update(incoming)`: the union of both, `incoming` winning on clashes. */
  function Update(base: map<TaskId, TaskLayout>, incoming: map<TaskId, TaskLayout>)
    : (r: map<TaskId, TaskLayout>)
    ensures r.Keys == base.Keys + incoming.Keys
    ensures forall t :: t in incoming ==> r[t] == incoming[t]
    ensures forall t :: t in base && t !in incoming ==> r[t] == base[t]
  {
    base + incoming
  }

  /** What reading the memento file can yield. */
  datatype StoredState =
    | NoFile                                  // the file does not exist
    | Unreadable                              // opening or unpickling it raised
    | Stored(state: TasksApplicationState)    // it held this state

  /**
   Loading saved state never fails: a missing or unreadable file yields an
   empty state, and a readable one yields exactly what was stored.
   */
  function LoadState(stored: StoredState): (r: TasksApplicationState)
    ensures stored.Stored? ==> r == stored.state
    ensures !stored.Stored? ==> r.taskLayouts == map[] && r.windowLayouts == []
  {
    match stored
    case Stored(s) => s
    case _ => EmptyState
  }
}
