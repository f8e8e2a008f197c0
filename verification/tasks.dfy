/**
 Task creation: first-match lookup of a TaskFactory in registry order, selection
 of the TaskExtensions contributed for a task id, and the default window layout
 built from the registered factories.
 */
module Tasks {
  import opened Wrappers
  import opened Layouts

  /** A menu or tool-bar contribution added to every task; not interpreted here. */
  type SchemaAddition(==, !new)

  /** What a TaskExtension contributes to its task; not interpreted here. */
  type Contribution(==, !new)

  /** Everything a TaskFactory builds into a task other than its id and extra actions. */
  type TaskContent(==, !new)

  /** What distinguishes one factory from another beyond its id. */
  type Recipe(==, !new)

  datatype TaskFactory = TaskFactory(id: TaskId, recipe: Recipe)

  datatype TaskExtension = TaskExtension(taskId: TaskId, contribution: Contribution)

  datatype Task = Task(id: TaskId, extraActions: seq<SchemaAddition>, content: TaskContent)

  /**
   The contributions of the two extension points the application consumes, the
   application-wide actions, and `TaskFactory.create_with_extensions`, which is
   the factory's own code and is taken as given.
   */
  datatype Registry = Registry(
    factories: seq<TaskFactory>,
    extensions: seq<TaskExtension>,
    globalActions: seq<SchemaAddition>,
    build: (TaskFactory, seq<TaskExtension>) -> Task)

  predicate HasFactory(factories: seq<TaskFactory>, id: TaskId) {
    exists i :: 0 <= i < |factories| && factories[i].id == id
  }

  /** `k` is the position of the first factory registered under `id`. */
  predicate IsFirstMatch(factories: seq<TaskFactory>, id: TaskId, k: nat) {
    && k < |factories|
    && factories[k].id == id
    && forall j :: 0 <= j < k ==> factories[j].id != id
  }

  /** The `for ... break ... else` search of `create_task`. */
  function FirstMatch(factories: seq<TaskFactory>, id: TaskId): (r: Option<nat>)
    ensures r.None? <==> !HasFactory(factories, id)
    ensures r.Some? ==> IsFirstMatch(factories, id, r.value)
  {
    if |factories| == 0 then None
    else if factories[0].id == id then Some(0)
    else
      match FirstMatch(factories[1..], id)
      case None =>
        assert forall i :: 1 <= i < |factories| ==> factories[i] == factories[1..][i - 1];
        None
      case Some(k) =>
        assert forall j :: 1 <= j < k + 1 ==> factories[j] == factories[1..][j - 1];
        Some(k + 1)
  }

  /** The list comprehension selecting the extensions contributed for `id`. */
  function ExtensionsFor(exts: seq<TaskExtension>, id: TaskId): (r: seq<TaskExtension>)
    ensures |r| <= |exts|
    ensures forall k :: 0 <= k < |r| ==> r[k].taskId == id
    ensures forall e: TaskExtension :: e.taskId == id ==> multiset(r)[e] == multiset(exts)[e]
  {
    if |exts| == 0 then []
    else
      assert exts == [exts[0]] + exts[1..];
      if exts[0].taskId == id then [exts[0]] + ExtensionsFor(exts[1..], id)
      else ExtensionsFor(exts[1..], id)
  }

  /**
   Selection distributes over concatenation: the extensions selected from
   `a + b` are those selected from `a` followed by those selected from `b`.
   With the one-element case (an extension is kept iff its task id matches),
   this pins the selection down to the matching extensions in registry order.
   */
  lemma {:induction false} ExtensionsForAppend(a: seq<TaskExtension>, b: seq<TaskExtension>, id: TaskId)
    ensures ExtensionsFor(a + b, id) == ExtensionsFor(a, id) + ExtensionsFor(b, id)
    decreases |a|
  {
    if |a| == 0 {
      assert a + b == b;
    } else {
      assert (a + b)[1..] == a[1..] + b;
      assert (a + b)[0] == a[0];
      ExtensionsForAppend(a[1..], b, id);
    }
  }

  lemma ExtensionsForSingle(e: TaskExtension, id: TaskId)
    ensures ExtensionsFor([e], id) == if e.taskId == id then [e] else []
  {
  }

  /**
   `create_task`: no task when no factory is registered under `id`; otherwise
   the first such factory builds the task from exactly the extensions
   contributed for `id`, the global actions are appended after the task's own
   extra actions, and the task is stamped with `id`.
   */
  function CreateTask(reg: Registry, id: TaskId): (r: Option<Task>)
    ensures r.None? <==> !HasFactory(reg.factories, id)
    ensures r.Some? ==> r.value.id == id
    ensures r.Some? ==>
      exists k: nat :: IsFirstMatch(reg.factories, id, k) &&
        var built := reg.build(reg.factories[k], ExtensionsFor(reg.extensions, id));
        && r.value.extraActions == built.extraActions + reg.globalActions
        && r.value.content == built.content
  {
    match FirstMatch(reg.factories, id)
    case None => None
    case Some(k) =>
      var factory := reg.factories[k];
      var task := reg.build(factory, ExtensionsFor(reg.extensions, id));
      Some(task.(extraActions := task.extraActions + reg.globalActions, id := factory.id))
  }

  /** The ids of `ids` that some factory is registered under, in order. */
  function KnownIds(factories: seq<TaskFactory>, ids: seq<TaskId>): (r: seq<TaskId>)
    ensures forall k :: 0 <= k < |r| ==> HasFactory(factories, r[k])
    ensures forall t :: t in ids && HasFactory(factories, t) ==> t in r
  {
    if |ids| == 0 then []
    else if HasFactory(factories, ids[0]) then [ids[0]] + KnownIds(factories, ids[1..])
    else KnownIds(factories, ids[1..])
  }

  function TaskIds(tasks: seq<Task>): (r: seq<TaskId>)
    ensures |r| == |tasks|
    ensures forall k :: 0 <= k < |tasks| ==> r[k] == tasks[k].id
  {
    seq(|tasks|, k requires 0 <= k < |tasks| => tasks[k].id)
  }

  /**
   The tasks created for a window layout's task list: one per id that has a
   factory, in order; ids without a factory are skipped.
   */
  function CreateTasks(reg: Registry, ids: seq<TaskId>): (r: seq<Task>)
    ensures TaskIds(r) == KnownIds(reg.factories, ids)
  {
    if |ids| == 0 then []
    else
      var rest := CreateTasks(reg, ids[1..]);
      match CreateTask(reg, ids[0])
      case Some(task) =>
        assert TaskIds([task] + rest) == [ids[0]] + TaskIds(rest);
        [task] + rest
      case None => rest
  }

  /** Each task created for a window is what `create_task` returns for its id. */
  lemma {:induction false} CreateTasksAreCreated(reg: Registry, ids: seq<TaskId>)
    ensures forall k :: 0 <= k < |CreateTasks(reg, ids)| ==>
      CreateTask(reg, CreateTasks(reg, ids)[k].id) == Some(CreateTasks(reg, ids)[k])
    decreases |ids|
  {
    if |ids| > 0 {
      CreateTasksAreCreated(reg, ids[1..]);
    }
  }

  /**
   `_default_layout_default`: a single window whose task list is the first
   registered factory's id, or empty when there is none. `geometry` stands for
   the defaults of a fresh TaskWindowLayout.
   */
  function DefaultLayout(factories: seq<TaskFactory>, geometry: WindowGeometry)
    : (r: seq<TaskWindowLayout>)
    ensures |r| == 1
    ensures r[0].layoutState == map[] && r[0].geometry == geometry
    ensures |factories| == 0 ==> r[0].tasks == []
    ensures |factories| > 0 ==> r[0].tasks == [factories[0].id]
  {
    var tasks := if |factories| > 0 then [factories[0].id] else [];
    [TaskWindowLayout(tasks, map[], geometry)]
  }

  /** Every task of the default layout resolves, so its window is never left empty by skipping. */
  lemma DefaultLayoutTasksResolve(reg: Registry, geometry: WindowGeometry)
    ensures var d := DefaultLayout(reg.factories, geometry);
      CreateTasks(reg, d[0].tasks) != [] <==> |reg.factories| > 0
  {
  }
}
