/**
 * The board API over the workspace manager: the status whitelist, the
 * column list, the task responses with their defaults, the mapping of
 * manager errors to HTTP status codes, and the board statistics.
 *
 * Endpoints are functions from a repository to the repository after the
 * call and the reply; the statistics loop is a method proved against the
 * counting functions `Tally` and `SumXp`.
 */
module Board {
  import opened Wrappers
  import opened Dicts
  import opened Codec
  import opened Workspaces
  import opened Manager

  // ---------------------------------------------------------------------
  // Statuses and columns

  /** The statuses a task may be moved to, in board order. */
  const Statuses: seq<string> := ["backlog", "in_progress", "review", "done", "blocked"]

  datatype Column = Column(id: string, title: string, color: string)

  /** `get_columns`: one column per status. */
  function GetColumns(): (cs: seq<Column>)
    ensures |cs| == |Statuses|
    ensures forall i :: 0 <= i < |cs| ==> cs[i].id == Statuses[i]
  {
    [ Column("backlog", "\U{1F4E5} Backlog", "#6b7280"),
      Column("in_progress", "\U{1F504} In Progress", "#3b82f6"),
      Column("review", "\U{1F440} Review", "#f59e0b"),
      Column("done", "\U{2705} Done", "#10b981"),
      Column("blocked", "\U{1F6AB} Blocked", "#ef4444") ]
  }

  /** The column ids are the whitelist, so every column is a status a task can be moved to. */
  lemma ColumnsAreStatuses(status: string)
    ensures status in Statuses <==> exists i :: 0 <= i < |GetColumns()| && GetColumns()[i].id == status
  {
    var cs := GetColumns();
    if status in Statuses {
      var i :| 0 <= i < |Statuses| && Statuses[i] == status;
      assert cs[i].id == status;
    }
  }

  // ---------------------------------------------------------------------
  // Replies

  /** What an endpoint returns: a body, or an `HTTPException` with its status code. */
  datatype Reply<T> = Done(body: T) | HttpError(code: int)

  /**
   * The fields of a `TaskResponse`, holding the META.yml values as read
   * (a missing optional field is `Null`).
   */
  datatype TaskResponse = TaskResponse(
    taskId: Value, title: Value, agent: Value, status: Value, skill: Value,
    xpReward: Value, branch: Value, createdAt: Value, updatedAt: Value)

  /** A response field shows the record's value for key `k` when present, else `default`. */
  predicate Shows(meta: Record, k: string, shown: Value, default: Value)
  {
    && (k in Keys(meta) ==> Get(meta, k) == Some(shown))
    && (k !in Keys(meta) ==> shown == default)
  }

  /**
   * A response built from a META.yml record: every field shows the stored
   * value when the key is present; otherwise task id, title, agent and
   * status fall back to the endpoint's defaults, `xp_reward` to 0 and the
   * other optional fields to `None`. The branch is the endpoint's.
   */
  function Respond(meta: Record, taskId: Value, title: Value, agent: Value, status: Value,
                   branch: Value): (r: TaskResponse)
    ensures Shows(meta, "task_id", r.taskId, taskId)
    ensures Shows(meta, "title", r.title, title)
    ensures Shows(meta, "agent", r.agent, agent)
    ensures Shows(meta, "status", r.status, status)
    ensures Shows(meta, "skill", r.skill, Null)
    ensures Shows(meta, "xp_reward", r.xpReward, Int(0))
    ensures Shows(meta, "created_at", r.createdAt, Null)
    ensures Shows(meta, "updated_at", r.updatedAt, Null)
    ensures r.branch == branch
  {
    TaskResponse(
      GetOr(meta, "task_id", taskId), GetOr(meta, "title", title), GetOr(meta, "agent", agent),
      GetOr(meta, "status", status), GetOr(meta, "skill", Null), GetOr(meta, "xp_reward", Int(0)),
      branch, GetOr(meta, "created_at", Null), GetOr(meta, "updated_at", Null))
  }

  /** The response `list_tasks` makes of one listed record. */
  function ListResponse(ws: Record): (r: TaskResponse)
    ensures Shows(ws, "branch", r.branch, Null)
  {
    Respond(ws, Str(""), Str(""), Str(""), Str("backlog"), GetOr(ws, "branch", Null))
  }

  /**
   * A listed record without `status` shows as `backlog`, without
   * `xp_reward` as 0, without title or agent as the empty string; a field
   * that is present shows as stored.
   */
  lemma ListResponseDefaults(ws: Record)
    ensures var r := ListResponse(ws);
      && r.status == (if Get(ws, "status").Some? then Get(ws, "status").value else Str("backlog"))
      && r.xpReward == (if Get(ws, "xp_reward").Some? then Get(ws, "xp_reward").value else Int(0))
      && r.title == (if Get(ws, "title").Some? then Get(ws, "title").value else Str(""))
      && r.agent == (if Get(ws, "agent").Some? then Get(ws, "agent").value else Str(""))
      && ("status" !in Keys(ws) ==> r.status == Str("backlog"))
  {
  }

  /** `list_tasks`. */
  function ListTasks(s: Repo, refs: Option<string>, showFaults: set<string>): (rs: seq<TaskResponse>)
    ensures |rs| == |ListSpec(s, refs, showFaults)|
  {
    var wss := ListSpec(s, refs, showFaults);
    seq(|wss|, i requires 0 <= i < |wss| => ListResponse(wss[i]))
  }

  // ---------------------------------------------------------------------
  // Errors to status codes

  /** `create_task`: `WorkspaceExistsError` is 409, anything else 500. */
  function CreateErrorCode(f: Failure): (code: int)
    ensures code == 409 <==> f == WorkspaceExists
    ensures code == 409 || code == 500
  {
    if f == WorkspaceExists then 409 else 500
  }

  /** `get_task` and `update_task_status`: `WorkspaceNotFoundError` is 404, anything else 500. */
  function NotFoundErrorCode(f: Failure): (code: int)
    ensures code == 404 <==> f == WorkspaceNotFound
    ensures code == 404 || code == 500
  {
    if f == WorkspaceNotFound then 404 else 500
  }

  /** `delete_task`: every error is 500. */
  function DeleteErrorCode(f: Failure): int
  {
    500
  }

  // ---------------------------------------------------------------------
  // Endpoints

  /** `create_task`: create the workspace, then read its META.yml back. */
  function CreateTask(s: Repo, base: string, id: string, title: string, agent: string,
                      skill: Option<string>, created: string, updated: string,
                      faults: set<Step>): (r: (Repo, Reply<TaskResponse>))
    ensures r.1.HttpError? ==> r.1.code == 409 || r.1.code == 500
  {
    var o := CreateSpec(s, base, id, title, agent, skill, created, updated, faults);
    if o.result.Err? then (o.repo, HttpError(CreateErrorCode(o.result.error)))
    else
      match GetMetaSpec(o.repo, base, id)
      case Err(f) => (o.repo, HttpError(CreateErrorCode(f)))
      case Ok(meta) =>
        (o.repo, Done(Respond(meta, Str(id), Str(title), Str(agent), Str("backlog"), Str(BranchName(id)))))
  }

  /** `get_task`. */
  function GetTask(s: Repo, base: string, taskId: string): (r: Reply<TaskResponse>)
  {
    match GetMetaSpec(s, base, taskId)
    case Err(f) => HttpError(NotFoundErrorCode(f))
    case Ok(meta) =>
      Done(Respond(meta, Str(taskId), Str(""), Str(""), Str("backlog"), Str(BranchName(taskId))))
  }

  /**
   * `update_task_status`: a status outside the whitelist is refused with 400
   * before the manager is used; otherwise `update_meta` with the new status
   * and a commit, then `get_meta`.
   */
  function UpdateTaskStatus(s: Repo, base: string, taskId: string, status: string, now: string,
                            faults: set<Step>): (r: (Repo, Reply<TaskResponse>))
    ensures status !in Statuses ==> r == (s, HttpError(400))
    ensures r.1.HttpError? ==> r.1.code in {400, 404, 500}
  {
    if status !in Statuses then (s, HttpError(400))
    else
      var o := UpdateMetaSpec(s, base, taskId, [Entry("status", Str(status))], true, now, faults);
      if o.result.Err? then (o.repo, HttpError(NotFoundErrorCode(o.result.error)))
      else
        match GetMetaSpec(o.repo, base, taskId)
        case Err(f) => (o.repo, HttpError(NotFoundErrorCode(f)))
        case Ok(meta) =>
          (o.repo, Done(Respond(meta, Str(taskId), Str(""), Str(""), Str(status), Str(BranchName(taskId)))))
  }

  /** `delete_task`: the message and the task id. */
  function DeleteTask(s: Repo, base: string, taskId: string, force: bool,
                      faults: set<Step>): (r: (Repo, Reply<(string, string)>))
    ensures r.1.HttpError? ==> r.1.code == 500
  {
    var o := RemoveSpec(s, base, taskId, force, faults);
    if o.result.Err? then (o.repo, HttpError(DeleteErrorCode(o.result.error)))
    else (o.repo, Done(("Task " + taskId + " deleted", taskId)))
  }

  /** `create_task` answers 409 exactly when the worktree directory already exists, and then changes nothing. */
  lemma CreateTaskConflict(s: Repo, base: string, id: string, title: string, agent: string,
                           skill: Option<string>, created: string, updated: string, faults: set<Step>)
    ensures var r := CreateTask(s, base, id, title, agent, skill, created, updated, faults);
      && (r.1 == HttpError(409) <==> WorktreePath(base, id) in s.worktrees)
      && (r.1 == HttpError(409) ==> r.0 == s)
  {
    var o := CreateSpec(s, base, id, title, agent, skill, created, updated, faults);
    if o.result.Ok? {
      var meta := GetMetaSpec(o.repo, base, id);
      assert meta.Err? ==> meta.error == WorkspaceNotFound;
    }
  }

  /**
   * A successful `create_task` answers with status `backlog`, no XP, the
   * task's branch and the id, title and agent given.
   */
  lemma CreateTaskResponse(s: Repo, base: string, id: string, title: string, agent: string,
                           skill: Option<string>, created: string, updated: string, faults: set<Step>)
    requires Valid(s)
    requires CreateSucceeds(s, base, id, title, agent, skill, created, updated, faults)
    requires PlainText(id) && PlainText(title) && PlainText(agent) && PlainText(s.head)
    requires PlainText(created) && PlainText(updated)
    requires skill.Some? ==> PlainText(skill.value)
    ensures var r := CreateTask(s, base, id, title, agent, skill, created, updated, faults);
      && r.1.Done?
      && r.1.body.taskId == Str(id) && r.1.body.agent == Str(agent)
      && r.1.body.status == Str("backlog") && r.1.body.xpReward == Int(0)
      && r.1.body.branch == Str(BranchName(id))
  {
    CreateOutcome(s, base, id, title, agent, skill, created, updated, faults);
    CreateThenGetMeta(s, base, id, title, agent, skill, created, updated, faults);
  }

  /** `get_task` answers 404 exactly when META.yml is missing; reading never fails otherwise here. */
  lemma GetTaskNotFound(s: Repo, base: string, taskId: string)
    ensures GetTask(s, base, taskId).HttpError? <==> WorktreePath(base, taskId) !in s.files
    ensures GetTask(s, base, taskId).HttpError? ==> GetTask(s, base, taskId).code == 404
  {
  }

  /** The whitelist statuses are plain text, so they read back from META.yml as written. */
  lemma StatusesPlain(status: string)
    requires status in Statuses
    ensures PlainText(status)
  {
    var i :| 0 <= i < |Statuses| && Statuses[i] == status;
    assert WordKey(status) && status != "null";
    WordPlain(status);
  }

  /**
   * A PATCH for a task without META.yml fails with 500, not 404, because
   * `update_meta` reads the file before anything checks that it exists;
   * nothing changes.
   */
  lemma UpdateMissingTask(s: Repo, base: string, taskId: string, status: string, now: string,
                          faults: set<Step>)
    requires status in Statuses && WorktreePath(base, taskId) !in s.files
    ensures UpdateTaskStatus(s, base, taskId, status, now, faults) == (s, HttpError(500))
  {
  }

  /** A PATCH that gets through answers with the new status, whatever the record held before. */
  lemma UpdateTaskResponse(s: Repo, base: string, taskId: string, status: string, now: string,
                           faults: set<Step>)
    requires status in Statuses && PlainText(now)
    ensures var r := UpdateTaskStatus(s, base, taskId, status, now, faults);
      r.1.Done? ==> r.1.body.status == Str(status)
  {
    var d := WorktreePath(base, taskId);
    var u := [Entry("status", Str(status))];
    var o := UpdateMetaSpec(s, base, taskId, u, true, now, faults);
    if o.result.Ok? {
      assert d in s.files && WriteMeta !in faults;
      StatusUpdateWritable(status);
      UpdateThenGet(s, base, taskId, u, true, now, faults);
      StatusMerge(Decode(s.files[d]), status, now);
    }
  }

  lemma StatusUpdateWritable(status: string)
    requires status in Statuses
    ensures Writable([Entry("status", Str(status))])
  {
    StatusesPlain(status);
    assert WordKey("status");
    WordKeyPlain("status");
  }

  /** The merged record of a status update holds the new status. */
  lemma StatusMerge(meta: Record, status: string, now: string)
    ensures Get(Merge(meta, [Entry("status", Str(status))], now), "status") == Some(Str(status))
  {
    var u := [Entry("status", Str(status))];
    assert "status" != "updated_at" by { assert |"status"| != |"updated_at"|; }
    assert Keys(u) == ["status"];
    MergeGet(meta, u, now, "status");
  }

  /**
   * A status update is refused with 400 exactly when the status is not a column; for a
   * column it answers with the task exactly when `update_meta` returns.
   */
  lemma UpdateTaskOutcome(s: Repo, base: string, taskId: string, status: string, now: string,
                          faults: set<Step>)
    ensures var r := UpdateTaskStatus(s, base, taskId, status, now, faults);
      r.1 == HttpError(400) <==> status !in Statuses
    ensures var r := UpdateTaskStatus(s, base, taskId, status, now, faults);
      var o := UpdateMetaSpec(s, base, taskId, [Entry("status", Str(status))], true, now, faults);
      status in Statuses ==> (r.1.Done? <==> o.result.Ok?)
  {
    if status in Statuses {
      var updates := [Entry("status", Str(status))];
      var o := UpdateMetaSpec(s, base, taskId, updates, true, now, faults);
      var r := UpdateTaskStatus(s, base, taskId, status, now, faults);
      var d := WorktreePath(base, taskId);
      if o.result.Ok? {
        assert d in s.files && WriteMeta !in faults;
        UpdateWritesMerged(s, base, taskId, updates, true, now, faults);
        assert GetMetaSpec(o.repo, base, taskId).Ok?;
        assert r.1.Done?;
      } else {
        assert r.1 == HttpError(NotFoundErrorCode(o.result.error));
      }
    }
  }

  /** `delete_task` answers 500 exactly when `remove` raises. */
  lemma DeleteTaskError(s: Repo, base: string, taskId: string, force: bool, faults: set<Step>)
    ensures var r := DeleteTask(s, base, taskId, force, faults);
      r.1 == HttpError(500) <==> RemoveSpec(s, base, taskId, force, faults).result.Err?
  {
  }

  // ---------------------------------------------------------------------
  // Statistics

  datatype Stats = Stats(total: nat, byStatus: Dict<Value, nat>, byAgent: Dict<Value, nat>, totalXp: int)

  /** The field a tally counts by, with its default. */
  datatype Field = StatusField | AgentField

  /** `ws.get("status", "backlog")` or `ws.get("agent", "unknown")`. */
  function KeyOf(ws: Record, f: Field): (v: Value)
    ensures f == StatusField ==> Shows(ws, "status", v, Str("backlog"))
    ensures f == AgentField ==> Shows(ws, "agent", v, Str("unknown"))
  {
    match f
    case StatusField => GetOr(ws, "status", Str("backlog"))
    case AgentField => GetOr(ws, "agent", Str("unknown"))
  }

  /** `ws.get("xp_reward", 0)` when it is an int, else 0. */
  function XpOf(ws: Record): (xp: int)
    ensures (Get(ws, "xp_reward").Some? && Get(ws, "xp_reward").value.Int?) || xp == 0
    ensures Get(ws, "xp_reward").Some? && Get(ws, "xp_reward").value.Int? ==> xp == Get(ws, "xp_reward").value.i
  {
    var xp := Get(ws, "xp_reward");
    if xp.Some? && xp.value.Int? then xp.value.i else 0
  }

  /** `counts[k] = counts.get(k, 0) + 1`. */
  function Bump(counts: Dict<Value, nat>, k: Value): Dict<Value, nat>
  {
    Set(counts, k, GetOr(counts, k, 0) + 1)
  }

  /** The counters the statistics loop builds for field `f`. */
  function Tally(wss: seq<Record>, f: Field): Dict<Value, nat>
  {
    if wss == [] then [] else Bump(Tally(wss[..|wss| - 1], f), KeyOf(wss[|wss| - 1], f))
  }

  /** The number of records whose field `f` (with its default) is `v`. */
  function Occurrences(wss: seq<Record>, f: Field, v: Value): nat
  {
    if wss == [] then 0
    else Occurrences(wss[..|wss| - 1], f, v) + if KeyOf(wss[|wss| - 1], f) == v then 1 else 0
  }

  function SumXp(wss: seq<Record>): int
  {
    if wss == [] then 0 else SumXp(wss[..|wss| - 1]) + XpOf(wss[|wss| - 1])
  }

  lemma BumpTotal(counts: Dict<Value, nat>, k: Value)
    ensures Total(Bump(counts, k)) == Total(counts) + 1
  {
    TotalSet(counts, k, GetOr(counts, k, 0) + 1);
  }

  lemma BumpGet(counts: Dict<Value, nat>, k: Value, v: Value)
    ensures GetOr(Bump(counts, k), v, 0) == GetOr(counts, v, 0) + if k == v then 1 else 0
  {
    var n := GetOr(counts, k, 0) + 1;
    assert Bump(counts, k) == Set(counts, k, n);
    GetSet(counts, k, n, v);
    if k == v {
      assert Get(Set(counts, k, n), v) == Some(n);
    } else {
      assert Get(Set(counts, k, n), v) == Get(counts, v);
    }
  }

  lemma BumpDistinct(counts: Dict<Value, nat>, k: Value)
    requires Distinct(counts)
    ensures Distinct(Bump(counts, k))
  {
    SetKeys(counts, k, GetOr(counts, k, 0) + 1);
  }

  /** The counters sum to the number of records. */
  lemma {:induction false} TallyTotal(wss: seq<Record>, f: Field)
    ensures Total(Tally(wss, f)) == |wss|
    decreases |wss|
  {
    if wss != [] {
      var t := Tally(wss[..|wss| - 1], f);
      var k := KeyOf(wss[|wss| - 1], f);
      assert Tally(wss, f) == Bump(t, k);
      TallyTotal(wss[..|wss| - 1], f);
      BumpTotal(t, k);
    }
  }

  /** The counter of each value is the number of records with that value, and the counters have distinct keys. */
  lemma {:induction false} TallyCounts(wss: seq<Record>, f: Field, v: Value)
    ensures GetOr(Tally(wss, f), v, 0) == Occurrences(wss, f, v)
    ensures Distinct(Tally(wss, f))
    decreases |wss|
  {
    if wss != [] {
      var t := Tally(wss[..|wss| - 1], f);
      var k := KeyOf(wss[|wss| - 1], f);
      assert Tally(wss, f) == Bump(t, k);
      TallyCounts(wss[..|wss| - 1], f, v);
      BumpGet(t, k, v);
      BumpDistinct(t, k);
    }
  }

  /** One more record in the loop: each counter and the XP sum take one step. */
  lemma TabulateStep(wss: seq<Record>, i: nat)
    requires i < |wss|
    ensures Tally(wss[..i + 1], StatusField) == Bump(Tally(wss[..i], StatusField), KeyOf(wss[i], StatusField))
    ensures Tally(wss[..i + 1], AgentField) == Bump(Tally(wss[..i], AgentField), KeyOf(wss[i], AgentField))
    ensures SumXp(wss[..i + 1]) == SumXp(wss[..i]) + XpOf(wss[i])
  {
    assert wss[..i + 1][..i] == wss[..i];
  }

  /** The loop of `get_board_stats` over the listed records. */
  method Tabulate(workspaces: seq<Record>) returns (stats: Stats)
    ensures stats.total == |workspaces|
    ensures stats.byStatus == Tally(workspaces, StatusField)
    ensures stats.byAgent == Tally(workspaces, AgentField)
    ensures stats.totalXp == SumXp(workspaces)
    ensures Total(stats.byStatus) == stats.total && Total(stats.byAgent) == stats.total
  {
    var byStatus: Dict<Value, nat> := [];
    var byAgent: Dict<Value, nat> := [];
    var totalXp := 0;
    for i := 0 to |workspaces|
      invariant byStatus == Tally(workspaces[..i], StatusField)
      invariant byAgent == Tally(workspaces[..i], AgentField)
      invariant totalXp == SumXp(workspaces[..i])
    {
      var ws := workspaces[i];
      var status := KeyOf(ws, StatusField);
      var agent := KeyOf(ws, AgentField);
      var xp := XpOf(ws);
      TabulateStep(workspaces, i);
      byStatus := Set(byStatus, status, GetOr(byStatus, status, 0) + 1);
      byAgent := Set(byAgent, agent, GetOr(byAgent, agent, 0) + 1);
      totalXp := totalXp + xp;
    }
    assert workspaces[..|workspaces|] == workspaces;
    TallyTotal(workspaces, StatusField);
    TallyTotal(workspaces, AgentField);
    stats := Stats(|workspaces|, byStatus, byAgent, totalXp);
  }

  /** `get_board_stats`: list the workspaces, then tabulate them. */
  method GetBoardStats(wm: WorkspaceManager, refs: Option<string>, showFaults: set<string>)
    returns (stats: Stats)
    ensures var wss := ListSpec(wm.State(), refs, showFaults);
      && stats.total == |wss|
      && stats.byStatus == Tally(wss, StatusField)
      && stats.byAgent == Tally(wss, AgentField)
      && stats.totalXp == SumXp(wss)
  {
    var workspaces := wm.ListWorkspaces(refs, showFaults);
    stats := Tabulate(workspaces);
  }
}
