/** The project/task service of project-set/api.php. The action arrives
    as a query-string parameter; the handlers read a JSON body or the
    query string and run one prepared statement each against two tables,
    projects and tasks, held here as the fields of a Store. */
module ProjectSet {
  import opened Php
  import opened Sql

  datatype Project = Project(id: int, projectName: Cell)

  datatype Task = Task(id: int, projectId: Cell, taskName: Cell, hours: Cell,
                       startDate: Cell, endDate: Cell, status: Cell, comment: Cell)

  /** A row of `SELECT t.*, p.project_name FROM tasks t JOIN projects p ...`. */
  datatype JoinedTask = JoinedTask(task: Task, projectName: Cell)

  /** The JSON a handler echoes. */
  datatype Response =
    | ProjectRows(projects: seq<Project>)  // a bare array of project rows
    | TaskRows(tasks: seq<JoinedTask>)     // a bare array of joined task rows
    | Created(message: string, id: int)    // status "success", a message and the new id
    | Done(message: string)                // status "success" and a message
    | Failed(message: string)              // status "error" and a message

  /** The query string: every parameter arrives as text. */
  type Query = map<string, string>

  // ------------------------------------------------------------ dispatch

  datatype Action = GetProjects | CreateProject | GetTasks | CreateTask | UpdateTask | DeleteTask

  function ActionName(a: Action): string {
    match a
    case GetProjects => "get_projects"
    case CreateProject => "create_project"
    case GetTasks => "get_tasks"
    case CreateTask => "create_task"
    case UpdateTask => "update_task"
    case DeleteTask => "delete_task"
  }

  /** `$_GET['action'] ?? ''` */
  function ActionParam(query: Query): (name: string)
    ensures "action" in query ==> name == query["action"]
    ensures "action" !in query ==> name == ""
  {
    if "action" in query then query["action"] else ""
  }

  /** The switch on the action. The case labels are not numeric strings,
      so PHP's loose comparison of two strings is plain equality: a name
      selects the action of that name, and any other string none. */
  function Route(name: string): (a: Option<Action>)
    ensures a.Some? ==> ActionName(a.value) == name
    ensures a.None? ==> forall c :: ActionName(c) != name
  {
    if name == "get_projects" then Some(GetProjects)
    else if name == "create_project" then Some(CreateProject)
    else if name == "get_tasks" then Some(GetTasks)
    else if name == "create_task" then Some(CreateTask)
    else if name == "update_task" then Some(UpdateTask)
    else if name == "delete_task" then Some(DeleteTask)
    else None
  }

  /** A request without an action parameter reaches the default case. */
  lemma MissingActionIsInvalid(query: Query)
    requires "action" !in query
    ensures Route(ActionParam(query)) == None
  {
    assert ActionParam(query) == "";
  }

  // ------------------------------------------------------------ projects

  /** createProject's guard: project_name is unset, or trim() of it is
      empty(), that is "" or "0". */
  predicate NameRejected(body: Request) {
    !IsSet(body, "project_name") || IsEmpty(Trim(ToStr(body["project_name"])))
  }

  /** A set name is rejected exactly when it is made of trim characters
      only, or when one of its characters is '0' and all the others are
      trim characters. */
  lemma NameRejectedCases(body: Request)
    requires IsSet(body, "project_name")
    ensures var name := ToStr(body["project_name"]);
      NameRejected(body) <==>
        || (forall i :: 0 <= i < |name| ==> IsTrimChar(name[i]))
        || (exists k :: OnlyZeroAt(name, k))
  {
    TrimIsZero(ToStr(body["project_name"]));
  }

  /** " 0 " trims to "0" and is rejected. */
  lemma PaddedZeroRejected()
    ensures NameRejected(map["project_name" := Str(" 0 ")])
  {
    var body: Request := map["project_name" := Str(" 0 ")];
    var name := " 0 ";
    assert ToStr(body["project_name"]) == name;
    NameRejectedCases(body);
    assert OnlyZeroAt(name, 1);
  }

  /** " Alpha " is accepted, and createProject stores it as sent. */
  lemma PaddedNameAccepted()
    ensures !NameRejected(map["project_name" := Str(" Alpha ")])
  {
    var name := " Alpha ";
    assert !IsTrimChar(name[1]);
    TrimIsZero(name);
    forall k | 0 <= k < |name| ensures !OnlyZeroAt(name, k) {
      if k != 1 {
        assert !IsTrimChar(name[1]);
      }
    }
  }

  // --------------------------------------------------------------- tasks

  /** The column holds the body's field as bound, and NULL when the body
      lacks it. */
  predicate FromBody(c: Cell, body: Request, key: string) {
    && (IsSet(body, key) ==> c == Bind(body[key]))
    && (!IsSet(body, key) ==> c == None)
  }

  /** The row createTask inserts under the given id: project_id and
      task_name as sent, the optional columns defaulted by ??. */
  function NewTask(id: int, body: Request): (t: Task)
    ensures t.id == id
    ensures FromBody(t.projectId, body, "project_id") && FromBody(t.taskName, body, "task_name")
    ensures !IsSet(body, "hours") ==> t.hours == None
    ensures !IsSet(body, "start_date") ==> t.startDate == None
    ensures !IsSet(body, "end_date") ==> t.endDate == None
    ensures !IsSet(body, "status") ==> t.status == Some("pending")
    ensures !IsSet(body, "comment") ==> t.comment == Some("")
    ensures IsSet(body, "hours") ==> t.hours == Bind(body["hours"])
    ensures IsSet(body, "start_date") ==> t.startDate == Bind(body["start_date"])
    ensures IsSet(body, "end_date") ==> t.endDate == Bind(body["end_date"])
    ensures IsSet(body, "status") ==> t.status == Bind(body["status"])
    ensures IsSet(body, "comment") ==> t.comment == Bind(body["comment"])
  {
    Task(id, Bind(Get(body, "project_id")), Bind(Get(body, "task_name")),
         Bind(Coalesce(body, "hours", Null)),
         Bind(Coalesce(body, "start_date", Null)),
         Bind(Coalesce(body, "end_date", Null)),
         Bind(Coalesce(body, "status", Str("pending"))),
         Bind(Coalesce(body, "comment", Str(""))))
  }

  /** The SET list of updateTask: all seven columns come from the body,
      a field it lacks giving NULL; only the id survives. */
  function Rewrite(t: Task, body: Request): (u: Task)
    ensures u.id == t.id
    ensures FromBody(u.projectId, body, "project_id") && FromBody(u.taskName, body, "task_name")
    ensures FromBody(u.hours, body, "hours") && FromBody(u.startDate, body, "start_date")
    ensures FromBody(u.endDate, body, "end_date") && FromBody(u.status, body, "status")
    ensures FromBody(u.comment, body, "comment")
  {
    Task(t.id, Bind(Get(body, "project_id")), Bind(Get(body, "task_name")),
         Bind(Get(body, "hours")), Bind(Get(body, "start_date")), Bind(Get(body, "end_date")),
         Bind(Get(body, "status")), Bind(Get(body, "comment")))
  }

  /** Update and create agree when the body sets every optional field,
      and differ on the status and comment columns when it omits them:
      an update writes NULL where a create writes the ?? default. */
  lemma RewriteVersusCreate(t: Task, body: Request)
    ensures (IsSet(body, "hours") && IsSet(body, "start_date") && IsSet(body, "end_date")
             && IsSet(body, "status") && IsSet(body, "comment"))
            ==> Rewrite(t, body) == NewTask(t.id, body)
    ensures !IsSet(body, "status") ==> Rewrite(t, body).status == None != NewTask(t.id, body).status
    ensures !IsSet(body, "comment") ==> Rewrite(t, body).comment == None != NewTask(t.id, body).comment
  {
  }

  /** `UPDATE tasks SET ... WHERE id = :id`: every row whose id the key
      names is rewritten, every other row stays as it was. */
  function UpdateWhere(ts: seq<Task>, key: Cell, body: Request): (r: seq<Task>)
    ensures |r| == |ts|
    ensures forall i :: 0 <= i < |ts| ==> r[i].id == ts[i].id
    ensures forall i :: 0 <= i < |ts| && KeyEquals(key, ts[i].id) ==> r[i] == Rewrite(ts[i], body)
    ensures forall i :: 0 <= i < |ts| && !KeyEquals(key, ts[i].id) ==> r[i] == ts[i]
  {
    if ts == [] then []
    else [if KeyEquals(key, ts[0].id) then Rewrite(ts[0], body) else ts[0]] + UpdateWhere(ts[1..], key, body)
  }

  /** Sending the same update twice leaves the table as sending it once. */
  lemma UpdateIdempotent(ts: seq<Task>, key: Cell, body: Request)
    ensures UpdateWhere(UpdateWhere(ts, key, body), key, body) == UpdateWhere(ts, key, body)
  {
    var once := UpdateWhere(ts, key, body);
    var twice := UpdateWhere(once, key, body);
    forall i | 0 <= i < |ts| ensures twice[i] == once[i] {
    }
  }

  /** `DELETE FROM tasks WHERE id = :id`: exactly the rows the key does
      not name remain. */
  function DeleteWhere(ts: seq<Task>, key: string): (r: seq<Task>)
    ensures multiset(r) <= multiset(ts)
    ensures forall t :: t in r <==> t in ts && !KeyEquals(Some(key), t.id)
  {
    if ts == [] then []
    else
      assert ts == [ts[0]] + ts[1..];
      (if KeyEquals(Some(key), ts[0].id) then [] else [ts[0]]) + DeleteWhere(ts[1..], key)
  }

  /** Deleting when no row matches leaves the table as it was, order included. */
  lemma {:induction false} DeleteNothing(ts: seq<Task>, key: string)
    requires forall t :: t in ts ==> !KeyEquals(Some(key), t.id)
    ensures DeleteWhere(ts, key) == ts
  {
    if ts != [] {
      assert ts[0] in ts;
      DeleteNothing(ts[1..], key);
      assert ts == [ts[0]] + ts[1..];
    }
  }

  /** Deleting an id twice leaves the table as deleting it once. */
  lemma DeleteIdempotent(ts: seq<Task>, key: string)
    ensures DeleteWhere(DeleteWhere(ts, key), key) == DeleteWhere(ts, key)
  {
    DeleteNothing(DeleteWhere(ts, key), key);
  }

  // ---------------------------------------------------------------- join

  /** The status filter getTasks adds when the query string carries one. */
  function StatusFilter(query: Query): (f: Option<string>)
    ensures f.Some? <==> "status" in query
    ensures f.Some? ==> f.value == query["status"]
  {
    if "status" in query then Some(query["status"]) else None
  }

  /** `WHERE t.status = :status`, or no condition at all. */
  predicate Passes(t: Task, filter: Option<string>) {
    filter.None? || t.status == Some(filter.value)
  }

  /** The joined rows of one task: one for each project whose id equals
      the task's project_id. */
  function JoinOne(t: Task, ps: seq<Project>): seq<JoinedTask> {
    if ps == [] then []
    else (if KeyEquals(t.projectId, ps[0].id) then [JoinedTask(t, ps[0].projectName)] else [])
         + JoinOne(t, ps[1..])
  }

  /** `SELECT t.*, p.project_name FROM tasks t JOIN projects p ON
      t.project_id = p.id [WHERE t.status = :status]`. Without an ORDER BY
      the store may deliver the rows in any order; this is task order. */
  function Join(ts: seq<Task>, ps: seq<Project>, filter: Option<string>): seq<JoinedTask> {
    if ts == [] then []
    else (if Passes(ts[0], filter) then JoinOne(ts[0], ps) else []) + Join(ts[1..], ps, filter)
  }

  lemma {:induction false} JoinOneMembers(t: Task, ps: seq<Project>, row: JoinedTask)
    ensures row in JoinOne(t, ps) <==>
      exists p :: p in ps && KeyEquals(t.projectId, p.id) && row == JoinedTask(t, p.projectName)
  {
    if ps != [] {
      JoinOneMembers(t, ps[1..], row);
      assert forall p :: p in ps <==> p == ps[0] || p in ps[1..];
    }
  }

  /** A joined row is a task that passes the filter, extended with the
      name of a project its project_id names; and every such pair is one. */
  lemma {:induction false} JoinMembers(ts: seq<Task>, ps: seq<Project>, filter: Option<string>, row: JoinedTask)
    ensures row in Join(ts, ps, filter) <==>
      exists t, p :: t in ts && p in ps && Passes(t, filter) && KeyEquals(t.projectId, p.id)
                     && row == JoinedTask(t, p.projectName)
  {
    if ts != [] {
      JoinMembers(ts[1..], ps, filter, row);
      JoinOneMembers(ts[0], ps, row);
      assert forall t :: t in ts <==> t == ts[0] || t in ts[1..];
    }
  }

  /** Project ids are distinct, so a task joins at most one project. */
  lemma {:induction false} JoinOneAtMostOne(t: Task, ps: seq<Project>)
    requires forall i, j :: 0 <= i < j < |ps| ==> ps[i].id != ps[j].id
    ensures |JoinOne(t, ps)| <= 1
  {
    if ps != [] {
      JoinOneAtMostOne(t, ps[1..]);
      if KeyEquals(t.projectId, ps[0].id) {
        NoOtherMatch(t, ps);
      }
    }
  }

  lemma {:induction false} JoinOneNone(t: Task, ps: seq<Project>)
    requires forall p :: p in ps ==> !KeyEquals(t.projectId, p.id)
    ensures JoinOne(t, ps) == []
  {
    if ps != [] {
      assert ps[0] in ps;
      JoinOneNone(t, ps[1..]);
    }
  }

  lemma NoOtherMatch(t: Task, ps: seq<Project>)
    requires ps != [] && KeyEquals(t.projectId, ps[0].id)
    requires forall i, j :: 0 <= i < j < |ps| ==> ps[i].id != ps[j].id
    ensures JoinOne(t, ps[1..]) == []
  {
    var rest := ps[1..];
    forall p | p in rest ensures !KeyEquals(t.projectId, p.id) {
      var k :| 0 <= k < |rest| && rest[k] == p;
      assert ps[k + 1] == p;
    }
    JoinOneNone(t, rest);
  }

  /** The join yields at most one row per task, so no more rows than
      there are tasks. */
  lemma {:induction false} JoinAtMostOnePerTask(ts: seq<Task>, ps: seq<Project>, filter: Option<string>)
    requires forall i, j :: 0 <= i < j < |ps| ==> ps[i].id != ps[j].id
    ensures forall t :: |JoinOne(t, ps)| <= 1
    ensures |Join(ts, ps, filter)| <= |ts|
  {
    forall t ensures |JoinOne(t, ps)| <= 1 {
      JoinOneAtMostOne(t, ps);
    }
    if ts != [] {
      JoinOneAtMostOne(ts[0], ps);
      JoinAtMostOnePerTask(ts[1..], ps, filter);
    }
  }

  // --------------------------------------------------------------- state

  /** Table ids are positive, distinct and below the next id to hand out. */
  ghost predicate ProjectIdsBelow(ps: seq<Project>, next: int) {
    && 1 <= next
    && (forall i :: 0 <= i < |ps| ==> 1 <= ps[i].id < next)
    && (forall i, j :: 0 <= i < j < |ps| ==> ps[i].id != ps[j].id)
  }

  ghost predicate TaskIdsBelow(ts: seq<Task>, next: int) {
    && 1 <= next
    && (forall i :: 0 <= i < |ts| ==> 1 <= ts[i].id < next)
    && (forall i, j :: 0 <= i < j < |ts| ==> ts[i].id != ts[j].id)
  }

  lemma TailIds(ts: seq<Task>, next: int)
    requires TaskIdsBelow(ts, next) && ts != []
    ensures TaskIdsBelow(ts[1..], next)
    ensures forall t :: t in ts[1..] ==> t.id != ts[0].id
  {
    forall t | t in ts[1..] ensures t.id != ts[0].id {
      var k :| 0 <= k < |ts[1..]| && ts[1..][k] == t;
      assert ts[k + 1] == t;
    }
  }

  lemma ConsIds(t: Task, rest: seq<Task>, next: int)
    requires TaskIdsBelow(rest, next) && 1 <= t.id < next
    requires forall u :: u in rest ==> u.id != t.id
    ensures TaskIdsBelow([t] + rest, next)
  {
    var r := [t] + rest;
    forall i, j | 0 <= i < j < |r| ensures r[i].id != r[j].id {
      assert r[j] == rest[j - 1];
      if i > 0 { assert r[i] == rest[i - 1]; } else { assert r[j] in rest; }
    }
  }

  /** Deleting rows keeps the ids positive, distinct and below the counter. */
  lemma {:induction false} DeleteKeepsIds(ts: seq<Task>, key: string, next: int)
    requires TaskIdsBelow(ts, next)
    ensures TaskIdsBelow(DeleteWhere(ts, key), next)
  {
    if ts != [] {
      TailIds(ts, next);
      DeleteKeepsIds(ts[1..], key, next);
      var rest := DeleteWhere(ts[1..], key);
      if !KeyEquals(Some(key), ts[0].id) {
        assert DeleteWhere(ts, key) == [ts[0]] + rest;
        ConsIds(ts[0], rest, next);
      } else {
        assert DeleteWhere(ts, key) == rest;
      }
    }
  }

  /** Appending a row under the counter's id and advancing the counter
      keeps the ids positive, distinct and below the counter. */
  lemma AppendProjectIds(ps: seq<Project>, next: int, name: Cell)
    requires ProjectIdsBelow(ps, next)
    ensures ProjectIdsBelow(ps + [Project(next, name)], next + 1)
  {
  }

  lemma AppendTaskIds(ts: seq<Task>, next: int, t: Task)
    requires TaskIdsBelow(ts, next) && t.id == next
    ensures TaskIdsBelow(ts + [t], next + 1)
  {
  }

  /** The two tables behind project-set/api.php and their AUTO_INCREMENT
      counters. Each handler method is one request. A store failure is
      the parameter `fault`: the message of the exception that PDO raised,
      which the handler's catch block echoes, changing nothing. */
  class Store {
    var projects: seq<Project>
    var tasks: seq<Task>
    var nextProjectId: int
    var nextTaskId: int

    ghost predicate Valid()
      reads this
    {
      ProjectIdsBelow(projects, nextProjectId) && TaskIdsBelow(tasks, nextTaskId)
    }

    constructor ()
      ensures Valid()
      ensures projects == [] && tasks == []
    {
      projects, tasks := [], [];
      nextProjectId, nextTaskId := 1, 1;
    }

    /** What getProjects answers: every project row, in table order. */
    ghost predicate GetProjectsPost(fault: Option<string>, r: Response)
      reads this
    {
      && (fault.Some? ==> r == Failed(fault.value))
      && (fault.None? ==> r == ProjectRows(projects))
    }

    method GetProjects(fault: Option<string>) returns (r: Response)
      ensures GetProjectsPost(fault, r)
    {
      if fault.Some? {
        return Failed(fault.value);
      }
      r := ProjectRows(projects);
    }

    /** What createProject does: it inserts the name as sent, untrimmed,
        under a fresh id, and changes nothing when it fails. */
    twostate predicate CreateProjectPost(body: Request, fault: Option<string>, r: Response)
      reads this
    {
      && (NameRejected(body) ==> r == Failed("Project name required") && unchanged(this))
      && (!NameRejected(body) && fault.Some? ==> r == Failed(fault.value) && unchanged(this))
      && (!NameRejected(body) && fault.None? ==>
            && r == Created("Project created", old(nextProjectId))
            && projects == old(projects) + [Project(old(nextProjectId), Bind(body["project_name"]))]
            && nextProjectId == old(nextProjectId) + 1
            && tasks == old(tasks) && nextTaskId == old(nextTaskId))
      && (r.Created? ==> forall p :: p in old(projects) ==> p.id != r.id)
    }

    method CreateProject(body: Request, fault: Option<string>) returns (r: Response)
      requires Valid()
      modifies this
      ensures Valid()
      ensures CreateProjectPost(body, fault, r)
    {
      if NameRejected(body) {
        return Failed("Project name required");
      }
      if fault.Some? {
        return Failed(fault.value);
      }
      var id := nextProjectId;
      AppendProjectIds(projects, id, Bind(body["project_name"]));
      projects := projects + [Project(id, Bind(body["project_name"]))];
      nextProjectId := nextProjectId + 1;
      r := Created("Project created", id);
    }

    /** What getTasks answers: the joined rows, filtered by status when
        the query string carries one. */
    ghost predicate GetTasksPost(query: Query, fault: Option<string>, r: Response)
      reads this
    {
      && (fault.Some? ==> r == Failed(fault.value))
      && (fault.None? ==> r == TaskRows(Join(tasks, projects, StatusFilter(query))))
      && (fault.None? ==> |r.tasks| <= |tasks|)
      && (fault.None? ==> forall row :: row in r.tasks <==>
            exists t, p :: t in tasks && p in projects && Passes(t, StatusFilter(query))
                           && KeyEquals(t.projectId, p.id) && row == JoinedTask(t, p.projectName))
      && (fault.None? && "status" in query ==>
            forall row :: row in r.tasks ==> row.task.status == Some(query["status"]))
    }

    method GetTasks(query: Query, fault: Option<string>) returns (r: Response)
      requires Valid()
      ensures GetTasksPost(query, fault, r)
    {
      // $query starts as the plain join; $params gains :status when the
      // query string carries one, and so does the statement.
      var filter: Option<string> := None;
      if "status" in query {
        filter := Some(query["status"]);
      }
      if fault.Some? {
        return Failed(fault.value);
      }
      var rows := Join(tasks, projects, filter);
      JoinAtMostOnePerTask(tasks, projects, filter);
      forall row ensures row in rows <==>
        exists t, p :: t in tasks && p in projects && Passes(t, filter)
                       && KeyEquals(t.projectId, p.id) && row == JoinedTask(t, p.projectName)
      {
        JoinMembers(tasks, projects, filter, row);
      }
      r := TaskRows(rows);
    }

    /** What createTask does: it inserts a row with the ?? defaults,
        without checking that the project exists, and changes nothing when
        it fails. */
    twostate predicate CreateTaskPost(body: Request, fault: Option<string>, r: Response)
      reads this
    {
      && (!IsSet(body, "project_id") || !IsSet(body, "task_name") ==>
            r == Failed("Required fields missing") && unchanged(this))
      && (IsSet(body, "project_id") && IsSet(body, "task_name") && fault.Some? ==>
            r == Failed(fault.value) && unchanged(this))
      && (IsSet(body, "project_id") && IsSet(body, "task_name") && fault.None? ==>
            && r == Created("Task created", old(nextTaskId))
            && tasks == old(tasks) + [NewTask(old(nextTaskId), body)]
            && nextTaskId == old(nextTaskId) + 1
            && projects == old(projects) && nextProjectId == old(nextProjectId))
      && (r.Created? ==> forall t :: t in old(tasks) ==> t.id != r.id)
    }

    method CreateTask(body: Request, fault: Option<string>) returns (r: Response)
      requires Valid()
      modifies this
      ensures Valid()
      ensures CreateTaskPost(body, fault, r)
    {
      if !IsSet(body, "project_id") || !IsSet(body, "task_name") {
        return Failed("Required fields missing");
      }
      if fault.Some? {
        return Failed(fault.value);
      }
      var id := nextTaskId;
      AppendTaskIds(tasks, id, NewTask(id, body));
      tasks := tasks + [NewTask(id, body)];
      nextTaskId := nextTaskId + 1;
      r := Created("Task created", id);
    }

    /** What updateTask does: a full replace of every row with the given
        id, reported as a success whether or not a row matched. */
    twostate predicate UpdateTaskPost(body: Request, fault: Option<string>, r: Response)
      reads this
    {
      && (!IsSet(body, "id") ==> r == Failed("Task ID required") && unchanged(this))
      && (IsSet(body, "id") && fault.Some? ==> r == Failed(fault.value) && unchanged(this))
      && (IsSet(body, "id") && fault.None? ==>
            && r == Done("Task updated")
            && tasks == UpdateWhere(old(tasks), Bind(body["id"]), body)
            && projects == old(projects)
            && nextProjectId == old(nextProjectId) && nextTaskId == old(nextTaskId))
    }

    method UpdateTask(body: Request, fault: Option<string>) returns (r: Response)
      requires Valid()
      modifies this
      ensures Valid()
      ensures UpdateTaskPost(body, fault, r)
    {
      if !IsSet(body, "id") {
        return Failed("Task ID required");
      }
      if fault.Some? {
        return Failed(fault.value);
      }
      tasks := UpdateWhere(tasks, Bind(body["id"]), body);
      r := Done("Task updated");
    }

    /** What deleteTask does: it removes the rows with the id the query
        string names, reported as a success whether or not a row existed. */
    twostate predicate DeleteTaskPost(query: Query, fault: Option<string>, r: Response)
      reads this
    {
      && ("id" !in query ==> r == Failed("Task ID required") && unchanged(this))
      && ("id" in query && fault.Some? ==> r == Failed(fault.value) && unchanged(this))
      && ("id" in query && fault.None? ==>
            && r == Done("Task deleted")
            && tasks == DeleteWhere(old(tasks), query["id"])
            && projects == old(projects)
            && nextProjectId == old(nextProjectId) && nextTaskId == old(nextTaskId))
    }

    method DeleteTask(query: Query, fault: Option<string>) returns (r: Response)
      requires Valid()
      modifies this
      ensures Valid()
      ensures DeleteTaskPost(query, fault, r)
    {
      if "id" !in query {
        return Failed("Task ID required");
      }
      if fault.Some? {
        return Failed(fault.value);
      }
      DeleteKeepsIds(tasks, query["id"], nextTaskId);
      tasks := DeleteWhere(tasks, query["id"]);
      r := Done("Task deleted");
    }

    /** One request: route on the action parameter and run its handler,
        with exactly that handler's outcome. The two read actions and the
        default case change nothing. */
    method Handle(query: Query, body: Request, fault: Option<string>) returns (r: Response)
      requires Valid()
      modifies this
      ensures Valid()
      ensures Route(ActionParam(query)).None? ==> r == Failed("Invalid action") && unchanged(this)
      ensures Route(ActionParam(query)) == Some(Action.GetProjects) ==>
        unchanged(this) && GetProjectsPost(fault, r)
      ensures Route(ActionParam(query)) == Some(Action.CreateProject) ==> CreateProjectPost(body, fault, r)
      ensures Route(ActionParam(query)) == Some(Action.GetTasks) ==>
        unchanged(this) && GetTasksPost(query, fault, r)
      ensures Route(ActionParam(query)) == Some(Action.CreateTask) ==> CreateTaskPost(body, fault, r)
      ensures Route(ActionParam(query)) == Some(Action.UpdateTask) ==> UpdateTaskPost(body, fault, r)
      ensures Route(ActionParam(query)) == Some(Action.DeleteTask) ==> DeleteTaskPost(query, fault, r)
    {
      var action := Route(ActionParam(query));
      if action == Some(Action.GetProjects) {
        r := GetProjects(fault);
      } else if action == Some(Action.CreateProject) {
        r := CreateProject(body, fault);
      } else if action == Some(Action.GetTasks) {
        r := GetTasks(query, fault);
      } else if action == Some(Action.CreateTask) {
        r := CreateTask(body, fault);
      } else if action == Some(Action.UpdateTask) {
        r := UpdateTask(body, fault);
      } else if action == Some(Action.DeleteTask) {
        r := DeleteTask(query, fault);
      } else {
        r := Failed("Invalid action");
      }
    }
  }
}
