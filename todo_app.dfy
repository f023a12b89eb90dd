/** The user/task service of TodoApp/api.php. The action arrives in the
    JSON body; the handlers run prepared mysqli statements against two
    tables, users and tasks, held here as the fields of a Service. */
module TodoApp {
  import opened Php
  import opened Sql

  datatype User = User(id: int, username: string, email: string, passwordHash: string)

  datatype Task = Task(id: int, userId: int, title: string, description: string,
                       startDate: string, endDate: string, status: string)

  /** A row of `SELECT id, title, description, start_date, end_date, status`. */
  datatype TaskView = TaskView(id: int, title: string, description: string,
                               startDate: string, endDate: string, status: string)

  /** What a successful login reveals of a user; there is no hash in it. */
  datatype PublicUser = PublicUser(id: int, username: string)

  /** The JSON a handler echoes. */
  datatype Response =
    | Failed(message: string)          // status "error" and a message
    | Done(message: string)            // status "success" and a message
    | LoggedIn(user: PublicUser)       // status "success" and the user
    | TaskList(tasks: seq<TaskView>)   // status "success" and the tasks

  /** password_hash(p, PASSWORD_BCRYPT) with the salt it draws, and
      password_verify. Nothing of bcrypt is modelled but Sound. */
  datatype PasswordScheme = PasswordScheme(hash: (string, string) -> string, verify: (string, string) -> bool)

  /** A password verifies against every hash made of it. */
  ghost predicate Sound(scheme: PasswordScheme) {
    forall password, salt :: scheme.verify(password, scheme.hash(password, salt))
  }

  // ------------------------------------------------------------ dispatch

  datatype Action = Register | Login | GetTasks | CreateTask

  function ActionName(a: Action): (name: string)
    ensures IsWord(name)
  {
    match a
    case Register => "register"
    case Login => "login"
    case GetTasks => "get_tasks"
    case CreateTask => "create_task"
  }

  /** The switch on $data['action']: the first case whose label the
      value loosely equals. */
  function Route(v: Value): (a: Option<Action>)
    ensures a.Some? ==> LooseEquals(v, ActionName(a.value))
    ensures a.None? ==> forall c :: !LooseEquals(v, ActionName(c))
  {
    if LooseEquals(v, "register") then Some(Register)
    else if LooseEquals(v, "login") then Some(Login)
    else if LooseEquals(v, "get_tasks") then Some(GetTasks)
    else if LooseEquals(v, "create_task") then Some(CreateTask)
    else None
  }

  /** A string selects the action of its name and any other string none;
      an integer or false selects none; true selects the first case. */
  lemma RouteCases(v: Value)
    ensures v.Str? ==> (Route(v).Some? <==> exists c :: ActionName(c) == v.s)
    ensures v.Str? && Route(v).Some? ==> ActionName(Route(v).value) == v.s
    ensures v.Int? || v == Bool(false) ==> Route(v) == None
    ensures v == Bool(true) ==> Route(v) == Some(Register)
  {
    forall c ensures LooseEquals(v, ActionName(c)) <==> v == Bool(true) || v == Str(ActionName(c)) {
      LooseEqualsWord(v, ActionName(c));
    }
  }

  // --------------------------------------------------------------- users

  /** Some user already has the username or the email:
      `SELECT id FROM users WHERE username=? OR email=?` finds a row. */
  predicate Taken(users: seq<User>, username: string, email: string) {
    exists u :: u in users && (u.username == username || u.email == email)
  }

  /** The row `SELECT id, password_hash FROM users WHERE username=?`
      fetches first. */
  function FindUser(users: seq<User>, username: string): (r: Option<User>)
    ensures r.Some? ==> r.value in users && r.value.username == username
    ensures r.None? ==> forall u :: u in users ==> u.username != username
  {
    if users == [] then None
    else if users[0].username == username then Some(users[0])
    else FindUser(users[1..], username)
  }

  /** login's decision: the fetched id is truthy (not 0) and the password
      verifies against the fetched hash. The user echoed is the fetched
      id with the username as the request gave it. */
  function Authenticate(users: seq<User>, username: string, password: string,
                        verify: (string, string) -> bool): (r: Option<PublicUser>)
    ensures r.Some? ==> r.value.username == username
    ensures r.Some? ==> exists u :: u in users && u.username == username && u.id == r.value.id
                                   && verify(password, u.passwordHash)
  {
    match FindUser(users, username)
    case Some(u) => if u.id != 0 && verify(password, u.passwordHash) then Some(PublicUser(u.id, username)) else None
    case None => None
  }

  /** Ids are positive, distinct and below the counter; usernames and
      emails are each unique, as register keeps them. */
  ghost predicate UsersOk(users: seq<User>, next: int) {
    && 1 <= next
    && (forall i :: 0 <= i < |users| ==> 1 <= users[i].id < next)
    && (forall i, j :: 0 <= i < j < |users| ==>
          users[i].id != users[j].id && users[i].username != users[j].username
          && users[i].email != users[j].email)
  }

  lemma {:induction false} FindUserUnique(users: seq<User>, next: int, u: User)
    requires UsersOk(users, next) && u in users
    ensures FindUser(users, u.username) == Some(u)
  {
    var k :| 0 <= k < |users| && users[k] == u;
    if k > 0 {
      assert users[0].username != u.username;
      var tail := users[1..];
      assert UsersOk(tail, next) by {
        forall i, j | 0 <= i < j < |tail| ensures tail[i].id != tail[j].id && tail[i].username != tail[j].username
                                                 && tail[i].email != tail[j].email {
          assert tail[i] == users[i + 1] && tail[j] == users[j + 1];
        }
      }
      assert tail[k - 1] == u;
      FindUserUnique(tail, next, u);
    }
  }

  /** With usernames unique and ids positive, login succeeds exactly for
      a stored username whose hash the password verifies against, and
      then returns that user's id. */
  lemma AuthenticateIff(users: seq<User>, next: int, username: string, password: string,
                        verify: (string, string) -> bool)
    requires UsersOk(users, next)
    ensures Authenticate(users, username, password, verify).Some? <==>
      exists u :: u in users && u.username == username && verify(password, u.passwordHash)
    ensures forall u :: u in users && u.username == username && verify(password, u.passwordHash) ==>
      Authenticate(users, username, password, verify) == Some(PublicUser(u.id, username))
  {
    forall u | u in users && u.username == username && verify(password, u.passwordHash)
      ensures Authenticate(users, username, password, verify) == Some(PublicUser(u.id, username))
    {
      FindUserUnique(users, next, u);
      var k :| 0 <= k < |users| && users[k] == u;
    }
  }

  lemma {:induction false} FindUserAppend(users: seq<User>, u: User)
    requires forall x :: x in users ==> x.username != u.username
    ensures FindUser(users + [u], u.username) == Some(u)
  {
    if users != [] {
      assert users[0] in users;
      assert (users + [u])[1..] == users[1..] + [u];
      FindUserAppend(users[1..], u);
    } else {
      assert [] + [u] == [u];
    }
  }

  /** After a successful registration, logging in with the same username
      and the plaintext password succeeds and returns the new id. */
  lemma RegisterThenLogin(users: seq<User>, next: int, username: string, email: string,
                          password: string, salt: string, scheme: PasswordScheme)
    requires UsersOk(users, next) && Sound(scheme) && !Taken(users, username, email)
    ensures Authenticate(users + [User(next, username, email, scheme.hash(password, salt))],
                         username, password, scheme.verify) == Some(PublicUser(next, username))
  {
    var u := User(next, username, email, scheme.hash(password, salt));
    FindUserAppend(users, u);
  }

  lemma AppendUserOk(users: seq<User>, next: int, u: User)
    requires UsersOk(users, next) && u.id == next && !Taken(users, u.username, u.email)
    ensures UsersOk(users + [u], next + 1)
  {
    var r := users + [u];
    forall i, j | 0 <= i < j < |r| ensures r[i].id != r[j].id && r[i].username != r[j].username
                                          && r[i].email != r[j].email {
      assert r[i] == users[i];
      if j == |users| {
        assert users[i] in users;
      } else {
        assert r[j] == users[j];
      }
    }
  }

  // --------------------------------------------------------------- tasks

  function View(t: Task): TaskView {
    TaskView(t.id, t.title, t.description, t.startDate, t.endDate, t.status)
  }

  function StartDate(v: TaskView): string {
    v.startDate
  }

  /** Every row of the table, projected to the selected columns. */
  function Views(tasks: seq<Task>): seq<TaskView> {
    if tasks == [] then [] else [View(tasks[0])] + Views(tasks[1..])
  }

  /** The rows of tasks owned by userId, in table order and projected to
      the selected columns: no row more often than the table holds it. */
  function Owned(tasks: seq<Task>, userId: int): (r: seq<TaskView>)
    ensures multiset(r) <= multiset(Views(tasks))
    ensures forall v :: v in r <==> exists t :: t in tasks && t.userId == userId && v == View(t)
  {
    if tasks == [] then []
    else
      assert forall t :: t in tasks <==> t == tasks[0] || t in tasks[1..];
      assert multiset(Views(tasks)) == multiset{View(tasks[0])} + multiset(Views(tasks[1..]));
      (if tasks[0].userId == userId then [View(tasks[0])] else []) + Owned(tasks[1..], userId)
  }

  /** The result set of `... WHERE user_id=? ORDER BY start_date ASC`. */
  function SelectOwned(tasks: seq<Task>, userId: int): seq<TaskView> {
    SortBy(Owned(tasks, userId), StartDate)
  }

  /** The result set holds exactly the owner's tasks, each as often as in
      the table, sorted by start date. */
  lemma SelectOwnedSpec(tasks: seq<Task>, userId: int)
    ensures SortedBy(SelectOwned(tasks, userId), StartDate)
    ensures multiset(SelectOwned(tasks, userId)) == multiset(Owned(tasks, userId))
    ensures forall v :: v in SelectOwned(tasks, userId) <==>
      exists t :: t in tasks && t.userId == userId && v == View(t)
  {
    SortByPermutes(Owned(tasks, userId), StartDate);
    forall v ensures v in SelectOwned(tasks, userId) <==> v in Owned(tasks, userId) {
      assert v in SelectOwned(tasks, userId) <==> v in multiset(SelectOwned(tasks, userId));
      assert v in Owned(tasks, userId) <==> v in multiset(Owned(tasks, userId));
    }
  }

  ghost predicate TasksOk(tasks: seq<Task>, next: int) {
    && 1 <= next
    && (forall i :: 0 <= i < |tasks| ==> 1 <= tasks[i].id < next)
    && (forall i, j :: 0 <= i < j < |tasks| ==> tasks[i].id != tasks[j].id)
  }

  lemma AppendTaskOk(tasks: seq<Task>, next: int, t: Task)
    requires TasksOk(tasks, next) && t.id == next
    ensures TasksOk(tasks + [t], next + 1)
  {
  }

  /** register's required fields. */
  predicate RegisterFieldsSet(body: Request) {
    IsSet(body, "username") && IsSet(body, "email") && IsSet(body, "password")
  }

  /** create_task's required fields. */
  predicate TaskFieldsSet(body: Request) {
    && IsSet(body, "user_id") && IsSet(body, "title") && IsSet(body, "description")
    && IsSet(body, "status") && IsSet(body, "start_date") && IsSet(body, "end_date")
  }

  /** The tables behind TodoApp/api.php and their AUTO_INCREMENT counters.
      `escape` is the connection's real_escape_string, applied to the
      text fields before they are bound; `scheme` is the password
      hashing. Each handler method is one request; `insertOk` is whether
      the store executes the INSERT, and `salt` the salt password_hash
      draws. */
  class Service {
    const escape: string -> string
    const scheme: PasswordScheme
    var users: seq<User>
    var tasks: seq<Task>
    var nextUserId: int
    var nextTaskId: int

    ghost predicate Valid()
      reads this
    {
      Sound(scheme) && UsersOk(users, nextUserId) && TasksOk(tasks, nextTaskId)
    }

    constructor (escape: string -> string, scheme: PasswordScheme)
      requires Sound(scheme)
      ensures Valid()
      ensures this.escape == escape && this.scheme == scheme
      ensures users == [] && tasks == []
    {
      this.escape := escape;
      this.scheme := scheme;
      users, tasks := [], [];
      nextUserId, nextTaskId := 1, 1;
    }

    /** A text field as the handlers bind it: converted to a string and escaped. */
    function Text(body: Request, key: string): string
      reads this
    {
      escape(ToStr(Get(body, key)))
    }

    /** What register does: it stores the hash of the password, never
        the password, and changes nothing when it fails. */
    twostate predicate RegisterPost(body: Request, salt: string, insertOk: bool, r: Response)
      reads this
    {
      && (!RegisterFieldsSet(body) ==> r == Failed("All fields are required!") && unchanged(this))
      && (RegisterFieldsSet(body) && Taken(old(users), Text(body, "username"), Text(body, "email")) ==>
            r == Failed("User already exists!") && unchanged(this))
      && (RegisterFieldsSet(body) && !Taken(old(users), Text(body, "username"), Text(body, "email"))
          && !insertOk ==>
            r == Failed("Registration failed") && unchanged(this))
      && (RegisterFieldsSet(body) && !Taken(old(users), Text(body, "username"), Text(body, "email"))
          && insertOk ==>
            && r == Done("User registered successfully")
            && users == old(users) + [User(old(nextUserId), Text(body, "username"), Text(body, "email"),
                                           scheme.hash(ToStr(body["password"]), salt))]
            && nextUserId == old(nextUserId) + 1
            && tasks == old(tasks) && nextTaskId == old(nextTaskId))
    }

    method Register(body: Request, salt: string, insertOk: bool) returns (r: Response)
      requires Valid()
      modifies this
      ensures Valid()
      ensures RegisterPost(body, salt, insertOk, r)
    {
      if !RegisterFieldsSet(body) {
        return Failed("All fields are required!");
      }
      var username := Text(body, "username");
      var email := Text(body, "email");
      var password := scheme.hash(ToStr(body["password"]), salt);
      if Taken(users, username, email) {
        return Failed("User already exists!");
      }
      if !insertOk {
        return Failed("Registration failed");
      }
      var u := User(nextUserId, username, email, password);
      AppendUserOk(users, nextUserId, u);
      users := users + [u];
      nextUserId := nextUserId + 1;
      r := Done("User registered successfully");
    }

    /** What login answers: unknown user and wrong password give one and
        the same error. */
    ghost predicate LoginPost(body: Request, r: Response)
      reads this
    {
      && (!IsSet(body, "username") || !IsSet(body, "password") ==>
            r == Failed("Username and password are required!"))
      && (IsSet(body, "username") && IsSet(body, "password") ==>
            (r.LoggedIn? <==> exists u :: u in users && u.username == Text(body, "username")
                                         && scheme.verify(ToStr(body["password"]), u.passwordHash)))
      && (IsSet(body, "username") && IsSet(body, "password") && !r.LoggedIn? ==>
            r == Failed("Invalid credentials"))
      && (r.LoggedIn? ==>
            && r.user.username == Text(body, "username")
            && exists u :: u in users && u.id == r.user.id && u.username == r.user.username)
    }

    method Login(body: Request) returns (r: Response)
      requires Valid()
      ensures LoginPost(body, r)
    {
      if !IsSet(body, "username") || !IsSet(body, "password") {
        return Failed("Username and password are required!");
      }
      var username := Text(body, "username");
      var password := ToStr(body["password"]);
      AuthenticateIff(users, nextUserId, username, password, scheme.verify);
      match Authenticate(users, username, password, scheme.verify)
      case Some(u) => r := LoggedIn(u);
      case None => r := Failed("Invalid credentials");
    }

    /** What get_tasks answers: the owner's tasks by start date. */
    ghost predicate GetTasksPost(body: Request, r: Response)
      reads this
    {
      && (!IsSet(body, "user_id") ==> r == Failed("User ID required!"))
      && (IsSet(body, "user_id") ==>
            && r.TaskList?
            && SortedBy(r.tasks, StartDate)
            && multiset(r.tasks) == multiset(Owned(tasks, IntVal(body["user_id"])))
            && forall v :: v in r.tasks <==>
                 exists t :: t in tasks && t.userId == IntVal(body["user_id"]) && v == View(t))
    }

    /** get_tasks, copying the result set row by row. */
    method GetTasks(body: Request) returns (r: Response)
      requires Valid()
      ensures GetTasksPost(body, r)
    {
      if !IsSet(body, "user_id") {
        return Failed("User ID required!");
      }
      var userId := IntVal(body["user_id"]);
      var result := SelectOwned(tasks, userId);
      var fetched: seq<TaskView> := [];
      var i := 0;
      while i < |result|
        invariant 0 <= i <= |result|
        invariant fetched == result[..i]
      {
        fetched := fetched + [result[i]];
        i := i + 1;
      }
      assert fetched == result;
      SelectOwnedSpec(tasks, userId);
      r := TaskList(fetched);
    }

    /** What create_task does: all six fields are required; the owner is
        intval of user_id and is not checked against the users table. */
    twostate predicate CreateTaskPost(body: Request, insertOk: bool, r: Response)
      reads this
    {
      && (!TaskFieldsSet(body) ==>
            r == Failed("All fields are required for creating a task!") && unchanged(this))
      && (TaskFieldsSet(body) && !insertOk ==> r == Failed("Task creation failed") && unchanged(this))
      && (TaskFieldsSet(body) && insertOk ==>
            && r == Done("Task created successfully")
            && tasks == old(tasks) + [Task(old(nextTaskId), IntVal(body["user_id"]), Text(body, "title"),
                                           Text(body, "description"), Text(body, "start_date"),
                                           Text(body, "end_date"), Text(body, "status"))]
            && nextTaskId == old(nextTaskId) + 1
            && users == old(users) && nextUserId == old(nextUserId))
    }

    method CreateTask(body: Request, insertOk: bool) returns (r: Response)
      requires Valid()
      modifies this
      ensures Valid()
      ensures CreateTaskPost(body, insertOk, r)
    {
      if !TaskFieldsSet(body) {
        return Failed("All fields are required for creating a task!");
      }
      if !insertOk {
        return Failed("Task creation failed");
      }
      var t := Task(nextTaskId, IntVal(body["user_id"]), Text(body, "title"), Text(body, "description"),
                    Text(body, "start_date"), Text(body, "end_date"), Text(body, "status"));
      AppendTaskOk(tasks, nextTaskId, t);
      tasks := tasks + [t];
      nextTaskId := nextTaskId + 1;
      r := Done("Task created successfully");
    }

    /** One request: the action must be set, then the switch routes it
        to its handler, with exactly that handler's outcome. */
    method Handle(body: Request, salt: string, insertOk: bool) returns (r: Response)
      requires Valid()
      modifies this
      ensures Valid()
      ensures !IsSet(body, "action") ==> r == Failed("Missing 'action' parameter") && unchanged(this)
      ensures IsSet(body, "action") && Route(body["action"]).None? ==>
        r == Failed("Invalid action") && unchanged(this)
      ensures IsSet(body, "action") && Route(body["action"]) == Some(Action.Register) ==>
        RegisterPost(body, salt, insertOk, r)
      ensures IsSet(body, "action") && Route(body["action"]) == Some(Action.Login) ==>
        unchanged(this) && LoginPost(body, r)
      ensures IsSet(body, "action") && Route(body["action"]) == Some(Action.GetTasks) ==>
        unchanged(this) && GetTasksPost(body, r)
      ensures IsSet(body, "action") && Route(body["action"]) == Some(Action.CreateTask) ==>
        CreateTaskPost(body, insertOk, r)
    {
      if !IsSet(body, "action") {
        return Failed("Missing 'action' parameter");
      }
      var action := Route(body["action"]);
      if action == Some(Action.Register) {
        r := Register(body, salt, insertOk);
      } else if action == Some(Action.Login) {
        r := Login(body);
      } else if action == Some(Action.GetTasks) {
        r := GetTasks(body);
      } else if action == Some(Action.CreateTask) {
        r := CreateTask(body, insertOk);
      } else {
        r := Failed("Invalid action");
      }
    }
  }

  /** A registration followed by a login with the same username and
      password: when the registration succeeds, so does the login, and it
      returns the id the registration handed out. */
  method RegisterAndLogin(s: Service, body: Request, salt: string) returns (reg: Response, login: Response)
    requires s.Valid()
    modifies s
    ensures s.Valid()
    ensures reg == Done("User registered successfully") ==>
      login == LoggedIn(PublicUser(old(s.nextUserId), s.Text(body, "username")))
  {
    ghost var before := s.users;
    ghost var id := s.nextUserId;
    reg := s.Register(body, salt, true);
    login := s.Login(body);
    if reg == Done("User registered successfully") {
      RegisterThenLogin(before, id, s.Text(body, "username"), s.Text(body, "email"),
                        ToStr(body["password"]), salt, s.scheme);
      AuthenticateIff(s.users, s.nextUserId, s.Text(body, "username"), ToStr(body["password"]), s.scheme.verify);
    }
  }
}
