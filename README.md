# A verified model of the TodoApp request handlers

The repository has two independent PHP endpoints over a relational store:

- `project-set/api.php`, the **project/task service**. Its action is the
  query-string parameter `action`. It lists and creates projects. It lists
  tasks joined with their project, optionally filtered by status. It
  creates tasks with defaults, replaces a task by id, and deletes a task by id.
- `TodoApp/api.php`, the **user/task service**. Its action is the `action`
  field of the JSON body. It registers users, logs them in, lists a user's
  tasks by start date, and creates tasks.

The model treats each database table as an in-memory table: a sequence of
rows plus an AUTO_INCREMENT counter, held as fields of a class. Each handler
is a method of that class, and each SQL statement is a table operation
written as a function. A request is the decoded JSON body, a map from key
to `Php.Value`, plus the query string for the first service. A response is
a datatype with one constructor per JSON shape the handler echoes.

The files:

- `php.dfy` (module `Php`) holds the PHP semantics the handlers depend on:
  `isset`, `??`, `trim`, `empty`, string conversion, `intval`, and the loose
  `==` a `switch` performs (PHP 8 rules).
- `sql.dfy` (module `Sql`) holds what the handlers depend on from the store.
  `PDOStatement::execute` binds every parameter as text and null as NULL. A
  text parameter compared with an integer key is read as the integer its
  leading digits spell; "## Left out" names the forms this misses.
  `ORDER BY ... ASC` is a lexicographic order.
- `project_set.dfy` (module `ProjectSet`) is the project/task service, with
  class `Store`.
- `todo_app.dfy` (module `TodoApp`) is the user/task service, with class
  `Service`.

Each handler's outcome is a predicate of its class, such as
`Store.CreateProjectPost` or `Service.LoginPost`. The handler ensures it, and
`Handle` ensures the same predicate for each action the switch routes to that
handler. An action is therefore proved to reach its own handler and no other.

Things the environment decides become parameters:

- A PDO exception is `fault: Option<string>`. Its message is echoed and
  nothing changes.
- A failed mysqli `execute()` is `insertOk == false`.
- The salt `password_hash` draws is `salt`.
- `real_escape_string` is the constant function `Service.escape`.
- `password_hash`/`password_verify` is the constant `Service.scheme`. The
  only thing assumed about it is `Sound`: a password verifies against every
  hash made from it.

In these places the code does something a reader may not expect; the
model follows the code:

- `createProject` checks the trimmed name but stores the name untrimmed.
- `create_task` in the user/task service does not check that the owning
  user exists.
- `update_task` writes NULL for an omitted status or comment.
  `create_task` writes `"pending"` and `""` (`ProjectSet.RewriteVersusCreate`).
- The user/task service catches no store exceptions. It only reports a
  failed `execute()` of an INSERT.
- Under PHP's loose comparison, the body `{"action": true}` selects
  `register` (`TodoApp.RouteCases`).
- The handlers escape text with `real_escape_string` and then also bind it
  as a statement parameter. So the stored username, email and task fields
  are the escaped text. Because login escapes the same way, register and
  login still agree (`TodoApp.RegisterThenLogin`).

No response type has a field for a password hash. The only user data a
response can carry is `PublicUser(id, username)`.

## Model

| member | source | states |
|---|---|---|
| `Php.IsSet` | TodoApp/api.php:11 | definition of `isset($data[key])`: the key is present and its value is not null; its uses are stated through `Php.Get` and `Php.Coalesce` |
| `Php.Get` | project-set/api.php:184-190 | `$data[key]` reads an unset key as null, and a set key as its value |
| `Php.Coalesce` | project-set/api.php:136-140 | `??` gives the value when the key is set and not null, otherwise the default |
| `Php.IsEmpty` | project-set/api.php:62 | definition of `empty()` on a string: true for `""` and `"0"`; its use is stated by `ProjectSet.NameRejectedCases` and `ProjectSet.Store.CreateProject` |
| `Php.ToStr` | TodoApp/api.php:25-27 | definition of PHP's string conversion, applied before `trim`, `real_escape_string`, `password_hash` and PDO binding; its properties are in `Php.IntValOfString`, `Php.IntDecimalRoundTrip` and `Sql.Bind` |
| `Php.TrimStart` | project-set/api.php:62 | the result is the longest suffix that does not start with a trim character; all characters removed are trim characters |
| `Php.TrimEnd` | project-set/api.php:62 | the result is the longest prefix that does not end with a trim character; all characters removed are trim characters |
| `Php.Trim` | project-set/api.php:62 | `trim` is empty exactly when the input is all trim characters; otherwise it neither starts nor ends with one |
| `Php.TrimIsSlice` | project-set/api.php:62 | `trim` is a contiguous slice of the input, with only trim characters before and after it |
| `Php.TrimIsZero` | project-set/api.php:62 | `trim` gives `"0"` exactly when one character is `'0'` and all the others are trim characters |
| `Php.TrimIdempotent` | project-set/api.php:62 | trimming twice equals trimming once |
| `Php.IntDecimalRoundTrip` | TodoApp/api.php:83 | `intval((string)$i) == $i` for every integer |
| `Php.IntVal` | TodoApp/api.php:83 | definition of `intval`; its properties are in `Php.IntValOfString` and `Php.IntDecimalRoundTrip` |
| `Php.IntValOfString` | TodoApp/api.php:105 | `intval` of any value is the integer its string form starts with |
| `Php.LooseEquals` | TodoApp/api.php:18 | definition of PHP 8's loose `==` between the switch value and a case label; its properties are in `Php.LooseEqualsWord`, `TodoApp.Route` and `TodoApp.RouteCases` |
| `Php.LooseEqualsWord` | TodoApp/api.php:18-19 | a switch label made of letters is loosely equal to exactly `true` and the string itself; null, false and integers never equal it |
| `Sql.Bind` | project-set/api.php:133-141 | a bound value is NULL exactly when the PHP value is null; a string binds as itself |
| `Sql.KeyEquals` | project-set/api.php:180 | definition of `id = :id` (also at project-set/api.php:220, and `ON t.project_id = p.id` at project-set/api.php:92): a non-null cell whose leading integer is the key; its properties are in `Sql.KeyEqualsBound`, `ProjectSet.UpdateWhere`, `ProjectSet.DeleteWhere` and `ProjectSet.JoinMembers` |
| `Sql.KeyEqualsBound` | project-set/api.php:180 | `id = :id` matches a bound value exactly when it is non-null and its intval is the id; an integer matches only itself |
| `Sql.LexLe` | TodoApp/api.php:84 | definition of the string comparison behind `ORDER BY start_date ASC` (character by character, a prefix first); it is total and transitive (`Sql.LexLeTotal`, `Sql.LexLeTransitive`), which `Sql.SortByPermutes` uses |
| `Sql.InsertBy` | TodoApp/api.php:84 | inserting into a sorted sequence keeps it sorted and adds exactly one occurrence of the element |
| `Sql.SortBy` | TodoApp/api.php:84 | definition of `ORDER BY key ASC` as an insertion sort; its properties are in `Sql.SortByPermutes` |
| `Sql.SortByPermutes` | TodoApp/api.php:84 | an ORDER BY result is sorted by the key and is a permutation of the selected rows |
| `ProjectSet.ActionParam` | project-set/api.php:7 | definition of `$_GET['action'] ?? ''`; its use is stated by `ProjectSet.MissingActionIsInvalid` and `ProjectSet.Store.Handle` |
| `ProjectSet.Route` | project-set/api.php:10-35 | a name selects the action with that name; a name that no action has selects none |
| `ProjectSet.MissingActionIsInvalid` | project-set/api.php:7-35 | a request without `action` reaches the default case |
| `ProjectSet.NameRejected` | project-set/api.php:62 | definition of the guard: `project_name` is not set, or `empty(trim(...))` holds; its meaning in terms of characters is `ProjectSet.NameRejectedCases`, and `ProjectSet.Store.CreateProject` uses it |
| `ProjectSet.NameRejectedCases` | project-set/api.php:62-68 | a set project name is rejected exactly when it is all trim characters, or when one character is `'0'` and all the others are trim characters |
| `ProjectSet.PaddedZeroRejected` | project-set/api.php:62-68 | the name `" 0 "` is rejected |
| `ProjectSet.PaddedNameAccepted` | project-set/api.php:62-68 | the name `" Alpha "` is accepted |
| `ProjectSet.NewTask` | project-set/api.php:133-141 | the inserted row defaults hours, start_date and end_date to NULL, status to `"pending"` and comment to `""`; fields that are set are used as sent |
| `ProjectSet.Rewrite` | project-set/api.php:172-192 | the update keeps the id; each of the seven columns holds the body's field as bound when it is set, and NULL when it is missing |
| `ProjectSet.RewriteVersusCreate` | project-set/api.php:183-190 | update and create agree when every optional field is set; when status or comment is missing, update writes NULL and create writes the default |
| `ProjectSet.UpdateWhere` | project-set/api.php:172-180 | the length and all ids are kept; every row the key names is rewritten and every other row is unchanged |
| `ProjectSet.UpdateIdempotent` | project-set/api.php:172-192 | applying the same update twice equals applying it once |
| `ProjectSet.DeleteWhere` | project-set/api.php:220-221 | the rows left are exactly the old rows whose id the key does not name, and no row is left more often than it was stored |
| `ProjectSet.DeleteNothing` | project-set/api.php:220-224 | deleting an id no row has leaves the table as it was, order included |
| `ProjectSet.DeleteIdempotent` | project-set/api.php:220-224 | deleting the same id twice equals deleting it once |
| `ProjectSet.DeleteKeepsIds` | project-set/api.php:220-221 | after a delete, ids are still positive, distinct and below the counter |
| `ProjectSet.StatusFilter` | project-set/api.php:95-98 | definition of `isset($_GET['status'])` with the value bound to `:status`; its use is stated by `ProjectSet.Store.GetTasks` (outcome `GetTasksPost`) and `ProjectSet.JoinMembers` |
| `ProjectSet.Passes` | project-set/api.php:96 | definition of `WHERE t.status = :status`: no filter passes every task, a filter passes exactly the tasks whose status equals it; its use is stated by `ProjectSet.JoinMembers` |
| `ProjectSet.Join` | project-set/api.php:92-98 | definition of the JOIN with its optional status filter; its properties are in `ProjectSet.JoinMembers` and `ProjectSet.JoinAtMostOnePerTask` |
| `ProjectSet.JoinMembers` | project-set/api.php:92-102 | a row is in the join exactly when it pairs a task that passes the filter with a project whose id the task's project_id names, extended with that project's name |
| `ProjectSet.JoinAtMostOnePerTask` | project-set/api.php:92 | since project ids are distinct, every task joins at most one project, so the join has no more rows than there are tasks |
| `ProjectSet.Store.GetProjects` | project-set/api.php:42-53 | returns every project row, or the store's error message (its outcome `GetProjectsPost`) |
| `ProjectSet.Store.CreateProject` | project-set/api.php:58-85 | an unset name or an `empty(trim())` name gives "Project name required"; on error nothing changes; on success exactly one row is appended, holding the untrimmed name and a fresh id, and that id is returned (its outcome `CreateProjectPost`) |
| `ProjectSet.Store.GetTasks` | project-set/api.php:90-110 | returns the join, in task order (the store may use any order, see "## Left out"), with only rows of exactly the requested status when one is given; there are at most as many rows as tasks (its outcome `GetTasksPost`) |
| `ProjectSet.Store.CreateTask` | project-set/api.php:115-154 | a missing project_id or task_name gives "Required fields missing"; on error nothing changes; on success one defaulted row is appended under a fresh id, and that id is returned (its outcome `CreateTaskPost`) |
| `ProjectSet.Store.UpdateTask` | project-set/api.php:159-204 | a missing id gives "Task ID required"; otherwise it is a full replace of the matching rows, other rows are unchanged, and the result is "Task updated" even when no row matched (its outcome `UpdateTaskPost`) |
| `ProjectSet.Store.DeleteTask` | project-set/api.php:209-232 | a missing id gives "Task ID required"; otherwise the matching rows are removed and the result is "Task deleted" whether or not a row existed (its outcome `DeleteTaskPost`) |
| `ProjectSet.Store.Handle` | project-set/api.php:7-35 | each of the six actions has exactly the outcome its handler promises (`GetProjectsPost`, `CreateProjectPost`, `GetTasksPost`, `CreateTaskPost`, `UpdateTaskPost`, `DeleteTaskPost`); the two reads change nothing; a missing or unknown action gives exactly "Invalid action" and changes nothing |
| `TodoApp.ActionName` | TodoApp/api.php:19-99 | every case label is a word: not empty and not numeric |
| `TodoApp.Route` | TodoApp/api.php:18-126 | the selected action's label is loosely equal to the value; when no action is selected, no label is |
| `TodoApp.RouteCases` | TodoApp/api.php:18-126 | a string selects the action with that name and nothing else; integers and false select none; true selects register |
| `TodoApp.Sound` | TodoApp/api.php:27 | the single assumption about `password_hash` and `password_verify` (line 69): a password verifies against its own hash; `TodoApp.RegisterThenLogin` and `TodoApp.RegisterAndLogin` rest on it |
| `TodoApp.RegisterFieldsSet` | TodoApp/api.php:20 | definition of register's `isset` guard on username, email and password; its use is stated by `TodoApp.Service.Register` |
| `TodoApp.TaskFieldsSet` | TodoApp/api.php:100 | definition of create_task's `isset` guard on its six fields; its use is stated by `TodoApp.Service.CreateTask` |
| `TodoApp.Service.Text` | TodoApp/api.php:106-110 | definition of `real_escape_string` applied to a body field (also at TodoApp/api.php:25-26 and 59); its use is stated by `TodoApp.Service.Register`, `TodoApp.Service.Login` and `TodoApp.Service.CreateTask` |
| `TodoApp.Taken` | TodoApp/api.php:29-35 | definition of the duplicate check `username=? OR email=?`; it is the guard of `TodoApp.Service.Register` and the precondition of `TodoApp.AppendUserOk` |
| `TodoApp.FindUser` | TodoApp/api.php:62-67 | the fetched row has the username; there is no row only when no user has it |
| `TodoApp.FindUserUnique` | TodoApp/api.php:62-67 | since usernames are unique, the row fetched for a user's username is that user |
| `TodoApp.Authenticate` | TodoApp/api.php:69-70 | a success echoes the requested username and the id of a stored user whose hash the password verifies against |
| `TodoApp.AuthenticateIff` | TodoApp/api.php:62-73 | login succeeds exactly when a user with that username exists and the password verifies against that user's hash, and then it returns that user's id |
| `TodoApp.RegisterThenLogin` | TodoApp/api.php:41-73 | after a successful registration, logging in with the same username and plaintext password returns the new user |
| `TodoApp.AppendUserOk` | TodoApp/api.php:29-46 | inserting a user whose username and email are both untaken keeps ids, usernames and emails unique |
| `TodoApp.Owned` | TodoApp/api.php:84 | a view is selected exactly when it is the projection of a task owned by the user, and no view is selected more often than the table holds it |
| `TodoApp.SelectOwned` | TodoApp/api.php:84 | definition of the owner's result set; its properties are in `TodoApp.SelectOwnedSpec` |
| `TodoApp.SelectOwnedSpec` | TodoApp/api.php:84-93 | the result set is sorted by start_date, is a permutation of the owner's rows, and holds exactly the owner's tasks |
| `TodoApp.Service.Register` | TodoApp/api.php:19-51 | a missing field gives "All fields are required!"; a taken username or email gives "User already exists!"; a failed insert gives "Registration failed"; none of these changes anything; on success exactly one user is appended with `Hash(password)` as its stored hash, and the response has only a message (its outcome `RegisterPost`) |
| `TodoApp.Service.Login` | TodoApp/api.php:53-75 | missing fields give their own error; otherwise login succeeds exactly when a user has that username and the password verifies; every other outcome is the same "Invalid credentials" (its outcome `LoginPost`) |
| `TodoApp.Service.GetTasks` | TodoApp/api.php:77-97 | missing user_id gives "User ID required!"; otherwise the result is exactly the tasks whose owner is `intval(user_id)`, sorted by start_date, copied row by row (its outcome `GetTasksPost`) |
| `TodoApp.Service.CreateTask` | TodoApp/api.php:99-122 | a missing field gives its error with no insert; a failed insert gives "Task creation failed" with no change; on success one row is appended with owner `intval(user_id)` and the escaped text fields (its outcome `CreateTaskPost`) |
| `TodoApp.Service.Handle` | TodoApp/api.php:11-126 | a missing action gives "Missing 'action' parameter" and an unrecognised one "Invalid action", neither changing anything; each of the four actions has exactly the outcome its handler promises (`RegisterPost`, `LoginPost`, `GetTasksPost`, `CreateTaskPost`), and login and get_tasks change nothing |
| `TodoApp.RegisterAndLogin` | TodoApp/api.php:19-75 | when a register request succeeds, a login with the same body returns the id that the registration handed out |

## Left out

- HTTP transport, `header()`, reading `php://input`, and JSON encoding and decoding. A handler takes the decoded body and query string and returns a response value.
- `config.php` (the connection setup) is not part of this model. `TodoApp/db_test.php` is only a connectivity probe.
- Bcrypt internals. `password_hash` and `password_verify` are arbitrary functions that are only assumed `Sound`. So the model cannot prove that a different password fails. Bcrypt can collide, and it truncates passwords at 72 bytes.
- `real_escape_string` is an arbitrary function applied consistently. Its actual escaping rules are not modelled.
- Request values are null, booleans, integers and strings. JSON floats, arrays and objects, and the errors PHP raises when `trim()` or `real_escape_string()` get an array, are not modelled. Query-string values are strings. Array-valued parameters such as `action[]=x` are not modelled.
- Php.IntVal: strings are read as leading whitespace, an optional sign and a run of digits. Exponent forms such as `"1e3"` and saturation at the 64-bit integer bounds are not modelled.
- Sql.KeyEquals: a text parameter is compared with an integer id by its leading integer. MySQL reads the whole numeric prefix, so decimals such as `"3.5"` (which match no integer id) and exponent forms such as `"1e1"` (which MySQL reads as 10) are not modelled.
- Column types and the store's conversions on insert. Rows hold the values as they were bound. A store that rejects a value shows up only as `fault` or `insertOk == false`.
- The collation of the store. String comparisons (usernames, emails, status) are exact, with no case folding.
- `lastInsertId()` returns a string in PDO. Here it is the integer value of the fresh id. AUTO_INCREMENT gaps after a failed insert are not modelled.
- Sql.SortBy orders rows with equal start dates in table order. The store can return them in any order, so the handler contracts promise only "sorted, and a permutation of the owner's rows".
- ProjectSet.Store.GetTasks: the model returns the join in task order (`ProjectSet.Join`). The statement has no ORDER BY, so the store may return the rows in any order, grouped by project for instance. Only the rows and their number are promised by the source. ProjectSet.Store.GetProjects likewise returns the projects in table order, which here is id order, the order a primary-key scan delivers. The source does not promise that order either.
- Failures of the user/task service's SELECT statements (the duplicate check, login and get_tasks), and mysqli exceptions. Only a failed INSERT `execute()` is modelled.
- The "Undefined array key" warnings that `updateTask` emits for missing fields. Concurrent requests, closing statements and connections, and the unused `$method`.
