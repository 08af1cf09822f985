# Task service model

A Dafny model of the service layer of a small to-do HTTP server. The service
keeps task records in a table keyed by id and offers: add a task (its status
is always TODO), list all tasks, list tasks by due date or by status, fetch
one task, partially update a task, change only its status, and delete it.
Each record is mapped to an external task shape before it is returned.

The model is organised as the program is:

- `Constants` (`constants.dfy`): the five-valued `TaskStatus`.
- `Entity` (`entity.dfy`): the persisted row `TaskEntity`. The id,
  title, description, due date and timestamps may be null in Java and are
  `Option`s here. The status is a nullable reference in Java too, but the
  model gives it the plain type `TaskStatus` (see "Left out"). Dates and
  timestamps are abstract values.
- `Model` (`model.dfy`): the external `Task` shape. The class
  `com.example.todo_server.model.Task` is not part of this model; its
  fields are the ones the service's builder sets.
- `Repository` (`repository.dfy`): the task table as `map<int, TaskEntity>`.
  The three list queries are one selection, `Select`, which returns matching
  rows in ascending id order. Its lemmas show that it is sound and complete,
  that it lists each row once, and that a new row under a larger id is appended.
- `Service` (`service.dfy`): the pure mapping `EntityToObject` with its
  inverse `ObjectToEntity`, and the class `TaskService`. The class has the
  table (`rows`) and the next identity value (`nextId`) as fields.
  `Valid()` is its invariant: every key is positive and below `nextId`, and
  every row carries its own key and has its due date and both timestamps set.
  The state-changing operations are methods with `modifies this`. The list
  queries and the lookups are functions that read the table.

Things the service gets from outside become parameters:
- the clock is a `now: Timestamp` argument to every write;
- the failure of the underlying delete is a `fault: bool` argument.

The repository's `save` is modelled as `TaskService.Save`. On a row with
no id, the store assigns the next id and stamps both timestamps. On a row
with an id, it keeps the stored creation time (the column is not updatable)
and stamps a new update time.

Two points follow the code's types rather than the HTTP surface:
- `add` takes a date value, not a date string. A null date makes the
  date conversion throw before anything is saved; the model returns
  `Failure(MissingDueDate)` and leaves the store unchanged.
- `getByDueDate` is modelled on a date value.

## Model

| member | source | states |
|---|---|---|
| Constants.AllStatuses | src/main/java/com/example/todo_server/constants/TaskStatus.java:3-10 | exactly five statuses, each listed once, every status among them |
| Repository.Select | src/main/java/com/example/todo_server/service/TaskService.java:42-56 | the repository's findAll, findAllByDueDate and findAllByStatus as one selection: every returned row is a row of the table and satisfies the filter, and there are at most as many as keys below the bound |
| Repository.Matches | src/main/java/com/example/todo_server/service/TaskService.java:49-56 | the exact-match filter of the three list queries: every row, an equal due date, or an equal status |
| Repository.SelectSound | src/main/java/com/example/todo_server/service/TaskService.java:41-59 | every row a list query returns is stored under its own id, below the bound, and satisfies the filter |
| Repository.SelectComplete | src/main/java/com/example/todo_server/service/TaskService.java:41-59 | every stored row that satisfies the filter is returned |
| Repository.SelectAscending | src/main/java/com/example/todo_server/service/TaskService.java:41-44 | returned rows are in strictly ascending id order, so no row appears twice |
| Repository.SelectCount | src/main/java/com/example/todo_server/service/TaskService.java:41-59 | a query returns exactly as many rows as there are matching keys |
| Repository.SelectAgree | src/main/java/com/example/todo_server/service/TaskService.java:41-44 | a query below a bound depends only on the rows under keys below that bound |
| Repository.SelectInsert | src/main/java/com/example/todo_server/service/TaskService.java:36 | a row inserted under a key above every existing key is appended to each query it matches, and the rest of the result is unchanged |
| Service.IsEmpty | src/main/java/com/example/todo_server/service/TaskService.java:73-75 | the emptiness test the update uses to keep or overwrite a title or description: null or of length zero |
| Service.EntityToObject | src/main/java/com/example/todo_server/service/TaskService.java:114-126 | copies id, title, description and status unchanged; needs the due date and both timestamps set; loses nothing, since reading the task back gives the row |
| Service.ToObjects | src/main/java/com/example/todo_server/service/TaskService.java:42-44 | maps each row, in order, to its external form |
| Service.ToObjectsAppend | src/main/java/com/example/todo_server/service/TaskService.java:42-44 | mapping distributes over concatenation |
| Service.SelectMapped | src/main/java/com/example/todo_server/service/TaskService.java:41-59 | a mapped query lists each matching row once, in ascending id order, and each task reads back as the row stored under its id |
| Service.SelectStored | src/main/java/com/example/todo_server/service/TaskService.java:114-126 | every row a query returns from a well-formed table has the fields the mapping dereferences |
| Service.SelectMappedInsert | src/main/java/com/example/todo_server/service/TaskService.java:36-37 | after an insert under a key above every existing key, each mapped query is the old one plus the new task when it matches |
| Service.StatusPartition | src/main/java/com/example/todo_server/constants/TaskStatus.java:3-10 | every key has exactly one of the five statuses, so the five status key sets split the table |
| Service.TaskService.Save | src/main/java/com/example/todo_server/persist/entity/TaskEntity.java:25-44 | insert assigns the fresh id and stamps both timestamps; update overwrites the row under its id, keeps the stored creation time and stamps the update time; requires a due date, and for an update an id already in the table |
| Service.TaskService.Find | src/main/java/com/example/todo_server/service/TaskService.java:41-59 | exactly the rows matching the filter, mapped, each once, in ascending id order |
| Service.TaskService.GetAll | src/main/java/com/example/todo_server/service/TaskService.java:41-45 | one mapped task per stored row, and every listed task is a stored row |
| Service.TaskService.GetByDueDate | src/main/java/com/example/todo_server/service/TaskService.java:48-52 | exactly the rows whose due date equals the argument, mapped, counted once each |
| Service.TaskService.GetByStatus | src/main/java/com/example/todo_server/service/TaskService.java:55-59 | exactly the rows whose status equals the argument, mapped, counted once each |
| Service.TaskService.GetById | src/main/java/com/example/todo_server/service/TaskService.java:108-112 | succeeds with the stored row exactly when the id is present, otherwise fails with NotFound for that id |
| Service.TaskService.GetOne | src/main/java/com/example/todo_server/service/TaskService.java:62-65 | succeeds exactly when the id is present, with that row's external form; otherwise NotFound |
| Service.TaskService.Add | src/main/java/com/example/todo_server/service/TaskService.java:27-38 | status forced to TODO; title, description and due date as given; the fresh id; one more row, every earlier row unchanged; every query gains the new task at its end when it matches; a null due date fails and changes nothing |
| Service.TaskService.Update | src/main/java/com/example/todo_server/service/TaskService.java:68-81 | a null or empty title or description keeps the stored one, otherwise stores the given one; a null due date keeps the stored date; id, status and creation time unchanged; no other row changes; an absent id fails with NotFound and changes nothing |
| Service.TaskService.UpdateStatus | src/main/java/com/example/todo_server/service/TaskService.java:84-91 | sets the status to any given value whatever it was; no other field and no other row changes; the task then appears under its new status and under no other; an absent id fails with NotFound and changes nothing |
| Service.TaskService.Delete | src/main/java/com/example/todo_server/service/TaskService.java:94-105 | true exactly when the underlying delete does not raise, and then the id is gone and nothing else changes; on a raise the result is false and the store is unchanged |
| Service.TaskService.StatusQueriesPartition | src/main/java/com/example/todo_server/service/TaskService.java:55-59 | the sizes of the five status queries add up to the size of the full list |
| Service.TaskService.GetOneAgreesWithGetAll | src/main/java/com/example/todo_server/service/TaskService.java:62-65 | fetching one task succeeds exactly for the ids that the full list contains, and returns the listed task |
| Service.AddScenario | src/test/java/com/example/todo_server/service/TaskServiceTest.java:37-68 | the first task added to an empty store gets id 1, status TODO, the given title, description and due date, and both timestamps set |
| Service.EditScenario | src/main/java/com/example/todo_server/service/TaskService.java:68-91 | after an add, an update with empty title and description and no due date keeps every field but the update time (lines 73-77); a status change then touches only the status and the update time (line 87) |

## Left out

- HTTP routing, request binding and response wrapping in `TaskContoller.java`: framework code with no logic beyond choosing `getByDueDate` or `getAll`. Its listing of all statuses is represented only by `AllStatuses`.
- Text and calendar conversions (`Date.valueOf`, `Date.toString`, `Timestamp.toLocalDateTime`): library code. Dates and timestamps stay abstract values, so a malformed date string given to `getByDueDate` is not modelled.
- The order in which the database returns rows is not specified by the code. The model lists rows in ascending id order, which is insertion order because ids increase.
- Timestamps come from a clock parameter. The model does not require successive clock values to increase, so "creation time is not after update time" is not tracked.
- Service.TaskService.Delete: the reason the repository's delete raises (for instance on an absent id) cannot be seen; it is the `fault` parameter.
- Service.TaskService.Save: two cases are excluded by its preconditions, and the service never reaches either. Saving a row whose id is not in the table (a merge that would insert) is one. Saving a row without a due date is the other: `add` fails before the save when the date is null, and `update` keeps the stored date.
- A null status is not modelled. The source accepts one: a status-change request without a status passes null to `updateStatus`, which stores it, and `entityToObject` copies it without dereferencing it. The model rules this out by giving the status the type `TaskStatus`. Two results depend on that: `StatusQueriesPartition` (a row with null status is listed by `getAll` but by no status query) and the clause of `UpdateStatus` saying the task appears under its new status.
- A null id given to any operation is not modelled: ids are plain integers here.
- The entity setters in `update` and `updateStatus` are modelled on values: the fetched row is changed as a record and written back by `Save`. Sharing of one managed entity object between the persistence context and the caller is not captured.
- Identity generation strategy, dynamic insert and update, and enum-as-text column storage: persistence details. An id is the next value of a counter starting at 1, with no 64-bit overflow.
- Logging, exception classes and messages: only the failure kind (`NotFound`, `MissingDueDate`) is kept.
- Test scaffolding with mocks in `TaskServiceTest.java`.
