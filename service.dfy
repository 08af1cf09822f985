/**
 * The task service: a store of task rows keyed by id, the operations that
 * read and change it, and the mapping of a row to the external task.
 */
module Service {
  import opened Wrappers
  import opened Constants
  import opened Entity
  import opened Model
  import opened Repository

  /** Why a service call fails: an unknown id, or a null due date given to `Add`. */
  datatype Error = NotFound(id: int) | MissingDueDate

  /** A string counts as empty when it is null or has length zero. */
  predicate IsEmpty(s: Option<string>) {
    s.None? || |s.value| == 0
  }

  /** The external form read back as a row: the partner of `EntityToObject`. */
  function ObjectToEntity(t: Task): TaskEntity {
    TaskEntity(t.id, t.title, t.description, t.status, Some(t.dueDate), Some(t.createdAt), Some(t.updatedAt))
  }

  /**
   * The field-by-field copy of a row into its external form. It dereferences
   * the due date and both timestamps, so those must be set; no field is
   * lost, since reading the result back gives the row again.
   */
  function EntityToObject(e: TaskEntity): (r: Task)
    requires Mapped(e)
    ensures ObjectToEntity(r) == e
    ensures r.id == e.id && r.title == e.title && r.description == e.description && r.status == e.status
  {
    Task(e.id, e.title, e.description, e.status, e.dueDate.value, e.createdAt.value, e.updatedAt.value)
  }

  /** The stream `map` step: each row mapped to its external form, in order. */
  function ToObjects(es: seq<TaskEntity>): (r: seq<Task>)
    requires forall e :: e in es ==> Mapped(e)
    ensures |r| == |es|
    ensures forall i :: 0 <= i < |es| ==> r[i] == EntityToObject(es[i])
  {
    if es == [] then [] else [EntityToObject(es[0])] + ToObjects(es[1..])
  }

  /** Mapping a concatenation maps each part in turn. */
  lemma ToObjectsAppend(a: seq<TaskEntity>, b: seq<TaskEntity>)
    requires forall e :: e in a ==> Mapped(e)
    requires forall e :: e in b ==> Mapped(e)
    ensures ToObjects(a + b) == ToObjects(a) + ToObjects(b)
  {
  }

  /** Every row is complete and carries its key. */
  ghost predicate StoredTable(t: Table) {
    forall k :: k in t ==> Stored(k, t[k])
  }

  /** Selected rows of a stored table can be mapped. */
  lemma SelectStored(t: Table, q: Query, n: int)
    requires StoredTable(t)
    ensures forall e :: e in Select(t, q, n) ==> Mapped(e)
  {
    SelectSound(t, q, n);
  }

  /**
   * The mapped selection lists each matching row once, in ascending id
   * order, and each listed task reads back as the row stored under its id.
   */
  lemma SelectMapped(t: Table, q: Query, n: int)
    requires StoredTable(t)
    ensures forall e :: e in Select(t, q, n) ==> Mapped(e)
    ensures var r := ToObjects(Select(t, q, n));
      && (forall i :: 0 <= i < |r| ==>
            r[i].id.Some? && r[i].id.value in t && Matches(q, t[r[i].id.value])
            && ObjectToEntity(r[i]) == t[r[i].id.value])
      && (forall k :: k in KeysBelow(t, q, n) ==> EntityToObject(t[k]) in r)
      && (forall i, j :: 0 <= i < j < |r| ==> r[i].id.Some? && r[j].id.Some? && r[i].id.value < r[j].id.value)
      && |r| == |KeysBelow(t, q, n)|
  {
    SelectStored(t, q, n);
    var es := Select(t, q, n);
    var r := ToObjects(es);
    assert forall i :: 0 <= i < |r| ==> r[i].id == es[i].id && ObjectToEntity(r[i]) == es[i];
    assert forall i :: 0 <= i < |r| ==>
      r[i].id.Some? && r[i].id.value in t && Matches(q, t[r[i].id.value])
      && ObjectToEntity(r[i]) == t[r[i].id.value]
    by {
      SelectSound(t, q, n);
      forall i | 0 <= i < |r|
        ensures r[i].id.Some? && r[i].id.value in KeysBelow(t, q, n) && t[r[i].id.value] == es[i]
      {
        assert es[i] in es;
      }
    }
    assert forall k :: k in KeysBelow(t, q, n) ==> EntityToObject(t[k]) in r by {
      SelectComplete(t, q, n);
      forall k | k in KeysBelow(t, q, n)
        ensures EntityToObject(t[k]) in r
      {
        var j :| 0 <= j < |es| && es[j] == t[k];
        assert r[j] == EntityToObject(t[k]);
      }
    }
    assert Ascending(es) by {
      SelectAscending(t, q, n);
    }
    assert |r| == |KeysBelow(t, q, n)| by {
      SelectCount(t, q, n);
    }
  }

  /** A row inserted under a key above every existing key is appended, mapped, to each query it matches. */
  lemma SelectMappedInsert(t: Table, q: Query, n: int, e: TaskEntity)
    requires StoredTable(t) && 0 <= n && Stored(n, e)
    requires forall k :: k in t ==> k < n
    ensures StoredTable(t[n := e])
    ensures forall x :: x in Select(t, q, n) ==> Mapped(x)
    ensures forall x :: x in Select(t[n := e], q, n + 1) ==> Mapped(x)
    ensures ToObjects(Select(t[n := e], q, n + 1))
      == ToObjects(Select(t, q, n)) + (if Matches(q, e) then [EntityToObject(e)] else [])
  {
    SelectInsert(t, q, n, e);
    SelectStored(t, q, n);
    SelectStored(t[n := e], q, n + 1);
    ToObjectsAppend(Select(t, q, n), if Matches(q, e) then [e] else []);
  }

  /** The keys whose rows have status `s`. */
  ghost function StatusKeys(t: Table, s: TaskStatus): set<int> {
    set k | k in t && t[k].status == s
  }

  /** Each key has exactly one status, so the five status key sets split the key set. */
  lemma StatusPartition(t: Table)
    ensures |t.Keys| == |StatusKeys(t, Todo)| + |StatusKeys(t, InProgress)| + |StatusKeys(t, OnHold)|
      + |StatusKeys(t, Completed)| + |StatusKeys(t, Cancelled)|
  {
    var a, b, c := StatusKeys(t, Todo), StatusKeys(t, InProgress), StatusKeys(t, OnHold);
    var d, e := StatusKeys(t, Completed), StatusKeys(t, Cancelled);
    forall k | k in t
      ensures k in a + b + c + d + e
    {
      assert t[k].status in {Todo, InProgress, OnHold, Completed, Cancelled};
    }
    assert t.Keys == a + b + c + d + e;
    assert a !! b;
    assert (a + b) !! c;
    assert (a + b + c) !! d;
    assert (a + b + c + d) !! e;
  }

  class TaskService {
    /** The task table: id to row. */
    var rows: map<int, TaskEntity>
    /** The id the store assigns to the next inserted row. */
    var nextId: int

    /** Every key is below the next id and its row is complete and carries that key. */
    ghost predicate Valid()
      reads this
    {
      0 < nextId &&
      forall k :: k in rows ==> 0 < k < nextId && Stored(k, rows[k])
    }

    /** The keys whose rows satisfy `q`. */
    ghost function MatchingKeys(q: Query): set<int>
      reads this
    {
      set k | k in rows && Matches(q, rows[k])
    }

    /** An empty table; identity values start at 1. */
    constructor ()
      ensures Valid()
      ensures rows == map[] && nextId == 1
    {
      rows := map[];
      nextId := 1;
    }

    /**
     * The repository's save. A row without id is inserted under a fresh id
     * and gets both timestamps; a row with id overwrites the stored row,
     * keeps its creation time and gets a new update time.
     */
    method Save(e: TaskEntity, now: Timestamp) returns (saved: TaskEntity)
      requires Valid()
      requires e.dueDate.Some?
      requires e.id.Some? ==> e.id.value in rows
      modifies this
      ensures Valid()
      ensures e.id.None? ==>
        && saved == e.(id := Some(old(nextId)), createdAt := Some(now), updatedAt := Some(now))
        && old(nextId) !in old(rows)
        && rows == old(rows)[old(nextId) := saved]
        && nextId == old(nextId) + 1
      ensures e.id.Some? ==>
        && saved == e.(createdAt := old(rows)[e.id.value].createdAt, updatedAt := Some(now))
        && rows == old(rows)[e.id.value := saved]
        && nextId == old(nextId)
    {
      if e.id.None? {
        saved := e.(id := Some(nextId), createdAt := Some(now), updatedAt := Some(now));
        rows := rows[nextId := saved];
        nextId := nextId + 1;
      } else {
        var k := e.id.value;
        saved := e.(createdAt := rows[k].createdAt, updatedAt := Some(now));
        rows := rows[k := saved];
      }
    }

    /** The rows satisfying `q`, mapped, in ascending id order, each exactly once. */
    function Find(q: Query): (r: seq<Task>)
      reads this
      requires Valid()
      ensures forall i :: 0 <= i < |r| ==>
        r[i].id.Some? && r[i].id.value in rows && Matches(q, rows[r[i].id.value])
        && ObjectToEntity(r[i]) == rows[r[i].id.value]
      ensures forall k :: k in rows && Matches(q, rows[k]) ==> EntityToObject(rows[k]) in r
      ensures forall i, j :: 0 <= i < j < |r| ==> r[i].id.Some? && r[j].id.Some? && r[i].id.value < r[j].id.value
      ensures |r| == |MatchingKeys(q)|
    {
      SelectMapped(rows, q, nextId);
      assert KeysBelow(rows, q, nextId) == MatchingKeys(q);
      ToObjects(Select(rows, q, nextId))
    }

    /** Every row, mapped: one task per row. */
    function GetAll(): (r: seq<Task>)
      reads this
      requires Valid()
      ensures |r| == |rows|
      ensures forall k :: k in rows ==> EntityToObject(rows[k]) in r
      ensures forall i :: 0 <= i < |r| ==>
        r[i].id.Some? && r[i].id.value in rows && ObjectToEntity(r[i]) == rows[r[i].id.value]
    {
      assert MatchingKeys(All) == rows.Keys by {
        forall k | k in rows
          ensures k in MatchingKeys(All)
        {
          assert Matches(All, rows[k]);
        }
      }
      Find(All)
    }

    /** Exactly the rows whose due date equals `dueDate`, mapped. */
    function GetByDueDate(dueDate: Date): (r: seq<Task>)
      reads this
      requires Valid()
      ensures forall i :: 0 <= i < |r| ==> r[i].dueDate == dueDate
      ensures forall k :: k in rows && rows[k].dueDate == Some(dueDate) ==> EntityToObject(rows[k]) in r
      ensures forall i :: 0 <= i < |r| ==>
        r[i].id.Some? && r[i].id.value in rows && ObjectToEntity(r[i]) == rows[r[i].id.value]
      ensures |r| == |set k | k in rows && rows[k].dueDate == Some(dueDate)|
    {
      assert MatchingKeys(ByDueDate(dueDate)) == set k | k in rows && rows[k].dueDate == Some(dueDate) by {
        forall k | k in rows
          ensures Matches(ByDueDate(dueDate), rows[k]) <==> rows[k].dueDate == Some(dueDate)
        {
        }
      }
      Find(ByDueDate(dueDate))
    }

    /** Exactly the rows whose status equals `status`, mapped. */
    function GetByStatus(status: TaskStatus): (r: seq<Task>)
      reads this
      requires Valid()
      ensures forall i :: 0 <= i < |r| ==> r[i].status == status
      ensures forall k :: k in rows && rows[k].status == status ==> EntityToObject(rows[k]) in r
      ensures forall i :: 0 <= i < |r| ==>
        r[i].id.Some? && r[i].id.value in rows && ObjectToEntity(r[i]) == rows[r[i].id.value]
      ensures |r| == |set k | k in rows && rows[k].status == status|
    {
      assert MatchingKeys(ByStatus(status)) == set k | k in rows && rows[k].status == status by {
        forall k | k in rows
          ensures Matches(ByStatus(status), rows[k]) <==> rows[k].status == status
        {
        }
      }
      Find(ByStatus(status))
    }

    /** The lookup behind every single-task operation: fails exactly when the id is absent. */
    function GetById(id: int): (r: Result<TaskEntity, Error>)
      reads this
      requires Valid()
      ensures r.Success? <==> id in rows
      ensures r.Success? ==> Stored(id, r.value) && r.value == rows[id]
      ensures r.Failure? ==> r.error == NotFound(id)
    {
      if id in rows then Success(rows[id]) else Failure(NotFound(id))
    }

    /** The task under `id`, or a failure when there is none. */
    function GetOne(id: int): (r: Result<Task, Error>)
      reads this
      requires Valid()
      ensures r.Success? <==> id in rows
      ensures r.Success? ==> r.value.id == Some(id) && ObjectToEntity(r.value) == rows[id]
      ensures r.Failure? ==> r.error == NotFound(id)
    {
      var found := GetById(id);
      if found.Failure? then Failure(found.error) else Success(EntityToObject(found.value))
    }

    /**
     * Builds a TODO row from the inputs and saves it once: the store gains
     * exactly one row, under a fresh id, and every earlier row is kept.
     * A null due date makes the date conversion throw before the save.
     */
    method Add(title: Option<string>, description: Option<string>, dueDate: Option<Date>, now: Timestamp)
      returns (r: Result<Task, Error>)
      requires Valid()
      modifies this
      ensures Valid()
      ensures dueDate.None? ==> r == Failure(MissingDueDate) && rows == old(rows) && nextId == old(nextId)
      ensures dueDate.Some? ==>
        && r == Success(Task(Some(old(nextId)), title, description, Todo, dueDate.value, now, now))
        && old(nextId) !in old(rows)
        && rows == old(rows)[old(nextId) := ObjectToEntity(r.value)]
        && |rows| == |old(rows)| + 1
        && nextId == old(nextId) + 1
      ensures dueDate.Some? ==> forall q :: Find(q) == old(Find(q)) + (if Matches(q, rows[old(nextId)]) then [r.value] else [])
    {
      if dueDate.None? {
        return Failure(MissingDueDate);
      }
      ghost var before := rows;
      ghost var n := nextId;
      var e := TaskEntity(None, title, description, Todo, dueDate, None, None);
      var saved := Save(e, now);
      r := Success(EntityToObject(saved));
      forall q
        ensures Find(q) == old(Find(q)) + (if Matches(q, rows[n]) then [r.value] else [])
      {
        SelectMappedInsert(before, q, n, saved);
      }
    }

    /**
     * Partial update of the row under `id`: a null or empty title or
     * description keeps the stored one, a null due date keeps the stored
     * date; id, status and creation time never change; no other row changes.
     */
    method Update(id: int, title: Option<string>, description: Option<string>, dueDate: Option<Date>, now: Timestamp)
      returns (r: Result<Task, Error>)
      requires Valid()
      modifies this
      ensures Valid() && nextId == old(nextId)
      ensures r.Failure? <==> id !in old(rows)
      ensures r.Failure? ==> r.error == NotFound(id) && rows == old(rows)
      ensures r.Success? ==>
        && id in old(rows) && id in rows
        && rows == old(rows)[id := rows[id]]
        && rows[id].id == Some(id)
        && rows[id].status == old(rows)[id].status
        && rows[id].createdAt == old(rows)[id].createdAt
        && rows[id].title == (if IsEmpty(title) then old(rows)[id].title else title)
        && rows[id].description == (if IsEmpty(description) then old(rows)[id].description else description)
        && rows[id].dueDate == (if dueDate.None? then old(rows)[id].dueDate else dueDate)
        && rows[id].updatedAt == Some(now)
        && r.value == EntityToObject(rows[id])
    {
      var found := GetById(id);
      if found.Failure? {
        return Failure(found.error);
      }
      var current := found.value;
      current := current.(title := if IsEmpty(title) then current.title else title);
      current := current.(description := if IsEmpty(description) then current.description else description);
      current := current.(dueDate := if dueDate.None? then current.dueDate else dueDate);
      var updated := Save(current, now);
      r := Success(EntityToObject(updated));
    }

    /**
     * Overwrites the status of the row under `id`, whatever it was before;
     * nothing else of that row, and no other row, changes.
     */
    method UpdateStatus(id: int, status: TaskStatus, now: Timestamp) returns (r: Result<Task, Error>)
      requires Valid()
      modifies this
      ensures Valid() && nextId == old(nextId)
      ensures r.Failure? <==> id !in old(rows)
      ensures r.Failure? ==> r.error == NotFound(id) && rows == old(rows)
      ensures r.Success? ==>
        && id in old(rows)
        && rows == old(rows)[id := old(rows)[id].(status := status, updatedAt := Some(now))]
        && r.value == EntityToObject(rows[id])
      ensures r.Success? ==> r.value in GetByStatus(status) && forall s :: s != status ==> r.value !in GetByStatus(s)
    {
      var found := GetById(id);
      if found.Failure? {
        return Failure(found.error);
      }
      var entity := found.value;
      entity := entity.(status := status);
      var saved := Save(entity, now);
      r := Success(EntityToObject(saved));
    }

    /**
     * Deletes the row under `id`. When the underlying delete raises
     * (`fault`), the error is swallowed: the result is false and the store
     * is unchanged. Otherwise the result is true and the id is gone.
     */
    method Delete(id: int, fault: bool) returns (ok: bool)
      requires Valid()
      modifies this
      ensures Valid() && nextId == old(nextId)
      ensures ok == !fault
      ensures ok ==> rows == old(rows) - {id} && id !in rows
      ensures !ok ==> rows == old(rows)
    {
      if fault {
        return false;
      }
      rows := rows - {id};
      return true;
    }

    /** The five status queries split the store: their sizes add up to the size of `GetAll`. */
    lemma StatusQueriesPartition()
      requires Valid()
      ensures |GetByStatus(Todo)| + |GetByStatus(InProgress)| + |GetByStatus(OnHold)|
        + |GetByStatus(Completed)| + |GetByStatus(Cancelled)| == |GetAll()|
    {
      StatusPartition(rows);
      assert |GetAll()| == |rows.Keys|;
    }

    /** `GetOne` succeeds exactly for the ids `GetAll` lists, and returns the task listed there. */
    lemma GetOneAgreesWithGetAll(id: int)
      requires Valid()
      ensures GetOne(id).Success? <==> exists i :: 0 <= i < |GetAll()| && GetAll()[i].id == Some(id)
      ensures GetOne(id).Success? ==> GetOne(id).value in GetAll()
    {
      if id in rows {
        var all := GetAll();
        var j :| 0 <= j < |all| && all[j] == EntityToObject(rows[id]);
        assert all[j].id == Some(id);
      }
    }
  }

  /**
   * The first task added to an empty store gets id 1, status TODO, the
   * given fields, and both timestamps set to the clock value.
   */
  method AddScenario(title: string, description: string, due: Date, t0: Timestamp) returns (created: Task)
    ensures created == Task(Some(1), Some(title), Some(description), Todo, due, t0, t0)
  {
    var svc := new TaskService();
    var r := svc.Add(Some(title), Some(description), Some(due), t0);
    created := r.value;
  }

  /**
   * After an add, an update with empty title and description and no due
   * date keeps every field but the update time, and a status change then
   * touches only the status and the update time.
   */
  method EditScenario(title: string, description: string, due: Date, t0: Timestamp, t1: Timestamp, t2: Timestamp)
    returns (edited: Task, finished: Task)
    ensures edited == Task(Some(1), Some(title), Some(description), Todo, due, t0, t1)
    ensures finished == edited.(status := Completed, updatedAt := t2)
  {
    var svc := new TaskService();
    var r := svc.Add(Some(title), Some(description), Some(due), t0);
    r := svc.Update(1, Some(""), Some(""), None, t1);
    edited := r.value;
    r := svc.UpdateStatus(1, Completed, t2);
    finished := r.value;
  }
}
