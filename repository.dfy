/**
 * The task table behind the repository: a map from id to row. The three
 * list queries of the repository (find all, find by due date, find by
 * status) are one selection, `Select`, over keys in ascending order.
 */
module Repository {
  import opened Wrappers
  import opened Constants
  import opened Entity

  type Table = map<int, TaskEntity>

  /** The filter a list query applies to each row. */
  datatype Query = All | ByDueDate(date: Date) | ByStatus(status: TaskStatus)

  /** Exact match: equal due date, equal status, or every row. */
  predicate Matches(q: Query, e: TaskEntity) {
    match q
    case All => true
    case ByDueDate(d) => e.dueDate == Some(d)
    case ByStatus(s) => e.status == s
  }

  /** Every row carries its own key as its id. */
  predicate WellKeyed(t: Table) {
    forall k :: k in t ==> t[k].id == Some(k)
  }

  /** The keys in [0, n) whose rows satisfy `q`. */
  ghost function KeysBelow(t: Table, q: Query, n: int): set<int> {
    set k | k in t && 0 <= k < n && Matches(q, t[k])
  }

  /** The ids are strictly increasing along `es`. */
  ghost predicate Ascending(es: seq<TaskEntity>) {
    forall i, j :: 0 <= i < j < |es| ==> es[i].id.Some? && es[j].id.Some? && es[i].id.value < es[j].id.value
  }

  /** The rows under keys in [0, n) that satisfy `q`, in ascending key order. */
  function Select(t: Table, q: Query, n: int): (r: seq<TaskEntity>)
    ensures forall i :: 0 <= i < |r| ==> r[i] in t.Values && Matches(q, r[i])
    ensures |r| <= if n <= 0 then 0 else n
    decreases n
  {
    if n <= 0 then []
    else Select(t, q, n - 1) + (if n - 1 in t && Matches(q, t[n - 1]) then [t[n - 1]] else [])
  }

  /** Every selected row is a row of the table, under a key below `n`, that satisfies the filter. */
  lemma {:induction false} SelectSound(t: Table, q: Query, n: int)
    requires WellKeyed(t)
    ensures forall e :: e in Select(t, q, n) ==>
      e.id.Some? && e.id.value in KeysBelow(t, q, n) && t[e.id.value] == e
  {
    if n > 0 {
      SelectSound(t, q, n - 1);
    }
  }

  /** Every row under a key below `n` that satisfies the filter is selected. */
  lemma {:induction false} SelectComplete(t: Table, q: Query, n: int)
    ensures forall k :: k in KeysBelow(t, q, n) ==> t[k] in Select(t, q, n)
  {
    if n > 0 {
      SelectComplete(t, q, n - 1);
      forall k | k in KeysBelow(t, q, n)
        ensures t[k] in Select(t, q, n)
      {
        if k < n - 1 {
          assert k in KeysBelow(t, q, n - 1);
        }
      }
    }
  }

  /** The selection lists rows in strictly ascending id order, so no row twice. */
  lemma {:induction false} SelectAscending(t: Table, q: Query, n: int)
    requires WellKeyed(t)
    ensures Ascending(Select(t, q, n))
  {
    if n > 0 {
      SelectAscending(t, q, n - 1);
      SelectSound(t, q, n - 1);
      var prefix := Select(t, q, n - 1);
      if n - 1 in t && Matches(q, t[n - 1]) {
        var r := Select(t, q, n);
        forall i, j | 0 <= i < j < |r|
          ensures r[i].id.Some? && r[j].id.Some? && r[i].id.value < r[j].id.value
        {
          if j == |prefix| {
            assert r[i] == prefix[i] && prefix[i] in prefix;
          } else {
            assert r[i] == prefix[i] && r[j] == prefix[j];
          }
        }
      }
    }
  }

  /** The selection has exactly one row per matching key. */
  lemma {:induction false} SelectCount(t: Table, q: Query, n: int)
    ensures |Select(t, q, n)| == |KeysBelow(t, q, n)|
  {
    if n <= 0 {
      assert KeysBelow(t, q, n) == {};
    } else {
      SelectCount(t, q, n - 1);
      if n - 1 in t && Matches(q, t[n - 1]) {
        assert KeysBelow(t, q, n) == KeysBelow(t, q, n - 1) + {n - 1};
      } else {
        assert KeysBelow(t, q, n) == KeysBelow(t, q, n - 1);
      }
    }
  }

  /** The selection below `n` depends only on the rows under keys below `n`. */
  lemma {:induction false} SelectAgree(t1: Table, t2: Table, q: Query, n: int)
    requires forall k :: 0 <= k < n ==> (k in t1 <==> k in t2)
    requires forall k :: 0 <= k < n && k in t1 ==> t1[k] == t2[k]
    ensures Select(t1, q, n) == Select(t2, q, n)
  {
    if n > 0 {
      SelectAgree(t1, t2, q, n - 1);
    }
  }

  /** Inserting a row under a key above every existing key appends it to each selection it matches. */
  lemma SelectInsert(t: Table, q: Query, n: int, e: TaskEntity)
    requires 0 <= n
    requires forall k :: k in t ==> k < n
    ensures Select(t[n := e], q, n + 1) == Select(t, q, n) + (if Matches(q, e) then [e] else [])
  {
    SelectAgree(t[n := e], t, q, n);
  }
}
