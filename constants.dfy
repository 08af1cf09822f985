/** The task lifecycle status (package `constants`). */
module Constants {

  /** The five statuses of a task. No transition table exists: any status may follow any other. */
  datatype TaskStatus = Todo | InProgress | OnHold | Completed | Cancelled

  /** The statuses in declaration order, as the enum's `values()` lists them. */
  function AllStatuses(): (r: seq<TaskStatus>)
    ensures |r| == 5
    ensures forall s: TaskStatus :: s in r
    ensures forall i, j :: 0 <= i < j < |r| ==> r[i] != r[j]
  {
    var r := [Todo, InProgress, OnHold, Completed, Cancelled];
    assert forall s: TaskStatus :: s in r by {
      forall s: TaskStatus
        ensures s in r
      {
        assert s == r[0] || s == r[1] || s == r[2] || s == r[3] || s == r[4];
      }
    }
    r
  }
}
