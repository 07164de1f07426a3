/**
 * The task list (src/components/TasksList.tsx): the progress value and
 * badge variant shown for a task status, and the tasks shown for an
 * official.
 */
module TasksList {
  import opened Optional
  import opened Types
  import ControllerData

  /** `getProgressValue`: 0, 50 or 100 along pending, in-progress, completed; 0 otherwise. */
  function GetProgressValue(status: string): (progress: nat)
    ensures progress == 0 || progress == 50 || progress == 100
    ensures progress == 50 <==> status == "in-progress"
    ensures progress == 100 <==> status == "completed"
  {
    match status
    case "pending" => 0
    case "in-progress" => 50
    case "completed" => 100
    case _ => 0
  }

  datatype BadgeVariant = Destructive | Default | Secondary

  /** `getBadgeVariant`: destructive for pending, secondary for completed, default otherwise. */
  function GetBadgeVariant(status: string): (variant: BadgeVariant)
    ensures variant == Destructive <==> status == "pending"
    ensures variant == Secondary <==> status == "completed"
  {
    match status
    case "pending" => Destructive
    case "in-progress" => Default
    case "completed" => Secondary
    case _ => Default
  }

  /** `tasks.filter(task => task.assigned_to === officialId)`. */
  function AssignedTo(tasks: seq<Task>, officialId: string): (mine: seq<Task>)
    ensures |mine| <= |tasks|
    ensures forall t :: t in mine <==> t in tasks && t.assignedTo == Some(officialId)
  {
    if tasks == [] then []
    else (if tasks[0].assignedTo == Some(officialId) then [tasks[0]] else []) + AssignedTo(tasks[1..], officialId)
  }

  /** `filteredTasks`: the official's own tasks when `officialId` is truthy, all tasks otherwise. */
  function FilteredTasks(tasks: seq<Task>, officialId: Option<string>): (shown: seq<Task>)
    ensures officialId == None || officialId == Some("") ==> shown == tasks
    ensures officialId.Some? && officialId.value != "" ==>
      forall t :: t in shown <==> t in tasks && t.assignedTo == officialId
  {
    if officialId.Some? && officialId.value != "" then AssignedTo(tasks, officialId.value) else tasks
  }

  // ---------------------------------------------------------------------
  // Properties
  // ---------------------------------------------------------------------

  /** Progress is monotone along pending, in-progress, completed. */
  lemma ProgressMonotone()
    ensures GetProgressValue("pending") <= GetProgressValue("in-progress") <= GetProgressValue("completed")
  {
  }

  /** The badge and the progress bar agree: secondary exactly when complete, destructive only at zero. */
  lemma BadgeAgreesWithProgress(status: string)
    ensures GetBadgeVariant(status) == Secondary <==> GetProgressValue(status) == 100
    ensures GetBadgeVariant(status) == Destructive ==> GetProgressValue(status) == 0
  {
  }

  /** Filtering keeps the order: filtering a concatenation concatenates the filtered parts. */
  lemma {:induction false} AssignedToAppend(a: seq<Task>, b: seq<Task>, officialId: string)
    ensures AssignedTo(a + b, officialId) == AssignedTo(a, officialId) + AssignedTo(b, officialId)
  {
    if a != [] {
      assert (a + b)[1..] == a[1..] + b;
      AssignedToAppend(a[1..], b, officialId);
    } else {
      assert a + b == b;
    }
  }

  /** Filtering again by the same id changes nothing. */
  lemma {:induction false} AssignedToIdempotent(tasks: seq<Task>, officialId: string)
    ensures AssignedTo(AssignedTo(tasks, officialId), officialId) == AssignedTo(tasks, officialId)
  {
    if tasks != [] {
      AssignedToIdempotent(tasks[1..], officialId);
      var head := if tasks[0].assignedTo == Some(officialId) then [tasks[0]] else [];
      AssignedToAppend(head, AssignedTo(tasks[1..], officialId), officialId);
      if head != [] {
        assert AssignedTo(head, officialId) == head by {
          assert head[1..] == [];
        }
      }
    }
  }

  lemma FilteredTasksIdempotent(tasks: seq<Task>, officialId: Option<string>)
    ensures FilteredTasks(FilteredTasks(tasks, officialId), officialId) == FilteredTasks(tasks, officialId)
  {
    if officialId.Some? && officialId.value != "" {
      AssignedToIdempotent(tasks, officialId.value);
    }
  }

  lemma AssignedToSingle(t: Task, officialId: string)
    ensures AssignedTo([t], officialId) == if t.assignedTo == Some(officialId) then [t] else []
  {
    assert [t][1..] == [];
  }

  /** Counting the first `m` dealt tasks that carry `id`, when those are exactly the ones on slot `j`. */
  lemma {:induction false} ShareOfPrefix(dealt: seq<Task>, id: string, n: nat, j: nat, m: nat)
    requires n > 0 && m <= |dealt|
    requires forall k :: 0 <= k < |dealt| ==> (dealt[k].assignedTo == Some(id) <==> k % n == j)
    ensures |AssignedTo(dealt[..m], id)| == ControllerData.SlotCount(m, n, j)
  {
    if m > 0 {
      ShareOfPrefix(dealt, id, n, j, m - 1);
      assert dealt[..m] == dealt[..m - 1] + [dealt[m - 1]];
      AssignedToAppend(dealt[..m - 1], [dealt[m - 1]], id);
      AssignedToSingle(dealt[m - 1], id);
    }
  }

  /**
   * The list an on-duty official sees holds their round-robin share of the
   * tasks: one task per round of `n`, plus one more for the first slots.
   */
  lemma OfficialSeesRoundRobinShare(officials: seq<Official>, tasks: seq<Task>, j: nat)
    requires j < |ControllerData.OnDuty(officials)|
    requires ControllerData.OnDuty(officials)[j].id != ""
    requires forall a, b :: 0 <= a < b < |ControllerData.OnDuty(officials)| ==>
      ControllerData.OnDuty(officials)[a].id != ControllerData.OnDuty(officials)[b].id
    ensures |FilteredTasks(ControllerData.AssignTasks(officials, tasks), Some(ControllerData.OnDuty(officials)[j].id))|
         == ControllerData.SlotCount(|tasks|, |ControllerData.OnDuty(officials)|, j)
  {
    var available := ControllerData.OnDuty(officials);
    var dealt := ControllerData.AssignTasks(officials, tasks);
    var id := available[j].id;
    forall k | 0 <= k < |dealt|
      ensures dealt[k].assignedTo == Some(id) <==> k % |available| == j
    {
      ControllerData.AssigneeIsSlot(available, k, j);
    }
    ShareOfPrefix(dealt, id, |available|, j, |tasks|);
    assert dealt[..|tasks|] == dealt;
  }

  /** The lists two on-duty officials see differ in length by at most one task. */
  lemma TasksPerOfficialBalanced(officials: seq<Official>, tasks: seq<Task>, j1: nat, j2: nat)
    requires j1 < |ControllerData.OnDuty(officials)| && j2 < |ControllerData.OnDuty(officials)|
    requires ControllerData.OnDuty(officials)[j1].id != "" && ControllerData.OnDuty(officials)[j2].id != ""
    requires forall a, b :: 0 <= a < b < |ControllerData.OnDuty(officials)| ==>
      ControllerData.OnDuty(officials)[a].id != ControllerData.OnDuty(officials)[b].id
    ensures |FilteredTasks(ControllerData.AssignTasks(officials, tasks), Some(ControllerData.OnDuty(officials)[j1].id))|
         <= |FilteredTasks(ControllerData.AssignTasks(officials, tasks), Some(ControllerData.OnDuty(officials)[j2].id))| + 1
  {
    OfficialSeesRoundRobinShare(officials, tasks, j1);
    OfficialSeesRoundRobinShare(officials, tasks, j2);
    ControllerData.RoundRobinBalanced(|tasks|, |ControllerData.OnDuty(officials)|, j1, j2);
  }
}
