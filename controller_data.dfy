/**
 * Task assignment in the controller's data hook
 * (src/hooks/useControllerData.tsx): the on-duty officials are filtered
 * out in order, and task `k` is dealt to on-duty official `k mod n`.
 */
module ControllerData {
  import opened Optional
  import opened Types

  const OnDutyStatus: string := "on-duty"

  /** `officials.filter(off => off.status === 'on-duty')`. */
  function OnDuty(officials: seq<Official>): (available: seq<Official>)
    ensures |available| <= |officials|
    ensures forall o :: o in available <==> o in officials && o.status == OnDutyStatus
  {
    if officials == [] then []
    else (if officials[0].status == OnDutyStatus then [officials[0]] else []) + OnDuty(officials[1..])
  }

  /**
   * `availableOfficials[index % availableOfficials.length]?.id || null`:
   * `index % 0` selects no element, and an empty id is falsy.
   */
  function AssigneeFor(available: seq<Official>, k: nat): Option<string>
  {
    if |available| == 0 then None
    else
      var id := available[k % |available|].id;
      if id == "" then None else Some(id)
  }

  /** The tasks query: every task keeps its fields except `assigned_to`. */
  function AssignTasks(officials: seq<Official>, tasks: seq<Task>): (dealt: seq<Task>)
    ensures |dealt| == |tasks|
    ensures forall k :: 0 <= k < |tasks| ==> dealt[k] == tasks[k].(assignedTo := dealt[k].assignedTo)
    ensures OnDuty(officials) == [] ==> forall k :: 0 <= k < |tasks| ==> dealt[k].assignedTo == None
    ensures forall k :: 0 <= k < |tasks| ==> dealt[k].assignedTo == AssigneeFor(OnDuty(officials), k)
  {
    var available := OnDuty(officials);
    seq(|tasks|, k requires 0 <= k < |tasks| => tasks[k].(assignedTo := AssigneeFor(available, k)))
  }

  /** The on-duty filter keeps order: filtering a concatenation concatenates the filtered parts. */
  lemma {:induction false} OnDutyAppend(a: seq<Official>, b: seq<Official>)
    ensures OnDuty(a + b) == OnDuty(a) + OnDuty(b)
  {
    if a == [] {
      assert a + b == b;
    } else {
      assert (a + b)[1..] == a[1..] + b;
      OnDutyAppend(a[1..], b);
    }
  }

  /** Only officials whose status is exactly `on-duty`, and whose id is not empty, are assignees. */
  lemma AssigneesAreOnDuty(officials: seq<Official>, tasks: seq<Task>, k: nat)
    requires k < |tasks|
    requires AssignTasks(officials, tasks)[k].assignedTo.Some?
    ensures exists o :: o in officials && o.status == OnDutyStatus && o.id != ""
                        && o.id == AssignTasks(officials, tasks)[k].assignedTo.value
  {
    var available := OnDuty(officials);
    var o := available[k % |available|];
    assert o in available;
  }

  /** How many of the indices `0 .. m-1` fall on slot `j` of a round of `n`. */
  function SlotCount(m: nat, n: nat, j: nat): nat
    requires n > 0
  {
    if m == 0 then 0
    else SlotCount(m - 1, n, j) + (if (m - 1) % n == j then 1 else 0)
  }

  // ---------------------------------------------------------------------
  // Properties of the round robin
  // ---------------------------------------------------------------------

  lemma {:induction false} MulAtLeast(d: nat, n: nat)
    requires d >= 1
    ensures d * n >= n
  {
    if d > 1 {
      MulAtLeast(d - 1, n);
      assert d * n == (d - 1) * n + n;
    }
  }

  lemma DivModParts(m: nat, n: nat)
    requires n > 0
    ensures m == (m / n) * n + m % n && m % n < n
  {
  }

  lemma MulSucc(q: nat, n: nat)
    ensures (q + 1) * n == q * n + n
  {
  }

  /** Index `k + n` lands on the same slot as `k`. */
  lemma ModPeriodic(k: nat, n: nat)
    requires n > 0
    ensures (k + n) % n == k % n
  {
    DivModParts(k, n);
    MulSucc(k / n, n);
    DivModUnique(k + n, n, k / n + 1, k % n);
  }

  lemma DivModUnique(m: nat, n: nat, q: nat, r: nat)
    requires n > 0 && r < n && m == q * n + r
    ensures m / n == q && m % n == r
  {
    var q', r' := m / n, m % n;
    assert m == q' * n + r';
    if q' < q {
      MulAtLeast(q - q', n);
    } else if q' > q {
      MulAtLeast(q' - q, n);
    }
  }

  lemma AssigneePeriodic(available: seq<Official>, k: nat)
    requires |available| > 0
    ensures AssigneeFor(available, k + |available|) == AssigneeFor(available, k)
  {
    ModPeriodic(k, |available|);
  }

  /** With distinct non-empty ids, task `k` goes to on-duty official `j` exactly when `k mod n == j`. */
  lemma AssigneeIsSlot(available: seq<Official>, k: nat, j: nat)
    requires j < |available| && available[j].id != ""
    requires forall a, b :: 0 <= a < b < |available| ==> available[a].id != available[b].id
    ensures AssigneeFor(available, k) == Some(available[j].id) <==> k % |available| == j
  {
  }

  /** Tasks `k` and `k + n` go to the same official. */
  lemma {:induction false} RoundRobinPeriodic(officials: seq<Official>, tasks: seq<Task>, k: nat)
    requires |OnDuty(officials)| > 0
    requires k + |OnDuty(officials)| < |tasks|
    ensures AssignTasks(officials, tasks)[k].assignedTo
         == AssignTasks(officials, tasks)[k + |OnDuty(officials)|].assignedTo
  {
    AssigneePeriodic(OnDuty(officials), k);
  }

  /** How `m / n` and `m % n` move when `m` grows by one. */
  lemma DivModStep(m: nat, n: nat)
    requires n > 0 && m > 0
    ensures (m - 1) % n + 1 < n ==> m / n == (m - 1) / n && m % n == (m - 1) % n + 1
    ensures (m - 1) % n + 1 == n ==> m / n == (m - 1) / n + 1 && m % n == 0
  {
    var q, r := (m - 1) / n, (m - 1) % n;
    DivModParts(m - 1, n);
    MulSucc(q, n);
    if r + 1 < n {
      DivModUnique(m, n, q, r + 1);
    } else {
      DivModUnique(m, n, q + 1, 0);
    }
  }

  /** Slot `j` of the first `m` indices is hit `m / n` times, plus one for the first `m % n` slots. */
  lemma {:induction false} SlotCountFormula(m: nat, n: nat, j: nat)
    requires j < n
    ensures SlotCount(m, n, j) == m / n + (if j < m % n then 1 else 0)
  {
    if m > 0 {
      SlotCountFormula(m - 1, n, j);
      DivModParts(m - 1, n);
      DivModStep(m, n);
    }
  }

  /** Task counts of any two on-duty slots differ by at most one. */
  lemma RoundRobinBalanced(m: nat, n: nat, j1: nat, j2: nat)
    requires j1 < n && j2 < n
    ensures SlotCount(m, n, j1) <= SlotCount(m, n, j2) + 1
  {
    SlotCountFormula(m, n, j1);
    SlotCountFormula(m, n, j2);
  }
}
