/** The active employee id and the pure part of each editing handler.
    Reads go through the resolved active employee (the record the active id
    names, else the first); writes go through the raw active id, so a stale
    active id makes every goal edit a no-op. */
module Actions {
  import opened Records

  // ---------------------------------------------------------------------
  // Resolving the active id

  /** `employees.find(e => e.id === ptr)`, as an index: the first employee
      the active id names, or |emps| when it names none. */
  function MatchIndex(emps: seq<Employee>, ptr: Option<Id>): (k: nat)
    ensures k <= |emps|
    ensures k < |emps| ==> ptr == Some(emps[k].id)
    ensures forall j :: 0 <= j < k ==> ptr != Some(emps[j].id)
  {
    if emps == [] then 0
    else if ptr == Some(emps[0].id) then 0
    else 1 + MatchIndex(emps[1..], ptr)
  }

  /** Whether the active id names some employee of the list. */
  predicate Names(emps: seq<Employee>, ptr: Option<Id>) {
    exists e :: e in emps && ptr == Some(e.id)
  }

  lemma NamesIffMatch(emps: seq<Employee>, ptr: Option<Id>)
    ensures Names(emps, ptr) <==> MatchIndex(emps, ptr) < |emps|
  {
    var k := MatchIndex(emps, ptr);
    if k < |emps| {
      assert emps[k] in emps;
    }
  }

  /** `activeEmployee`: the first employee the active id names, else the first
      employee; None stands for the blank placeholder record the editor
      falls back to when the list is empty. */
  function ResolveActive(emps: seq<Employee>, ptr: Option<Id>): (r: Option<Employee>)
    ensures r.None? <==> emps == []
    ensures r.Some? ==> r.value in emps
    ensures Names(emps, ptr) ==> r.Some? && ptr == Some(r.value.id)
    ensures !Names(emps, ptr) && emps != [] ==> r == Some(emps[0])
    ensures forall i :: 0 <= i < |emps| && ptr == Some(emps[i].id) && (forall j :: 0 <= j < i ==> ptr != Some(emps[j].id))
                        ==> r == Some(emps[i])
  {
    NamesIffMatch(emps, ptr);
    var k := MatchIndex(emps, ptr);
    if k < |emps| then Some(emps[k])
    else if emps != [] then Some(emps[0])
    else None
  }

  /** The goals of the resolved active employee; the placeholder has none. */
  function ActiveGoals(emps: seq<Employee>, ptr: Option<Id>): seq<Goal> {
    match ResolveActive(emps, ptr)
    case Some(e) => e.goals
    case None => []
  }

  // ---------------------------------------------------------------------
  // The fallback effect

  /** `!activeEmployeeId`: null and the id 0 are both falsy. */
  predicate Falsy(ptr: Option<Id>) {
    ptr == None || ptr == Some(0)
  }

  /** The active id after the fallback effect: re-pointed to the first employee
      when it is falsy or names no employee (and the list is not empty). */
  function RepairActiveId(emps: seq<Employee>, ptr: Option<Id>): (r: Option<Id>)
    ensures emps != [] ==> Names(emps, r)
    ensures r == ptr || (emps != [] && r == Some(emps[0].id))
    ensures !Falsy(ptr) && Names(emps, ptr) ==> r == ptr
    ensures (Falsy(ptr) || !Names(emps, ptr)) && emps != [] ==> r == Some(emps[0].id)
  {
    NamesIffMatch(emps, ptr);
    if (Falsy(ptr) || MatchIndex(emps, ptr) == |emps|) && |emps| > 0 then
      assert emps[0] in emps;
      Some(emps[0].id)
    else ptr
  }

  /** Once repaired, the effect has nothing left to do. */
  lemma RepairActiveIdIdempotent(emps: seq<Employee>, ptr: Option<Id>)
    ensures RepairActiveId(emps, RepairActiveId(emps, ptr)) == RepairActiveId(emps, ptr)
  {
  }

  // ---------------------------------------------------------------------
  // Handler bodies

  /** `addGoal`: the resolved goals plus one blank goal, written to the
      employees the raw active id names. */
  function AddGoalTo(emps: seq<Employee>, ptr: Option<Id>, goalId: Id): (r: seq<Employee>)
    ensures |r| == |emps| && forall i :: 0 <= i < |emps| ==> r[i].id == emps[i].id
    ensures Names(r, ptr) <==> Names(emps, ptr)
  {
    var r := UpdateEmployees(emps, ptr, SetGoals(ActiveGoals(emps, ptr) + [BlankGoal(goalId)]));
    NamesSameIds(emps, r, ptr);
    r
  }

  /** `updateGoal`: the resolved goals with one goal edited, written through
      the raw active id. */
  function UpdateGoalIn(emps: seq<Employee>, ptr: Option<Id>, goalId: Id, edit: GoalEdit): (r: seq<Employee>)
    ensures |r| == |emps| && forall i :: 0 <= i < |emps| ==> r[i].id == emps[i].id
    ensures Names(r, ptr) <==> Names(emps, ptr)
  {
    var r := UpdateEmployees(emps, ptr, SetGoals(UpdateGoals(ActiveGoals(emps, ptr), goalId, edit)));
    NamesSameIds(emps, r, ptr);
    r
  }

  /** The goal branch of `executeDelete`: the resolved goals without one
      goal, written through the raw active id. */
  function DeleteGoalIn(emps: seq<Employee>, ptr: Option<Id>, goalId: Id): (r: seq<Employee>)
    ensures |r| == |emps| && forall i :: 0 <= i < |emps| ==> r[i].id == emps[i].id
    ensures Names(r, ptr) <==> Names(emps, ptr)
  {
    var r := UpdateEmployees(emps, ptr, SetGoals(RemoveGoal(ActiveGoals(emps, ptr), goalId)));
    NamesSameIds(emps, r, ptr);
    r
  }

  /** The employee branch of `executeDelete`: the active id moves to the first
      survivor only when the deleted employee was the active one, so an active
      id that named an employee before the deletion names one after it. */
  function ActiveIdAfterDelete(emps: seq<Employee>, ptr: Option<Id>, id: Id): (r: Option<Id>)
    requires ptr == Some(id) ==> RemoveEmployee(emps, id) != []
    ensures r == ptr || (RemoveEmployee(emps, id) != [] && r == Some(RemoveEmployee(emps, id)[0].id))
    ensures ptr != Some(id) ==> r == ptr
    ensures Names(emps, ptr) ==> Names(RemoveEmployee(emps, id), r)
    ensures ptr == Some(id) ==> Names(RemoveEmployee(emps, id), r)
  {
    var survivors := RemoveEmployee(emps, id);
    if ptr == Some(id) then
      assert survivors[0] in survivors;
      Some(survivors[0].id)
    else
      SurvivorKeepsName(emps, ptr, id);
      ptr
  }

  /** An active id that names an employee other than the deleted one still
      names a survivor. */
  lemma SurvivorKeepsName(emps: seq<Employee>, ptr: Option<Id>, id: Id)
    requires ptr != Some(id)
    ensures Names(emps, ptr) ==> Names(RemoveEmployee(emps, id), ptr)
  {
    if Names(emps, ptr) {
      var e :| e in emps && ptr == Some(e.id);
      assert e in RemoveEmployee(emps, id);
    }
  }

  /** Lists with the same ids, position by position, name the same ids. */
  lemma NamesSameIds(a: seq<Employee>, b: seq<Employee>, ptr: Option<Id>)
    requires |a| == |b|
    requires forall i :: 0 <= i < |a| ==> a[i].id == b[i].id
    ensures Names(a, ptr) <==> Names(b, ptr)
  {
    NamesIffMatch(a, ptr);
    NamesIffMatch(b, ptr);
    MatchIndexSameIds(a, b, ptr);
  }

  /** With a stale active id the write touches no employee. */
  lemma StaleActiveIdWritesNothing(emps: seq<Employee>, ptr: Option<Id>, goalId: Id, edit: GoalEdit)
    requires !Names(emps, ptr)
    ensures AddGoalTo(emps, ptr, goalId) == emps
    ensures UpdateGoalIn(emps, ptr, goalId, edit) == emps
    ensures DeleteGoalIn(emps, ptr, goalId) == emps
  {
    UpdateEmployeesStaleIsNoOp(emps, ptr, SetGoals(ActiveGoals(emps, ptr) + [BlankGoal(goalId)]));
    UpdateEmployeesStaleIsNoOp(emps, ptr, SetGoals(UpdateGoals(ActiveGoals(emps, ptr), goalId, edit)));
    UpdateEmployeesStaleIsNoOp(emps, ptr, SetGoals(RemoveGoal(ActiveGoals(emps, ptr), goalId)));
  }

  /** `addGoal` appends one blank goal after the active employee's goals and
      leaves its other fields, and every other employee, unchanged. */
  lemma AddGoalAppends(emps: seq<Employee>, ptr: Option<Id>, goalId: Id, i: nat)
    requires DistinctIds(emps)
    requires i < |emps| && ptr == Some(emps[i].id)
    ensures var r := AddGoalTo(emps, ptr, goalId);
      && |r| == |emps|
      && r[i] == emps[i].(goals := emps[i].goals + [BlankGoal(goalId)])
      && forall j :: 0 <= j < |emps| && j != i ==> r[j] == emps[j]
  {
    ResolvesUnique(emps, ptr, i);
  }

  /** `updateGoal` edits the named field of the matching goals of the active
      employee and leaves every other employee unchanged. */
  lemma UpdateGoalEditsActive(emps: seq<Employee>, ptr: Option<Id>, goalId: Id, edit: GoalEdit, i: nat)
    requires DistinctIds(emps)
    requires i < |emps| && ptr == Some(emps[i].id)
    ensures var r := UpdateGoalIn(emps, ptr, goalId, edit);
      && |r| == |emps|
      && r[i] == emps[i].(goals := UpdateGoals(emps[i].goals, goalId, edit))
      && forall j :: 0 <= j < |emps| && j != i ==> r[j] == emps[j]
  {
    ResolvesUnique(emps, ptr, i);
  }

  /** Deleting a goal drops it from the active employee only and leaves every
      other employee unchanged. */
  lemma DeleteGoalFromActive(emps: seq<Employee>, ptr: Option<Id>, goalId: Id, i: nat)
    requires DistinctIds(emps)
    requires i < |emps| && ptr == Some(emps[i].id)
    ensures var r := DeleteGoalIn(emps, ptr, goalId);
      && |r| == |emps|
      && r[i] == emps[i].(goals := RemoveGoal(emps[i].goals, goalId))
      && forall j :: 0 <= j < |emps| && j != i ==> r[j] == emps[j]
  {
    ResolvesUnique(emps, ptr, i);
  }

  /** With distinct ids, the active id resolves to the one employee it names. */
  lemma ResolvesUnique(emps: seq<Employee>, ptr: Option<Id>, i: nat)
    requires DistinctIds(emps)
    requires i < |emps| && ptr == Some(emps[i].id)
    ensures ResolveActive(emps, ptr) == Some(emps[i])
    ensures forall j :: 0 <= j < |emps| && j != i ==> ptr != Some(emps[j].id)
  {
    assert forall j :: 0 <= j < i ==> emps[j].id != emps[i].id;
  }

  /** With distinct ids, editing a goal id the active employee lacks is a
      no-op. */
  lemma UpdateAbsentGoalIsNoOp(emps: seq<Employee>, ptr: Option<Id>, goalId: Id, edit: GoalEdit)
    requires DistinctIds(emps)
    requires forall g :: g in ActiveGoals(emps, ptr) ==> g.id != goalId
    ensures UpdateGoalIn(emps, ptr, goalId, edit) == emps
  {
    var gs := ActiveGoals(emps, ptr);
    UpdateGoalsAbsentIsNoOp(gs, goalId, edit);
    var k := MatchIndex(emps, ptr);
    if k < |emps| {
      ResolvesUnique(emps, ptr, k);
      var r := UpdateGoalIn(emps, ptr, goalId, edit);
      forall j | 0 <= j < |emps| ensures r[j] == emps[j] {
        if j == k {
          assert r[j] == emps[j].(goals := gs);
        }
      }
    } else {
      NamesIffMatch(emps, ptr);
      StaleActiveIdWritesNothing(emps, ptr, goalId, edit);
    }
  }

  /** Deleting the same goal twice has the effect of deleting it once. */
  lemma DeleteGoalIdempotent(emps: seq<Employee>, ptr: Option<Id>, goalId: Id)
    ensures DeleteGoalIn(DeleteGoalIn(emps, ptr, goalId), ptr, goalId) == DeleteGoalIn(emps, ptr, goalId)
  {
    var once := DeleteGoalIn(emps, ptr, goalId);
    var k := MatchIndex(emps, ptr);
    NamesIffMatch(emps, ptr);
    if k < |emps| {
      var gs := RemoveGoal(ActiveGoals(emps, ptr), goalId);
      // the same employee stays first to match, now holding gs
      assert MatchIndex(once, ptr) == k by {
        MatchIndexSameIds(emps, once, ptr);
      }
      assert ActiveGoals(once, ptr) == gs;
      RemoveGoalIdempotent(ActiveGoals(emps, ptr), goalId);
      var twice := DeleteGoalIn(once, ptr, goalId);
      forall j | 0 <= j < |emps| ensures twice[j] == once[j] {
      }
    } else {
      StaleActiveIdWritesNothing(emps, ptr, goalId, SetTitle(""));
      StaleActiveIdWritesNothing(once, ptr, goalId, SetTitle(""));
    }
  }

  /** The active id resolves by id only, so lists with the same ids resolve to
      the same position. */
  lemma {:induction false} MatchIndexSameIds(a: seq<Employee>, b: seq<Employee>, ptr: Option<Id>)
    requires |a| == |b|
    requires forall i :: 0 <= i < |a| ==> a[i].id == b[i].id
    ensures MatchIndex(a, ptr) == MatchIndex(b, ptr)
  {
    if a != [] {
      MatchIndexSameIds(a[1..], b[1..], ptr);
    }
  }

  /** `addEmployee` with an id no employee carries: the blank record becomes
      the resolved active employee, earlier records stay as they were, and
      ids stay distinct. */
  lemma AddEmployeeActivates(emps: seq<Employee>, freshId: Id, today: string)
    requires forall e :: e in emps ==> e.id != freshId
    ensures var r := emps + [BlankEmployee(freshId, today)];
      && ResolveActive(r, Some(freshId)) == Some(BlankEmployee(freshId, today))
      && (DistinctIds(emps) ==> DistinctIds(r))
  {
    var r := emps + [BlankEmployee(freshId, today)];
    forall j | 0 <= j < |emps| ensures Some(freshId) != Some(r[j].id) {
      assert r[j] == emps[j] && emps[j] in emps;
    }
  }
}
