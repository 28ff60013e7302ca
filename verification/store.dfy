/** The editor's state: the employee list, the active employee id and
    the deletion awaiting confirmation, changed in place by the event
    handlers. Each handler's effect on the list is the matching function of
    module Actions or Codec. */
module Store {
  import opened Records
  import opened Actions
  import Codec
  import Progress

  /** The confirmation dialog's pending deletion. */
  datatype PendingDelete = EmployeeDeletion(id: Id) | GoalDeletion(id: Id)

  class DocumentStore {
    var employees: seq<Employee>
    var activeId: Option<Id>
    var pending: Option<PendingDelete>

    /** The employee list is never empty. */
    ghost predicate Valid()
      reads this
    {
      employees != []
    }

    /** The two initialisers: the stored list when the slot holds a
        non-empty array of employees, with the active id on its first entry;
        otherwise one blank employee dated today and a null active id. */
    constructor (stored: Option<Codec.Json>, freshId: Id, today: string)
      ensures Valid() && pending == None
      ensures Codec.LoadStored(stored).Some? ==>
                employees == Codec.LoadStored(stored).value && activeId == Some(employees[0].id)
      ensures Codec.LoadStored(stored).None? ==>
                employees == [BlankEmployee(freshId, today)] && activeId == None
    {
      match Codec.LoadStored(stored) {
        case Some(emps) =>
          employees := emps;
          activeId := Some(emps[0].id);
        case None =>
          employees := [BlankEmployee(freshId, today)];
          activeId := None;
      }
      pending := None;
    }

    /** `activeEmployee`: the employee the active id names, else the first;
        the store's list is never empty, so there always is one. */
    function Active(): (r: Option<Employee>)
      reads this
      ensures employees != [] ==> r.Some? && r.value in employees
      ensures Names(employees, activeId) ==> r.Some? && activeId == Some(r.value.id)
    {
      ResolveActive(employees, activeId)
    }

    /** `averageProgress` of the active employee: within the slider range
        whenever every goal of the active employee is. */
    function Average(): (r: int)
      reads this
      ensures r == Progress.AverageProgress(ActiveGoals(employees, activeId))
      ensures Progress.InSliderRange(ActiveGoals(employees, activeId)) ==> 0 <= r <= 100
    {
      var goals := ActiveGoals(employees, activeId);
      if Progress.InSliderRange(goals) then
        Progress.AverageProgressInRange(goals);
        Progress.AverageProgress(goals)
      else Progress.AverageProgress(goals)
    }

    /** What the save effect writes after every change of the list: the next
        start-up loads the same list back. */
    function Saved(): (j: Codec.Json)
      reads this
      ensures employees != [] ==> Codec.LoadStored(Some(j)) == Some(employees)
    {
      if employees != [] then
        Codec.StorageRoundTrip(employees);
        Codec.StorageSlot(employees)
      else Codec.StorageSlot(employees)
    }

    /** `handleExport`'s payload: the saved array under version 2, which an
        import reads back as the same list. */
    function Exported(): (j: Codec.Json)
      reads this
      ensures Codec.Member(j, "version") == Some(Codec.JNum(2))
      ensures Codec.Member(j, "employees") == Some(Codec.StorageSlot(employees))
      ensures employees != [] ==> forall freshId :: Codec.ImportPayload(Some(j), freshId) == Codec.Imported(employees)
    {
      var j := Codec.Envelope(employees);
      assert employees != [] ==> forall freshId :: Codec.ImportPayload(Some(j), freshId) == Codec.Imported(employees) by {
        if employees != [] {
          forall freshId ensures Codec.ImportPayload(Some(j), freshId) == Codec.Imported(employees) {
            Codec.ExportImportRoundTrip(employees, freshId);
          }
        }
      }
      j
    }

    /** The fallback effect: a falsy or stale active id moves to the first
        employee; afterwards the active id names an employee. */
    method RepairActive()
      requires Valid()
      modifies this
      ensures Valid() && employees == old(employees) && pending == old(pending)
      ensures activeId == RepairActiveId(old(employees), old(activeId))
      ensures Names(employees, activeId)
    {
      activeId := RepairActiveId(employees, activeId);
    }

    /** Clicking an employee in the side bar; existence is not checked. */
    method Select(id: Id)
      requires Valid()
      modifies this
      ensures Valid() && employees == old(employees) && pending == old(pending)
      ensures activeId == Some(id)
    {
      activeId := Some(id);
    }

    /** `addEmployee`: one blank record appended and made active. */
    method AddEmployee(freshId: Id, today: string)
      requires Valid()
      modifies this
      ensures Valid() && pending == old(pending)
      ensures employees == old(employees) + [BlankEmployee(freshId, today)]
      ensures activeId == Some(freshId)
    {
      employees := employees + [BlankEmployee(freshId, today)];
      activeId := Some(freshId);
    }

    /** `initiateDeleteEmployee`: refused, with nothing changed, when only
        one employee remains; otherwise the deletion awaits confirmation. */
    method InitiateDeleteEmployee(id: Id) returns (refused: bool)
      requires Valid()
      modifies this
      ensures Valid() && employees == old(employees) && activeId == old(activeId)
      ensures refused <==> |employees| == 1
      ensures pending == if refused then old(pending) else Some(EmployeeDeletion(id))
    {
      if |employees| == 1 {
        refused := true;
        return;
      }
      refused := false;
      pending := Some(EmployeeDeletion(id));
    }

    /** `initiateDeleteGoal`: the deletion awaits confirmation. */
    method InitiateDeleteGoal(goalId: Id)
      requires Valid()
      modifies this
      ensures Valid() && employees == old(employees) && activeId == old(activeId)
      ensures pending == Some(GoalDeletion(goalId))
    {
      pending := Some(GoalDeletion(goalId));
    }

    /** `closeConfirmModal`: the pending deletion is dropped. */
    method CancelDelete()
      requires Valid()
      modifies this
      ensures Valid() && employees == old(employees) && activeId == old(activeId)
      ensures pending == None
    {
      pending := None;
    }

    /** `executeDelete`. Deleting an employee must leave one (the editor
        reads the new first id); the active id moves to the new first employee
        only when the deleted one was active. Deleting a goal edits the
        resolved goals and writes them through the raw active id. Either way an
        active id that named an employee still names one. */
    method ExecuteDelete()
      requires Valid()
      requires pending.Some? && pending.value.EmployeeDeletion? ==> RemoveEmployee(employees, pending.value.id) != []
      modifies this
      ensures Valid() && pending == None
      ensures old(pending) == None ==> employees == old(employees) && activeId == old(activeId)
      ensures old(pending).Some? && old(pending).value.EmployeeDeletion? ==>
                var id := old(pending).value.id;
                && employees == RemoveEmployee(old(employees), id)
                && activeId == ActiveIdAfterDelete(old(employees), old(activeId), id)
      ensures old(pending).Some? && old(pending).value.GoalDeletion? ==>
                && employees == DeleteGoalIn(old(employees), old(activeId), old(pending).value.id)
                && activeId == old(activeId)
      ensures old(Names(employees, activeId)) ==> Names(employees, activeId)
    {
      match pending {
        case Some(EmployeeDeletion(id)) =>
          activeId := ActiveIdAfterDelete(employees, activeId, id);
          employees := RemoveEmployee(employees, id);
        case Some(GoalDeletion(goalId)) =>
          employees := DeleteGoalIn(employees, activeId, goalId);
        case None =>
      }
      pending := None;
    }

    /** `updateActiveEmployee`: the named field of the employees the raw
        active id names. */
    method UpdateActiveEmployee(edit: EmployeeEdit)
      requires Valid()
      modifies this
      ensures Valid() && activeId == old(activeId) && pending == old(pending)
      ensures employees == UpdateEmployees(old(employees), activeId, edit)
    {
      employees := UpdateEmployees(employees, activeId, edit);
    }

    /** `addGoal`: a blank goal after the resolved active employee's goals. */
    method AddGoal(goalId: Id)
      requires Valid()
      modifies this
      ensures Valid() && activeId == old(activeId) && pending == old(pending)
      ensures employees == AddGoalTo(old(employees), activeId, goalId)
    {
      var goals := ActiveGoals(employees, activeId) + [BlankGoal(goalId)];
      UpdateActiveEmployee(SetGoals(goals));
    }

    /** `updateGoal`: one field of the matching goals of the resolved active
        employee. */
    method UpdateGoal(goalId: Id, edit: GoalEdit)
      requires Valid()
      modifies this
      ensures Valid() && activeId == old(activeId) && pending == old(pending)
      ensures employees == UpdateGoalIn(old(employees), activeId, goalId, edit)
    {
      var goals := UpdateGoals(ActiveGoals(employees, activeId), goalId, edit);
      UpdateActiveEmployee(SetGoals(goals));
    }

    /** `handleImport`: a non-empty list replaces the employees and its first
        id becomes active; a rejected payload changes nothing. */
    method HandleImport(parsed: Option<Codec.Json>, freshId: Id) returns (error: Option<Codec.ImportError>)
      requires Valid()
      modifies this
      ensures Valid() && pending == old(pending)
      ensures match Codec.ImportPayload(parsed, freshId)
        case Imported(emps) => error == None && employees == emps && activeId == Some(emps[0].id)
        case Rejected(e) => error == Some(e) && employees == old(employees) && activeId == old(activeId)
    {
      match Codec.ImportPayload(parsed, freshId) {
        case Imported(emps) =>
          employees := emps;
          activeId := Some(emps[0].id);
          error := None;
        case Rejected(e) =>
          error := Some(e);
      }
    }
  }

  /** The guard of `initiateDeleteEmployee` (more than one employee) makes a
      pending employee deletion confirmable when ids are distinct: the filter
      leaves the employee whose id `executeDelete` reads. */
  lemma PendingDeletionConfirmable(emps: seq<Employee>, pending: Option<PendingDelete>)
    requires DistinctIds(emps)
    requires pending.Some? && pending.value.EmployeeDeletion? ==> |emps| >= 2
    ensures pending.Some? && pending.value.EmployeeDeletion? ==> RemoveEmployee(emps, pending.value.id) != []
  {
    if pending.Some? && pending.value.EmployeeDeletion? {
      RemoveEmployeeLeavesSurvivor(emps, pending.value.id);
    }
  }
}
