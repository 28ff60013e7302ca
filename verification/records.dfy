/** Employees, their goals, and the list edits the editor builds from
    `map`, `filter` and spread: replace one field of the records whose id
    matches, or drop the records whose id matches. */
module Records {

  /** Record identifiers. The editor takes them from the millisecond clock,
      so the caller supplies fresh ones. */
  type Id = int

  datatype Option<T> = None | Some(value: T)

  datatype Goal = Goal(id: Id, title: string, description: string, progress: int)

  datatype Employee = Employee(id: Id, name: string, date: string, goals: seq<Goal>)

  /** The record `addEmployee` and the first start create. */
  function BlankEmployee(id: Id, today: string): Employee {
    Employee(id, "", today, [])
  }

  /** The record `addGoal` creates. */
  function BlankGoal(id: Id): Goal {
    Goal(id, "", "", 0)
  }

  /** No two records share an id. */
  predicate DistinctIds(emps: seq<Employee>) {
    forall i, j :: 0 <= i < j < |emps| ==> emps[i].id != emps[j].id
  }

  // ---------------------------------------------------------------------
  // Single-field edits: `{ ...emp, [field]: value }` and `{ ...g, [field]: value }`

  /** The fields `updateActiveEmployee` is called with. */
  datatype EmployeeEdit = SetName(name: string) | SetDate(date: string) | SetGoals(goals: seq<Goal>)

  /** The fields `updateGoal` is called with. */
  datatype GoalEdit = SetTitle(title: string) | SetDescription(description: string) | SetProgress(progress: int)

  /** The named field takes the new value; every other field is kept. */
  function EditEmployee(e: Employee, edit: EmployeeEdit): (r: Employee)
    ensures r.id == e.id
    ensures r.name == (if edit.SetName? then edit.name else e.name)
    ensures r.date == (if edit.SetDate? then edit.date else e.date)
    ensures r.goals == (if edit.SetGoals? then edit.goals else e.goals)
  {
    match edit
    case SetName(n) => e.(name := n)
    case SetDate(d) => e.(date := d)
    case SetGoals(gs) => e.(goals := gs)
  }

  /** The named field takes the new value; every other field is kept. */
  function EditGoal(g: Goal, edit: GoalEdit): (r: Goal)
    ensures r.id == g.id
    ensures r.title == (if edit.SetTitle? then edit.title else g.title)
    ensures r.description == (if edit.SetDescription? then edit.description else g.description)
    ensures r.progress == (if edit.SetProgress? then edit.progress else g.progress)
  {
    match edit
    case SetTitle(t) => g.(title := t)
    case SetDescription(d) => g.(description := d)
    case SetProgress(p) => g.(progress := p)
  }

  // ---------------------------------------------------------------------
  // `map`: edit the records whose id matches

  /** `employees.map(emp => emp.id === activeEmployeeId ? {...} : emp)`.
      A null active id matches no id. Length, order and ids are kept; only the
      records the active id names are edited. */
  function UpdateEmployees(emps: seq<Employee>, ptr: Option<Id>, edit: EmployeeEdit): (r: seq<Employee>)
    ensures |r| == |emps|
    ensures forall i :: 0 <= i < |emps| ==> r[i].id == emps[i].id
    ensures forall i :: 0 <= i < |emps| && ptr != Some(emps[i].id) ==> r[i] == emps[i]
    ensures forall i :: 0 <= i < |emps| && ptr == Some(emps[i].id) ==> r[i] == EditEmployee(emps[i], edit)
  {
    if emps == [] then []
    else
      [if ptr == Some(emps[0].id) then EditEmployee(emps[0], edit) else emps[0]]
      + UpdateEmployees(emps[1..], ptr, edit)
  }

  /** `goals.map(g => g.id === goalId ? {...} : g)`. Length, order and ids are
      kept; only the goals with the given id are edited. */
  function UpdateGoals(goals: seq<Goal>, goalId: Id, edit: GoalEdit): (r: seq<Goal>)
    ensures |r| == |goals|
    ensures forall i :: 0 <= i < |goals| ==> r[i].id == goals[i].id
    ensures forall i :: 0 <= i < |goals| && goals[i].id != goalId ==> r[i] == goals[i]
    ensures forall i :: 0 <= i < |goals| && goals[i].id == goalId ==> r[i] == EditGoal(goals[i], edit)
  {
    if goals == [] then []
    else
      [if goals[0].id == goalId then EditGoal(goals[0], edit) else goals[0]]
      + UpdateGoals(goals[1..], goalId, edit)
  }

  /** An edit aimed at an active id that names no employee changes nothing. */
  lemma {:induction false} UpdateEmployeesStaleIsNoOp(emps: seq<Employee>, ptr: Option<Id>, edit: EmployeeEdit)
    requires forall e :: e in emps ==> ptr != Some(e.id)
    ensures UpdateEmployees(emps, ptr, edit) == emps
  {
    if emps != [] {
      assert emps[0] in emps;
      assert forall e :: e in emps[1..] ==> e in emps;
      UpdateEmployeesStaleIsNoOp(emps[1..], ptr, edit);
    }
  }

  /** Updating a goal id that no goal carries changes nothing. */
  lemma {:induction false} UpdateGoalsAbsentIsNoOp(goals: seq<Goal>, goalId: Id, edit: GoalEdit)
    requires forall g :: g in goals ==> g.id != goalId
    ensures UpdateGoals(goals, goalId, edit) == goals
  {
    if goals != [] {
      assert goals[0] in goals;
      assert forall g :: g in goals[1..] ==> g in goals;
      UpdateGoalsAbsentIsNoOp(goals[1..], goalId, edit);
    }
  }

  // ---------------------------------------------------------------------
  // `filter`: drop the records whose id matches

  /** `employees.filter(emp => emp.id !== id)`: exactly the employees with
      another id survive. */
  function RemoveEmployee(emps: seq<Employee>, id: Id): (r: seq<Employee>)
    ensures forall e :: e in r <==> e in emps && e.id != id
    ensures |r| <= |emps|
  {
    if emps == [] then []
    else if emps[0].id == id then RemoveEmployee(emps[1..], id)
    else [emps[0]] + RemoveEmployee(emps[1..], id)
  }

  /** `goals.filter(g => g.id !== goalId)`: exactly the goals with another id
      survive. */
  function RemoveGoal(goals: seq<Goal>, goalId: Id): (r: seq<Goal>)
    ensures forall g :: g in r <==> g in goals && g.id != goalId
    ensures |r| <= |goals|
  {
    if goals == [] then []
    else if goals[0].id == goalId then RemoveGoal(goals[1..], goalId)
    else [goals[0]] + RemoveGoal(goals[1..], goalId)
  }

  /** Removal works piecewise, so the survivors keep their relative order. */
  lemma {:induction false} RemoveEmployeeKeepsOrder(a: seq<Employee>, b: seq<Employee>, id: Id)
    ensures RemoveEmployee(a + b, id) == RemoveEmployee(a, id) + RemoveEmployee(b, id)
  {
    if a == [] {
      assert a + b == b;
    } else {
      assert (a + b)[1..] == a[1..] + b;
      RemoveEmployeeKeepsOrder(a[1..], b, id);
    }
  }

  /** Removal works piecewise, so the surviving goals keep their display
      order. */
  lemma {:induction false} RemoveGoalKeepsOrder(a: seq<Goal>, b: seq<Goal>, goalId: Id)
    ensures RemoveGoal(a + b, goalId) == RemoveGoal(a, goalId) + RemoveGoal(b, goalId)
  {
    if a == [] {
      assert a + b == b;
    } else {
      assert (a + b)[1..] == a[1..] + b;
      RemoveGoalKeepsOrder(a[1..], b, goalId);
    }
  }

  /** With distinct ids, removing a present id drops exactly one employee and
      removing an absent id drops none. */
  lemma {:induction false} RemoveEmployeeCount(emps: seq<Employee>, id: Id)
    requires DistinctIds(emps)
    ensures |RemoveEmployee(emps, id)| == if exists i :: 0 <= i < |emps| && emps[i].id == id then |emps| - 1 else |emps|
  {
    if emps != [] {
      var rest := emps[1..];
      assert DistinctIds(rest);
      RemoveEmployeeCount(rest, id);
      if emps[0].id == id {
        forall i | 0 <= i < |rest| ensures rest[i].id != id {
          assert emps[0].id != emps[i + 1].id;
        }
      } else {
        if exists i :: 0 <= i < |emps| && emps[i].id == id {
          var i :| 0 <= i < |emps| && emps[i].id == id;
          assert rest[i - 1].id == id;
        }
      }
    }
  }

  /** The guard `employees.length === 1` together with distinct ids
      guarantees that deleting an employee leaves at least one. */
  lemma RemoveEmployeeLeavesSurvivor(emps: seq<Employee>, id: Id)
    requires |emps| >= 2 && DistinctIds(emps)
    ensures RemoveEmployee(emps, id) != []
  {
    RemoveEmployeeCount(emps, id);
  }

  /** Deleting the same goal twice has the effect of deleting it once. */
  lemma {:induction false} RemoveGoalIdempotent(goals: seq<Goal>, goalId: Id)
    ensures RemoveGoal(RemoveGoal(goals, goalId), goalId) == RemoveGoal(goals, goalId)
  {
    if goals != [] {
      RemoveGoalIdempotent(goals[1..], goalId);
      if goals[0].id != goalId {
        var r := RemoveGoal(goals[1..], goalId);
        assert ([goals[0]] + r)[1..] == r;
      }
    }
  }

  /** Deleting a goal id that no goal carries changes nothing. */
  lemma {:induction false} RemoveGoalAbsentIsNoOp(goals: seq<Goal>, goalId: Id)
    requires forall g :: g in goals ==> g.id != goalId
    ensures RemoveGoal(goals, goalId) == goals
  {
    if goals != [] {
      assert goals[0] in goals;
      assert forall g :: g in goals[1..] ==> g in goals;
      RemoveGoalAbsentIsNoOp(goals[1..], goalId);
      assert goals == [goals[0]] + goals[1..];
    }
  }
}
