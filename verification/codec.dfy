/** The transfer codec: the export envelope `{version: 2, employees}`, the
    import choice over an already-parsed JSON value, and the storage slot
    that holds the bare employee array. Text parsing and printing are not
    modelled: a payload that did not parse arrives as None. */
module Codec {
  import opened Records

  /** A parsed JSON value. Numbers are integers here; object keys map to
      values (a later duplicate key wins in the parser, so a map suffices). */
  datatype Json =
    | JNull
    | JBool(b: bool)
    | JNum(n: int)
    | JStr(s: string)
    | JArr(items: seq<Json>)
    | JObj(fields: map<string, Json>)

  /** `v[key]` on a value that is not null; None is `undefined`. Only objects
      carry the keys read here. */
  function Member(v: Json, key: string): Option<Json> {
    if v.JObj? && key in v.fields then Some(v.fields[key]) else None
  }

  /** JavaScript truthiness of a property value (None is `undefined`). */
  predicate Truthy(v: Option<Json>) {
    match v
    case None => false
    case Some(JNull) => false
    case Some(JBool(b)) => b
    case Some(JNum(n)) => n != 0
    case Some(JStr(s)) => s != ""
    case Some(_) => true
  }

  // ---------------------------------------------------------------------
  // Encoding

  function EncodeGoal(g: Goal): Json {
    JObj(map["id" := JNum(g.id), "title" := JStr(g.title),
             "description" := JStr(g.description), "progress" := JNum(g.progress)])
  }

  function EncodeGoals(goals: seq<Goal>): (r: seq<Json>)
    ensures |r| == |goals|
  {
    if goals == [] then [] else [EncodeGoal(goals[0])] + EncodeGoals(goals[1..])
  }

  function EncodeEmployee(e: Employee): Json {
    JObj(map["id" := JNum(e.id), "name" := JStr(e.name), "date" := JStr(e.date),
             "goals" := JArr(EncodeGoals(e.goals))])
  }

  function EncodeEmployees(emps: seq<Employee>): (r: seq<Json>)
    ensures |r| == |emps|
  {
    if emps == [] then [] else [EncodeEmployee(emps[0])] + EncodeEmployees(emps[1..])
  }

  /** What the save effect writes to the storage slot: the bare array. */
  function StorageSlot(emps: seq<Employee>): Json {
    JArr(EncodeEmployees(emps))
  }

  /** `handleExport`'s payload: the array wrapped in a version-2 envelope. */
  function Envelope(emps: seq<Employee>): (j: Json)
    ensures Member(j, "version") == Some(JNum(2))
    ensures Member(j, "employees") == Some(StorageSlot(emps))
  {
    JObj(map["version" := JNum(2), "employees" := StorageSlot(emps)])
  }

  // ---------------------------------------------------------------------
  // Decoding records

  function DecodeGoal(v: Json): Option<Goal> {
    match (Member(v, "id"), Member(v, "title"), Member(v, "description"), Member(v, "progress"))
    case (Some(JNum(id)), Some(JStr(t)), Some(JStr(d)), Some(JNum(p))) => Some(Goal(id, t, d, p))
    case _ => None
  }

  /** All items decode, or the whole list is refused. */
  function DecodeGoals(items: seq<Json>): (r: Option<seq<Goal>>)
    ensures r.Some? ==> |r.value| == |items|
  {
    if items == [] then Some([])
    else match (DecodeGoal(items[0]), DecodeGoals(items[1..]))
      case (Some(g), Some(gs)) => Some([g] + gs)
      case _ => None
  }

  function DecodeEmployee(v: Json): Option<Employee> {
    match (Member(v, "id"), Member(v, "name"), Member(v, "date"), Member(v, "goals"))
    case (Some(JNum(id)), Some(JStr(n)), Some(JStr(d)), Some(JArr(items))) =>
      (match DecodeGoals(items)
       case Some(gs) => Some(Employee(id, n, d, gs))
       case None => None)
    case _ => None
  }

  /** All items decode, or the whole list is refused. */
  function DecodeEmployees(items: seq<Json>): (r: Option<seq<Employee>>)
    ensures r.Some? ==> |r.value| == |items|
  {
    if items == [] then Some([])
    else match (DecodeEmployee(items[0]), DecodeEmployees(items[1..]))
      case (Some(e), Some(es)) => Some([e] + es)
      case _ => None
  }

  lemma {:induction false} GoalsRoundTrip(goals: seq<Goal>)
    ensures DecodeGoals(EncodeGoals(goals)) == Some(goals)
  {
    if goals != [] {
      var items := EncodeGoals(goals);
      GoalsRoundTrip(goals[1..]);
      assert items[0] == EncodeGoal(goals[0]) && items[1..] == EncodeGoals(goals[1..]);
      assert DecodeGoal(items[0]) == Some(goals[0]);
      assert goals == [goals[0]] + goals[1..];
    }
  }

  lemma EmployeeRoundTrip(e: Employee)
    ensures DecodeEmployee(EncodeEmployee(e)) == Some(e)
  {
    GoalsRoundTrip(e.goals);
  }

  /** Decoding undoes encoding, record for record. */
  lemma {:induction false} EmployeesRoundTrip(emps: seq<Employee>)
    ensures DecodeEmployees(EncodeEmployees(emps)) == Some(emps)
  {
    if emps != [] {
      var items := EncodeEmployees(emps);
      EmployeesRoundTrip(emps[1..]);
      assert items[0] == EncodeEmployee(emps[0]) && items[1..] == EncodeEmployees(emps[1..]);
      EmployeeRoundTrip(emps[0]);
      assert emps == [emps[0]] + emps[1..];
    }
  }

  // ---------------------------------------------------------------------
  // Loading the storage slot at start-up

  /** The stored list when the slot holds a non-empty array of employees;
      None when it is absent, unparsable, not an array, empty, or holds a
      record that is not an employee. */
  function LoadStored(stored: Option<Json>): (r: Option<seq<Employee>>)
    ensures r.Some? ==> r.value != []
    ensures r.Some? ==> stored.Some? && stored.value.JArr? && DecodeEmployees(stored.value.items) == r
    ensures (stored.Some? && stored.value.JArr? && DecodeEmployees(stored.value.items).Some?
             && DecodeEmployees(stored.value.items).value != []) ==> r == DecodeEmployees(stored.value.items)
  {
    match stored
    case Some(JArr(items)) =>
      (match DecodeEmployees(items)
       case Some(emps) => if emps != [] then Some(emps) else None
       case None => None)
    case _ => None
  }

  /** What the save effect writes, the next start-up reads back. */
  lemma StorageRoundTrip(emps: seq<Employee>)
    requires emps != []
    ensures LoadStored(Some(StorageSlot(emps))) == Some(emps)
  {
    EmployeesRoundTrip(emps);
  }

  // ---------------------------------------------------------------------
  // Import

  datatype ImportError =
    | Unreadable          // the text did not parse, or the value is null
    | NoValidData         // no non-empty `employees` array and no `goals`
    | NotEmployeeShaped   // a record the typed model cannot hold

  datatype ImportResult = Imported(employees: seq<Employee>) | Rejected(error: ImportError)

  /** `value || fallback` for a string-valued property. */
  function StringOr(v: Option<Json>, fallback: string): (r: Option<string>)
    ensures r.Some? <==> StringOrFalsy(v)
    ensures r.Some? ==> if Truthy(v) then v == Some(JStr(r.value)) else r.value == fallback
    ensures r.Some? ==> r.value != "" || fallback == ""
  {
    if !Truthy(v) then Some(fallback)
    else match v.value
      case JStr(s) => Some(s)
      case _ => None
  }

  /** The placeholder name of an employee synthesised from a legacy file. */
  const ImportedName: string := "Importiert"

  /** The single employee a legacy `{employeeName?, date?, goals}` file
      yields, under a fresh id. */
  function LegacyEmployee(v: Json, freshId: Id): (r: Option<Employee>)
    ensures r.Some? ==> r.value.id == freshId && r.value.name != ""
    ensures r.Some? ==> Truthy(Member(v, "goals"))
  {
    match (StringOr(Member(v, "employeeName"), ImportedName), StringOr(Member(v, "date"), ""), Member(v, "goals"))
    case (Some(name), Some(date), Some(JArr(items))) =>
      (match DecodeGoals(items)
       case Some(goals) => Some(Employee(freshId, name, date, goals))
       case None => None)
    case _ => None
  }

  predicate IsArray(v: Option<Json>) {
    v.Some? && v.value.JArr?
  }

  /** The `newEmps` choice of `handleImport`: an `employees` array wins (and
      an empty one is refused without looking at `goals`); else a truthy
      `goals` yields one synthesised employee; else nothing. A list is only
      ever handed over when it is non-empty. */
  function ImportPayload(parsed: Option<Json>, freshId: Id): (r: ImportResult)
    ensures r.Imported? ==> r.employees != []
    ensures parsed == None || parsed == Some(JNull) ==> r == Rejected(Unreadable)
    ensures parsed.Some? && Member(parsed.value, "employees") == Some(JArr([])) ==> r == Rejected(NoValidData)
    ensures (parsed.Some? && parsed.value != JNull && !IsArray(Member(parsed.value, "employees"))
             && !Truthy(Member(parsed.value, "goals"))) ==> r == Rejected(NoValidData)
  {
    if parsed.None? || parsed.value.JNull? then Rejected(Unreadable)
    else
      var v := parsed.value;
      match Member(v, "employees")
      case Some(JArr(items)) =>
        (match DecodeEmployees(items)
         case None => Rejected(NotEmployeeShaped)
         case Some(emps) => if emps == [] then Rejected(NoValidData) else Imported(emps))
      case _ =>
        if !Truthy(Member(v, "goals")) then Rejected(NoValidData)
        else match LegacyEmployee(v, freshId)
          case None => Rejected(NotEmployeeShaped)
          case Some(e) => Imported([e])
  }

  /** Importing an exported envelope yields the identical employee list. */
  lemma ExportImportRoundTrip(emps: seq<Employee>, freshId: Id)
    requires emps != []
    ensures ImportPayload(Some(Envelope(emps)), freshId) == Imported(emps)
  {
    EmployeesRoundTrip(emps);
  }

  /** Any object whose `employees` member is an array of employee records
      imports as exactly those records, whatever other keys it carries. */
  lemma ImportAnyEnvelope(v: Json, emps: seq<Employee>, freshId: Id)
    requires emps != []
    requires Member(v, "employees") == Some(StorageSlot(emps))
    ensures ImportPayload(Some(v), freshId) == Imported(emps)
  {
    EmployeesRoundTrip(emps);
  }

  /** A property `x || fallback` reads as a string: falsy, or a string. */
  predicate StringOrFalsy(m: Option<Json>) {
    !Truthy(m) || m.value.JStr?
  }

  /** Any object without an `employees` array but with an array of goal
      records under `goals` yields one employee under the fresh id: named by a
      truthy `employeeName` or else "Importiert", dated by a truthy `date` or
      else the empty string. Other keys, such as `version`, are ignored, and
      an empty `goals` array still yields the employee. */
  lemma LegacyAnyObject(v: Json, goals: seq<Goal>, freshId: Id)
    requires v.JObj?
    requires !IsArray(Member(v, "employees"))
    requires Member(v, "goals") == Some(JArr(EncodeGoals(goals)))
    requires StringOrFalsy(Member(v, "employeeName")) && StringOrFalsy(Member(v, "date"))
    ensures ImportPayload(Some(v), freshId)
      == Imported([Employee(freshId, StringOr(Member(v, "employeeName"), ImportedName).value,
                            StringOr(Member(v, "date"), "").value, goals)])
  {
    var name := StringOr(Member(v, "employeeName"), ImportedName).value;
    var date := StringOr(Member(v, "date"), "").value;
    GoalsRoundTrip(goals);
    assert LegacyEmployee(v, freshId) == Some(Employee(freshId, name, date, goals));
  }
}
