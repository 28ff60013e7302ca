# Employee goal sheets: document store and transfer codec

This project models the data core of a single-page editor for employee
performance goals (`src/App.jsx`). The editor keeps an ordered list of
employees. Each employee has an id, a name, a date and an ordered list of
goals. Each goal has an id, a title, a description and a progress value.
The editor also keeps the id of the active employee and a pending deletion
that waits for confirmation. Event handlers edit the list with `map`, `filter`
and append. A save effect writes the bare list to browser storage. Export
wraps the list in a `{version: 2, employees}` envelope. Import accepts that
envelope or a legacy single-employee `{employeeName, date, goals}` file.

Modules:

- `Records` (records.dfy): the `Goal` and `Employee` records, single-field
  edits, and the map and filter edits, with their frame and idempotence lemmas.
- `Progress` (progress.dfy): the progress colour bands and the rounded
  average progress. `Math.round(s/n)` is computed exactly in integers as
  `(2s+n)/(2n)`.
- `Actions` (actions.dfy): resolving the active id, the fallback that
  repairs it, and the list part of each handler. Reads go through the
  resolved active employee. Writes go through the raw active id.
- `Codec` (codec.dfy): a JSON value type, the storage slot, the export
  envelope and the import choice, with the round-trip lemmas.
- `Store` (store.dfy): the class `DocumentStore`. It holds the fields
  `employees`, `activeId` and `pending`, and its methods change them as the
  handlers do. Its invariant is that the employee list is never empty.

Fresh ids (`Date.now()` in the source) and today's date are parameters
supplied by the caller. A JSON text that failed to parse arrives at the
codec as `None`.

The model keeps these details of the code:

- A legacy import is named `"Importiert"`.
- Its date defaults to the empty string only, never to today.
- The active id is repaired by an effect that runs after a change
  (`RepairActive`), not on every read.
- The test `!activeEmployeeId` also treats the id 0 as missing.
- An imported employee without `goals` is not given an empty goal list. The
  model refuses it (see "Left out").

## Model

| member | source | states |
|---|---|---|
| `Records.EditEmployee` | src/App.jsx:106 | the spread edit keeps the id and every field except the named one, which takes the new value |
| `Records.EditGoal` | src/App.jsx:135 | the spread edit keeps the id and every field except the named one, which takes the new value |
| `Records.UpdateEmployees` | src/App.jsx:105-107 | length, order and ids are kept; records the raw active id does not name are unchanged; records it names get the edit |
| `Records.UpdateGoals` | src/App.jsx:135 | length, order and ids are kept; goals with another id are unchanged; goals with the id get the edit |
| `Records.UpdateEmployeesStaleIsNoOp` | src/App.jsx:106 | an active id that names no employee makes the edit a no-op |
| `Records.UpdateGoalsAbsentIsNoOp` | src/App.jsx:135 | editing a goal id that no goal carries changes nothing |
| `Records.RemoveEmployee` | src/App.jsx:144 | exactly the employees with another id survive, and the list does not grow |
| `Records.RemoveGoal` | src/App.jsx:148 | exactly the goals with another id survive, and the list does not grow; `RemoveGoalKeepsOrder` supplies their order |
| `Records.RemoveGoalKeepsOrder` | src/App.jsx:148 | removal distributes over concatenation, so the surviving goals keep their display order |
| `Records.RemoveEmployeeKeepsOrder` | src/App.jsx:144 | removal distributes over concatenation, so survivors keep their relative order |
| `Records.RemoveEmployeeCount` | src/App.jsx:144 | with distinct ids, removing a present id drops exactly one employee and an absent id drops none |
| `Records.RemoveEmployeeLeavesSurvivor` | src/App.jsx:99-103 | with distinct ids, the guard (more than one employee) ensures the deletion leaves an employee for the new active id |
| `Records.RemoveGoalIdempotent` | src/App.jsx:148 | deleting the same goal twice equals deleting it once |
| `Records.RemoveGoalAbsentIsNoOp` | src/App.jsx:148 | deleting an absent goal id changes nothing |
| `Progress.ProgressColor` | src/App.jsx:6-12 | the band's rank is the number of thresholds 25, 50, 75, 90 the progress reaches: red, orange, yellow, light green, emerald |
| `Progress.ColorClassDistinct` | src/App.jsx:6-12 | each band has its own class (`getProgressColor(p)` is `ColorClass(ProgressColor(p))`), so two classes are equal exactly when the bands are |
| `Progress.ProgressColorMonotone` | src/App.jsx:6-12 | more progress never gives a lower band |
| `Progress.RoundedMean` | src/App.jsx:182 | the result r satisfies 2nr - n <= 2s < 2nr + n: the nearest integer to s/n, with halves rounded up as `Math.round` does |
| `Progress.RoundedMeanUnique` | src/App.jsx:182 | that inequality has exactly one integer solution, so it fully specifies the rounding |
| `Progress.ProgressSum` | src/App.jsx:182 | the left-to-right `reduce` of the progress values; bounded by `ProgressSumBounds` |
| `Progress.AverageProgress` | src/App.jsx:182 | 0 without goals; otherwise the mean progress rounded half-up |
| `Progress.ProgressSumBounds` | src/App.jsx:182 | with every progress in the slider range [0, 100], the sum lies in [0, 100 n] |
| `Progress.AverageProgressInRange` | src/App.jsx:182 | with every progress in [0, 100], the average is in [0, 100] |
| `Actions.MatchIndex` | src/App.jsx:80 | `find` as an index: the first employee the active id names, or the list length when it names none |
| `Actions.ResolveActive` | src/App.jsx:80 | the first employee the active id names; else the first employee; the placeholder only for an empty list |
| `Actions.ResolvesUnique` | src/App.jsx:80 | with distinct ids, the active id resolves to the one employee it names |
| `Actions.RepairActiveId` | src/App.jsx:58-62 | afterwards the active id names an employee of a non-empty list; it moves to the first id exactly when it was falsy or stale |
| `Actions.RepairActiveIdIdempotent` | src/App.jsx:58-62 | a repaired active id needs no further repair |
| `Actions.ActiveIdAfterDelete` | src/App.jsx:144-146 | the active id is kept unless it named the deleted employee, and then becomes the first survivor's id; an active id that named an employee before the deletion names a survivor after it |
| `Actions.AddGoalTo` | src/App.jsx:109-111 | ids and length are kept, and the active id names an employee afterwards exactly when it did before; `AddGoalAppends` gives the content |
| `Actions.UpdateGoalIn` | src/App.jsx:134-137 | ids and length are kept, and the active id names an employee afterwards exactly when it did before; `UpdateGoalEditsActive` gives the content |
| `Actions.DeleteGoalIn` | src/App.jsx:147-148 | ids and length are kept, and the active id names an employee afterwards exactly when it did before; `DeleteGoalFromActive` gives the content |
| `Actions.StaleActiveIdWritesNothing` | src/App.jsx:105-111 | with a stale active id, adding, editing and deleting goals change no employee |
| `Actions.AddGoalAppends` | src/App.jsx:109-111 | a blank goal is appended after the active employee's goals; its other fields and every other employee are unchanged |
| `Actions.UpdateGoalEditsActive` | src/App.jsx:134-137 | only the active employee's goals change, by the goal edit; every other employee is unchanged |
| `Actions.DeleteGoalFromActive` | src/App.jsx:147-148 | only the active employee's goals change, by removing the goal; every other employee is unchanged |
| `Actions.UpdateAbsentGoalIsNoOp` | src/App.jsx:134-137 | with distinct ids, editing a goal id the active employee lacks leaves the list equal |
| `Actions.DeleteGoalIdempotent` | src/App.jsx:147-148 | confirming the same goal deletion twice has the effect of once |
| `Actions.AddEmployeeActivates` | src/App.jsx:91-95 | a blank employee with an unused id becomes the resolved active employee, and ids stay distinct |
| `Codec.StorageSlot` | src/App.jsx:66 | the bare array the save effect writes; `StorageRoundTrip` shows it loads back unchanged |
| `Codec.Envelope` | src/App.jsx:154 | the export carries `version` 2 and the employees as the storage slot holds them |
| `Codec.LoadStored` | src/App.jsx:16-25 | a stored list is used only when the slot holds an array, and then it is the decoded array; an array of employee records that is not empty is always used |
| `Codec.StorageRoundTrip` | src/App.jsx:66 | a saved non-empty list loads back unchanged on the next start |
| `Codec.EmployeesRoundTrip` | src/App.jsx:154 | decoding the encoded employees gives them back, record for record |
| `Codec.ImportPayload` | src/App.jsx:169-173 | a list is handed over only when non-empty; unparsable or null input is unreadable; an empty `employees` array is refused even when `goals` is present; no array and falsy `goals` is refused |
| `Codec.StringOr` | src/App.jsx:170 | a property with a fallback, read as a string: the fallback when the value is falsy, the string when it is a truthy string, refused otherwise |
| `Codec.LegacyEmployee` | src/App.jsx:170 | the synthesised employee carries the fresh id and a non-empty name, and comes only from a truthy `goals` |
| `Codec.LegacyAnyObject` | src/App.jsx:170 | any object without an `employees` array and with goal records under `goals` (even none) yields one employee under the fresh id, named by a truthy `employeeName` or "Importiert", dated by a truthy `date` or "", other keys ignored |
| `Codec.ImportAnyEnvelope` | src/App.jsx:170-171 | any object whose `employees` member is a non-empty array of employee records imports as exactly those records |
| `Codec.ExportImportRoundTrip` | src/App.jsx:154-171 | importing the exported envelope of a non-empty list yields the identical list |
| `Store.DocumentStore.constructor` | src/App.jsx:16-43 | starts from the stored list with the active id on its first id, or from one blank employee dated today with a null active id |
| `Store.DocumentStore.RepairActive` | src/App.jsx:58-62 | the list is unchanged and the active id afterwards names an employee |
| `Store.DocumentStore.Select` | src/App.jsx:208 | the active id is set to the given id, which is not checked |
| `Store.DocumentStore.Active` | src/App.jsx:80 | the resolved active employee: a member of the non-empty list, and the one the active id names when it names one |
| `Store.DocumentStore.Average` | src/App.jsx:182 | `AverageProgress` of the active employee's goals, within [0, 100] whenever all its goals are |
| `Store.DocumentStore.Saved` | src/App.jsx:64-67 | the storage slot the save effect writes, which the next start-up loads back as the same list |
| `Store.DocumentStore.Exported` | src/App.jsx:153-154 | the version-2 envelope around the saved array, which an import under any fresh id reads back as the same list |
| `Store.DocumentStore.AddEmployee` | src/App.jsx:91-97 | one blank employee is appended and made active; earlier records are unchanged |
| `Store.DocumentStore.InitiateDeleteEmployee` | src/App.jsx:99-103 | refused, with no change, exactly when one employee remains; otherwise the deletion is pending |
| `Store.DocumentStore.InitiateDeleteGoal` | src/App.jsx:130-132 | the goal deletion is pending; nothing else changes |
| `Store.DocumentStore.CancelDelete` | src/App.jsx:84 | the pending deletion is dropped; nothing else changes |
| `Store.DocumentStore.ExecuteDelete` | src/App.jsx:142-151 | an employee deletion filters the list and moves the active id as `ActiveIdAfterDelete` does; a goal deletion edits the active goals; the list stays non-empty, and an active id that named an employee still names one |
| `Store.PendingDeletionConfirmable` | src/App.jsx:99-103 | with distinct ids, the guard of `initiateDeleteEmployee` makes a pending employee deletion meet the precondition of `ExecuteDelete` |
| `Store.DocumentStore.UpdateActiveEmployee` | src/App.jsx:105-107 | the named field of the employees the raw active id names changes; active id and length are kept |
| `Store.DocumentStore.AddGoal` | src/App.jsx:109-111 | the list becomes `AddGoalTo` of the old list; the active id is kept |
| `Store.DocumentStore.UpdateGoal` | src/App.jsx:134-137 | the list becomes `UpdateGoalIn` of the old list; the active id is kept |
| `Store.DocumentStore.HandleImport` | src/App.jsx:163-178 | an imported list replaces the employees and its first id becomes active; a rejection changes nothing and reports the error |

## Left out

- Rendering, styling, the print stylesheet, the side-bar open flag (set by
  `addEmployee` and import), the dialog's title and message, and carousel
  scrolling are presentation only.
- Browser storage, `FileReader`, the download link, `window.print`, the
  unload guard, the "last saved" time and the timed notices are I/O and
  timers. The storage write is represented by `DocumentStore.Saved`.
  Notices are represented by the refusal flag and the `ImportError` result.
- JSON text is not modelled. Parsing is replaced by a parsed value or
  `None`, and printing by the `Json` value.
- Numbers are integers. Fractional ids or progress values, NaN, and
  floating-point error in `Math.round` are not modelled.
- The clock and today's date are parameters. The model does not make fresh
  ids distinct. Lemmas that need distinct ids say so.
- React's scheduling is not modelled. The fallback effect is the method
  `RepairActive`, which a caller runs after a change.
- The two initialisers each read storage. The model reads one stored value
  for both.
- `Codec.ImportPayload`: a record that is not employee-shaped is refused as
  `NotEmployeeShaped`. This covers a missing field, a wrongly typed field,
  a missing `goals`, or a truthy non-string `employeeName`. The source would
  store such a record as it is.
- `Codec.LoadStored`: stored data holding a record that is not
  employee-shaped falls back to the default. The source would use it as it is.
- `Store.DocumentStore.ExecuteDelete`: an employee deletion requires that
  the filter leaves an employee. When colliding ids make the filter remove
  every record, the source reads `newEmployees[0].id` and fails if the
  deleted employee was active, and otherwise stores an empty list. Neither
  outcome is modelled.
- Extra fields: the records hold exactly the fields the editor uses. The
  source keeps any other field of an imported or stored record through the
  spread edits, the save and the export. `DecodeEmployee` and `DecodeGoal`
  drop such fields, so the round trips hold for the typed records only.
