# Overtime management: a Dafny model of the business rules

The application keeps three tables: departments, employees and overtime
entries. It has a paged employee listing and a paged overtime listing,
create/edit/delete actions for employees and overtime entries, and a
read-only dashboard. This project models the rules those actions apply and
proves them:

- the declarative field constraints that `ModelState.IsValid` checks, with
  the ModelState errors they produce;
- NIK uniqueness, checked on create against every row and on edit against
  every row but the edited one;
- the referential guard on employee delete;
- the overtime hours rule: actual hours = finish − start, at most 3 hours,
  calculated (payable) hours = 2 × actual;
- the listings, newest first, 10 rows per page, `page ?? 1`;
- the dashboard counts, the hour total with its default of 0, and the five
  latest entries.

The storage session (`Database.Context`) holds the three tables as sequences
of rows in storage order. Its `Valid()` invariant says that primary keys and
NIK are unique. Each Create, Edit and Delete action is a method that takes
the session and changes the tables only through `modifies db`; the listings
and the dashboard are functions of the table contents. The wall-clock "now" and
the id the database assigns on insert are parameters. Entities are values:
the source assigns the fields of a tracked entity in place, and the model
replaces that row in the table instead. A `DateTime` is a count of
100-nanosecond ticks, and hours are exact reals (ticks / 36 000 000 000).
The `[EmailAddress]` format check is a parameter `isEmail: string -> bool`.

Modules: `Wrappers` (Option), `Tables` (Find, Remove and unique keys on a
table), `Entities` (the record shapes and their constraints), `Listing`
(OrderByDescending, paging, Take), `Results` (the action outcomes),
`Database` (the session and its invariant), `EmployeeController`,
`OvertimeController`, `HomeController`.

Behaviour of the code that the model keeps:

- An Edit whose id is not in the table re-displays the form with no error.
- The duplicate-NIK check in Edit runs before the lookup.
- Only an absent page number defaults to 1. A page below 1 is refused by the
  paging library.
- Create stores the submitted ModifiedDate as bound.
- A finish before the start is accepted, and its negative hours are stored
  (`OvertimeController.FinishBeforeStartPassesCap`).

## Model

| member | source | states |
|---|---|---|
| `Entities.DepartmentErrors` | Models/OvertimeManagementContext.cs:16-19 | no ModelState error exactly when the department name is present, not blank, and at most 100 UTF-16 code units long |
| `Entities.EmployeeErrors` | Models/OvertimeManagementContext.cs:31-54 | no ModelState error exactly when NIK (≤ 20), name (≤ 150) and position (≤ 50) are present and within length in UTF-16 code units, and email is present and passes the format check; each error is keyed to one of those properties |
| `Entities.OvertimeErrors` | Models/OvertimeManagementContext.cs:104-106 | no ModelState error exactly when the description is absent or at most 500 UTF-16 code units long |
| `Entities.IsWhiteSpace` | Models/OvertimeManagementContext.cs:17 | the characters .NET's char.IsWhiteSpace accepts, which `Trim()` strips in the [Required] check: the Unicode space, line and paragraph separators and the controls U+0009–U+000D and U+0085 |
| `Entities.Required` | Models/OvertimeManagementContext.cs:17 | [Required] on a string: present and holding a character that is not .NET white space |
| `Entities.RequiredCases` | Models/OvertimeManagementContext.cs:17 | null, empty and white-space-only values fail [Required]; a value with surrounding spaces passes |
| `Entities.Utf16Length` | Models/OvertimeManagementContext.cs:18 | a string's .NET length counts one code unit per character in the Basic Multilingual Plane and two for each character outside it, so it lies between the character count and twice that |
| `Entities.BmpUtf16Length` | Models/OvertimeManagementContext.cs:18 | a string of Basic Multilingual Plane characters has as many code units as characters |
| `Entities.AstralUtf16Length` | Models/OvertimeManagementContext.cs:18 | a string of characters outside the Basic Multilingual Plane has two code units per character |
| `Entities.WithinLength` | Models/OvertimeManagementContext.cs:33 | [StringLength(n)]: null passes, otherwise at most n UTF-16 code units |
| `Entities.ElevenEmojiOverNikLength` | Models/OvertimeManagementContext.cs:32-33 | a NIK of 11 emoji passes [Required] but fails [StringLength(20)], being 22 code units long |
| `Entities.EmailFormat` | Models/OvertimeManagementContext.cs:52-53 | [EmailAddress]: null passes, otherwise the format check decides |
| `Entities.ValidDepartment` | Models/OvertimeManagementContext.cs:16-19 | ModelState.IsValid for a department: the name is required and at most 100 code units |
| `Entities.ValidEmployee` | Models/OvertimeManagementContext.cs:31-54 | ModelState.IsValid for an employee: NIK, name, position and email required, the three lengths kept, the email well formed |
| `Entities.ValidOvertime` | Models/OvertimeManagementContext.cs:104-106 | ModelState.IsValid for an overtime entry: the description within 500 code units |
| `Entities.NikTaken` | Controllers/EmployeeController.cs:79 | some row other than the one with the given id holds the NIK; with no id, any row holding it |
| `Entities.NewEmployee` | Models/OvertimeManagementContext.cs:62-66 | a freshly built employee has CreatedDate = now and no ModifiedDate, and it fails validation whatever the email check |
| `Entities.NewOvertime` | Models/OvertimeManagementContext.cs:108-112 | a freshly built overtime entry has CreatedDate = now and no ModifiedDate, and it passes validation |
| `Entities.AppendKeepsNikUnique` | Models/OvertimeManagementContext.cs:34 | adding a row whose NIK no row has keeps NIK a unique key of the table |
| `Entities.OwnNikNeverTaken` | Controllers/EmployeeController.cs:78-84 | under unique NIKs, resubmitting a row's own NIK with its own id is never reported as a duplicate |
| `Database.Context.Valid` | Models/OvertimeManagementContext.cs:34 | primary keys are unique in the three tables, and NIK, which has a unique index, is unique among employees |
| `Database.Context.constructor` | Models/OvertimeManagementContext.cs:120-130 | a new session over an empty store has three empty tables and satisfies the key invariant; its Overtime table is empty, so `OvertimeController.HoursInvariant` holds of it trivially |
| `Tables.Find` | Controllers/EmployeeController.cs:86 | Find returns a position holding the key, and returns nothing exactly when no row has the key |
| `Tables.FindUnique` | Controllers/EmployeeController.cs:115 | under a unique key, Find of a row's key returns that row's position |
| `Tables.RemoveAt` | Controllers/EmployeeController.cs:125 | removal drops one row, keeps the others in order, and removes exactly one copy of that row |
| `Tables.RemoveExactlyKey` | Controllers/OvertimeController.cs:118-122 | under a unique key, the rows left after removal are exactly the rows whose key differs from the removed one's |
| `Tables.RemoveKeepsDistinct` | Controllers/EmployeeController.cs:125-126 | removing a row keeps every unique key unique |
| `Tables.ReplaceKeepsDistinct` | Controllers/EmployeeController.cs:86-98 | replacing a row by one with the same id keeps ids unique |
| `Tables.AppendKeepsDistinct` | Controllers/EmployeeController.cs:51-52 | appending a row with an unused key keeps that key unique |
| `Listing.Insert` | Controllers/EmployeeController.cs:20 | inserting into a non-increasing listing gives a non-increasing listing with one more copy of the row |
| `Listing.SortDesc` | Controllers/EmployeeController.cs:20 | OrderByDescending yields a non-increasing permutation of the table |
| `Listing.PageNumber` | Controllers/EmployeeController.cs:17 | `page ?? 1`: no page is page 1, a given page is used as is |
| `Listing.Page` | Controllers/EmployeeController.cs:21 | page p holds min(10, rows left) rows, the rows at positions (p − 1) × 10 onwards |
| `Listing.Take` | Controllers/HomeController.cs:30 | Take(n) yields the first min(n, count) rows |
| `Listing.SliceOfSorted` | Controllers/OvertimeController.cs:22-23 | a page of a sorted listing is sorted and holds only rows of the table |
| `Listing.RowOnItsPage` | Controllers/EmployeeController.cs:21 | every row of a listing is on page i / 10 + 1 at place i mod 10 |
| `Listing.PagePastEndEmpty` | Controllers/EmployeeController.cs:21 | a page past the last one is empty, not an error |
| `Listing.SortedPage` | Controllers/EmployeeController.cs:18-21 | a page of a listing ordered by a descending key holds at most 10 rows, is sorted, draws its rows from the table, and holds the rows at the page's positions of the descending order |
| `Listing.TakeOfSortedKeepsLater` | Controllers/HomeController.cs:29-30 | the first n rows of a sorted listing are sorted, come from the listing, and omit no row with a strictly later key than the last one taken |
| `EmployeeController.Index` | Controllers/EmployeeController.cs:15-24 | min(10, rows left after (p − 1) × 10) employees, none past the last page, newest-created first, all from the table, exactly those at the page's positions of the descending order |
| `EmployeeController.Overwrite` | Controllers/EmployeeController.cs:86-96 | Edit overwrites exactly NIK, name, department, position, email and both flags, stamps ModifiedDate = now, and keeps the id and CreatedDate |
| `EmployeeController.OverwriteUnchanged` | Controllers/EmployeeController.cs:89-96 | resubmitting an employee unchanged only stamps ModifiedDate |
| `EmployeeController.ReplaceKeepsNikUnique` | Controllers/EmployeeController.cs:79-98 | a NIK that passed the duplicate check may replace the edited row's NIK without breaking NIK uniqueness |
| `EmployeeController.HasOvertime` | Controllers/EmployeeController.cs:120 | some overtime entry references the employee id |
| `EmployeeController.Create` | Controllers/EmployeeController.cs:38-58 | invalid model: the form with its errors and no change; NIK present in any row: the NIK error and no change; else exactly one row appended with the new id and CreatedDate = now; keys and NIK stay unique; the other tables are unchanged |
| `EmployeeController.Edit` | Controllers/EmployeeController.cs:74-105 | invalid model: no change; NIK held by a row with another id: the NIK error and no change; unknown id: the form with no error and no change; else only the row with that id is overwritten, as `Overwrite` says; keys and NIK stay unique |
| `EmployeeController.Delete` | Controllers/EmployeeController.cs:111-128 | unknown id: "Employee not found" and no change; an overtime entry references it: refusal and no change; else exactly that employee is removed; keys and NIK stay unique |
| `OvertimeController.CalculateOTHours` | Controllers/OvertimeController.cs:128-132 | hours × ticks-per-hour equals finish − start: the span in exact hours |
| `OvertimeController.CapInTicks` | Controllers/OvertimeController.cs:13 | the hours pass the 3-hour cap exactly when finish − start is at most three hours of ticks, so exactly 3 hours passes |
| `OvertimeController.TwoHoursFifteenMinutes` | Controllers/OvertimeController.cs:128-132 | 2 h 15 min gives 2.25 actual hours and 4.5 calculated hours |
| `OvertimeController.ThreeHoursOneMinuteOverCap` | Controllers/OvertimeController.cs:45-50 | 3 h 1 min is over the cap |
| `OvertimeController.FinishBeforeStartPassesCap` | Controllers/OvertimeController.cs:45 | a finish before the start gives negative hours, which pass the cap |
| `OvertimeController.HoursConsistent` | Controllers/OvertimeController.cs:43-54 | a stored entry's actual hours are its start-to-finish span, at most 3, and its calculated hours twice that |
| `OvertimeController.HoursInvariant` | Controllers/OvertimeController.cs:43-54 | every stored entry has consistent hours |
| `OvertimeController.Index` | Controllers/OvertimeController.cs:16-26 | min(10, rows left after (p − 1) × 10) entries, none past the last page, latest overtime date first, all from the table, exactly those at the page's positions of the descending order |
| `OvertimeController.NewRow` | Controllers/OvertimeController.cs:52-54 | Create stores actual = computed hours within the cap, calculated = 2 × actual, CreatedDate = now, the new id, and the submitted employee, date, start, finish and description |
| `OvertimeController.Overwrite` | Controllers/OvertimeController.cs:95-102 | Edit overwrites exactly employee, date, start, finish and description, recomputes both hour fields from the submitted start and finish, stamps ModifiedDate = now, and keeps the id and CreatedDate |
| `OvertimeController.EditUnchangedRoundTrip` | Controllers/OvertimeController.cs:92-102 | editing a created entry with its own values leaves every field but ModifiedDate as created |
| `OvertimeController.Create` | Controllers/OvertimeController.cs:39-63 | invalid model: no change; hours over 3: the ActualOTHours error and no change; else exactly one row appended, as `NewRow` says; ids stay unique and every stored entry keeps consistent hours |
| `OvertimeController.Edit` | Controllers/OvertimeController.cs:79-111 | invalid model or hours over 3: no change; unknown id: the form with no error and no change; else only the row with that id is overwritten, as `Overwrite` says; the hour invariant is kept |
| `OvertimeController.Delete` | Controllers/OvertimeController.cs:116-125 | unknown id: "Overtime not found" and no change; else exactly that entry is removed, with no guard; the hour invariant is kept |
| `HomeController.SumActual` | Controllers/HomeController.cs:18 | the arithmetic sum of ActualOTHours over the entries, 0 over none |
| `HomeController.NullableSum` | Controllers/HomeController.cs:18 | the SQL sum is NULL exactly on an empty table, and otherwise the sum of actual hours |
| `HomeController.TotalOTHours` | Controllers/HomeController.cs:18 | the total is the sum of actual hours, and 0 when there are no entries |
| `HomeController.Recent` | Controllers/HomeController.cs:26-31 | exactly min(5, count) entries, latest date first, all stored entries, and no entry dated strictly later than the last one listed is left out |
| `HomeController.Index` | Controllers/HomeController.cs:12-34 | the counts are the sizes of the three tables, the total is the sum of actual hours, and the recent list holds min(5, count) entries, latest date first, all stored entries, leaving out none dated strictly later than the last one listed; a function of the table contents, so no table changes |
| `HomeController.SumAppend` | Controllers/HomeController.cs:18 | the sum of actual hours over two runs of entries is the sum of their sums |
| `HomeController.SumRemoveAt` | Controllers/HomeController.cs:18 | removing an entry lowers the sum by its actual hours |
| `HomeController.TotalWithinCap` | Controllers/HomeController.cs:18 | when every entry keeps the cap, the total is at most 3 hours per entry |
| `HomeController.AfterCreate` | Controllers/HomeController.cs:15-18 | after an overtime row is added, the dashboard counts one more entry and adds its actual hours |
| `HomeController.AfterDelete` | Controllers/HomeController.cs:15-18 | after an overtime row is removed, the dashboard counts one entry less and drops its actual hours |

## Left out

- Storage failures: the `catch (Exception)` in employee Delete (Controllers/EmployeeController.cs:130-133) turns one into an "Error: …" message. The model has no storage fault to catch.
- `EmployeeController.Index`, `OvertimeController.Index`: require a page number of at least 1, because the paging library throws for a smaller one and its behaviour there is not part of this model.
- `OvertimeController.CalculateOTHours`: the hours are exact, while the source goes through a double (`TimeSpan.TotalHours`) and a decimal conversion, and the decimal column's storage precision is not modelled.
- DateTime range limits: ticks are unbounded integers.
- `Entities.EmployeeErrors`: the `[EmailAddress]` regular expression is a parameter of the model. The binder's conversion of empty strings to null, and binding errors for unparsable values, are not modelled. The submitted entity is taken as bound.
- Order of equal keys: `OrderByDescending` runs in the database, which may order rows with equal timestamps in any way. The model fixes one such order, table order among equals.
- Eager loading of navigation properties (`Include("Department")`, `Include("Employee")`, `Include("Employee.Department")`) in the listings and the dashboard: the model returns the rows without their related rows. The relationships are required, so the query joins may leave out a row whose employee or department does not exist. The listings and the recent entries are modelled on the assumption that every referenced employee and department exists, while the counts and the hour total take every row.
- The GET actions that only display a form or look a row up for display (`Create()`, `Edit(int id)`), `LoadDepartments`, `LoadEmployees`, `Dispose`, view rendering and routing. The two blank records the GET Create actions build are `Entities.NewEmployee` and `Entities.NewOvertime`.
- The `OvertimeManagementContext` class itself: its constructor settings, `OnModelCreating`, `Create()` and the command timeout.
- `EmployeeController.Edit`: the submitted EmployeeId is nullable in the source. The model takes it as an integer, so the case of a form that posts no id is not covered.
- Id assignment: the id the database gives an inserted row is a parameter, required to be unused.
- Concurrency: the check-then-insert race on NIK between simultaneous requests is not modelled. Each action runs alone on the session.
- Foreign keys in storage: the schema's foreign-key constraints are not part of this model. Create and Edit store an employee whose department does not exist, or an overtime entry whose employee does not exist, where the database would refuse the save with an unhandled error.
- `Listing.FirstRow`: the skip is computed without 32-bit wrap-around. The paging library (not part of this model) computes (pageNumber − 1) × 10 in 32-bit arithmetic, so a page number above 214 748 365 wraps the skip. The model says such a page is empty, and what the library shows there is not modelled.
- `Listing.PagePastEndEmpty`: holds of the unbounded skip only; see `Listing.FirstRow`.
- `HomeController.Index`: the `ToString` formatting of the hour total is not modelled.
