/**
 * EmployeeController: the paged employee listing and the Create, Edit and
 * Delete actions on the Employee table. Each action takes the session `db`,
 * the wall-clock `now` and, for Create, the id the database assigns.
 */
module EmployeeController {
  import opened Wrappers
  import opened Entities
  import opened Tables
  import opened Listing
  import opened Results
  import opened Database

  const DuplicateNik := ModelError("NIK", "NIK already exists")

  function CreatedDate(e: Employee): int { e.createdDate }

  /** GET Employee/Index: page `page ?? 1` of the employees, newest-created first. */
  function Index(db: Context, page: Option<int>): (r: seq<Employee>)
    reads db
    requires PageNumber(page) >= 1
    ensures |r| <= PageSize
    ensures |r| == if FirstRow(PageNumber(page)) >= |db.employees| then 0
                   else Min(PageSize, |db.employees| - FirstRow(PageNumber(page)))
    ensures SortedDesc(r, CreatedDate)
    ensures multiset(r) <= multiset(db.employees)
    ensures forall i :: 0 <= i < |r| ==>
              && FirstRow(PageNumber(page)) + i < |db.employees|
              && r[i] == SortDesc(db.employees, CreatedDate)[FirstRow(PageNumber(page)) + i]
  {
    SortedPage(db.employees, CreatedDate, PageNumber(page));
    Page(SortDesc(db.employees, CreatedDate), PageNumber(page))
  }

  /** The properties Edit copies from the submitted employee onto the stored one. */
  predicate SameEditableFields(a: Employee, b: Employee)
  {
    && a.nik == b.nik && a.name == b.name && a.departmentId == b.departmentId
    && a.position == b.position && a.email == b.email
    && a.hasLaptop == b.hasLaptop && a.hasMealAllowance == b.hasMealAllowance
  }

  /** The stored employee after a successful Edit: the editable properties come
      from the submission, ModifiedDate is now, and nothing else changes. */
  function Overwrite(existing: Employee, submitted: Employee, now: Ticks): (r: Employee)
    ensures SameEditableFields(r, submitted)
    ensures r.id == existing.id && r.createdDate == existing.createdDate
    ensures r.modifiedDate == Some(now)
  {
    existing.(nik := submitted.nik, name := submitted.name, departmentId := submitted.departmentId,
              position := submitted.position, email := submitted.email,
              hasLaptop := submitted.hasLaptop, hasMealAllowance := submitted.hasMealAllowance,
              modifiedDate := Some(now))
  }

  /** Resubmitting a stored employee unchanged only stamps ModifiedDate. */
  lemma OverwriteUnchanged(existing: Employee, now: Ticks)
    ensures Overwrite(existing, existing, now) == existing.(modifiedDate := Some(now))
  {
  }

  /** Replacing row i by a row with the same id whose NIK no other row has keeps NIK unique. */
  lemma ReplaceKeepsNikUnique(employees: seq<Employee>, i: nat, row: Employee)
    requires Distinct(employees, EmployeeId) && NikUnique(employees)
    requires i < |employees| && row.id == employees[i].id
    requires !NikTaken(employees, row.nik, Some(row.id))
    ensures NikUnique(employees[i := row])
  {
    var s := employees[i := row];
    forall a, b | 0 <= a < b < |s| ensures s[a].nik != s[b].nik {
      if a == i {
        assert employees[i].id != employees[b].id;
        assert s[b] == employees[b];
      } else if b == i {
        assert employees[a].id != employees[i].id;
        assert s[a] == employees[a];
      } else {
        assert s[a] == employees[a] && s[b] == employees[b];
      }
    }
  }

  /** POST Employee/Create. */
  method Create(db: Context, employee: Employee, isEmail: string -> bool, now: Ticks, newId: int)
    returns (r: ActionResult)
    requires db.Valid()
    requires Find(db.employees, EmployeeId, newId).None?
    modifies db
    ensures db.Valid()
    ensures db.departments == old(db.departments) && db.overtimes == old(db.overtimes)
    ensures !ValidEmployee(employee, isEmail) ==>
              r == FormView(EmployeeErrors(employee, isEmail)) && db.employees == old(db.employees)
    ensures ValidEmployee(employee, isEmail) && NikTaken(old(db.employees), employee.nik, None) ==>
              r == FormView([DuplicateNik]) && db.employees == old(db.employees)
    ensures ValidEmployee(employee, isEmail) && !NikTaken(old(db.employees), employee.nik, None) ==>
              r == RedirectToIndex &&
              db.employees == old(db.employees) + [employee.(id := newId, createdDate := now)]
  {
    if !ValidEmployee(employee, isEmail) {
      return FormView(EmployeeErrors(employee, isEmail));
    }
    if NikTaken(db.employees, employee.nik, None) {
      return FormView([DuplicateNik]);
    }
    var row := employee.(id := newId, createdDate := now);
    AppendKeepsDistinct(db.employees, EmployeeId, row);
    AppendKeepsNikUnique(db.employees, row);
    db.employees := db.employees + [row];
    r := RedirectToIndex;
  }

  /** POST Employee/Edit. The duplicate check runs before the lookup, and an id
      that is not in the table re-displays the form without an error. */
  method Edit(db: Context, employee: Employee, isEmail: string -> bool, now: Ticks)
    returns (r: ActionResult)
    requires db.Valid()
    modifies db
    ensures db.Valid()
    ensures db.departments == old(db.departments) && db.overtimes == old(db.overtimes)
    ensures !ValidEmployee(employee, isEmail) ==>
              r == FormView(EmployeeErrors(employee, isEmail)) && db.employees == old(db.employees)
    ensures ValidEmployee(employee, isEmail) && NikTaken(old(db.employees), employee.nik, Some(employee.id)) ==>
              r == FormView([DuplicateNik]) && db.employees == old(db.employees)
    ensures ValidEmployee(employee, isEmail) && !NikTaken(old(db.employees), employee.nik, Some(employee.id)) ==>
              match Find(old(db.employees), EmployeeId, employee.id)
              case None => r == FormView([]) && db.employees == old(db.employees)
              case Some(i) =>
                r == RedirectToIndex &&
                db.employees == old(db.employees)[i := Overwrite(old(db.employees)[i], employee, now)]
  {
    if !ValidEmployee(employee, isEmail) {
      return FormView(EmployeeErrors(employee, isEmail));
    }
    if NikTaken(db.employees, employee.nik, Some(employee.id)) {
      return FormView([DuplicateNik]);
    }
    var found := Find(db.employees, EmployeeId, employee.id);
    if found.None? {
      return FormView([]);
    }
    var i := found.value;
    var row := Overwrite(db.employees[i], employee, now);
    ReplaceKeepsDistinct(db.employees, EmployeeId, i, row);
    ReplaceKeepsNikUnique(db.employees, i, row);
    db.employees := db.employees[i := row];
    r := RedirectToIndex;
  }

  /** Some overtime entry references employee id. */
  predicate HasOvertime(overtimes: seq<Overtime>, id: int)
  {
    exists k :: 0 <= k < |overtimes| && overtimes[k].employeeId == id
  }

  /** POST Employee/Delete. */
  method Delete(db: Context, id: int) returns (r: ActionResult)
    requires db.Valid()
    modifies db
    ensures db.Valid()
    ensures db.departments == old(db.departments) && db.overtimes == old(db.overtimes)
    ensures Find(old(db.employees), EmployeeId, id).None? ==>
              r == Json(false, "Employee not found") && db.employees == old(db.employees)
    ensures Find(old(db.employees), EmployeeId, id).Some? && HasOvertime(old(db.overtimes), id) ==>
              r == Json(false, "Cannot delete employee with overtime entry") && db.employees == old(db.employees)
    ensures Find(old(db.employees), EmployeeId, id).Some? && !HasOvertime(old(db.overtimes), id) ==>
              r == Json(true, "Employee deleted successfully") &&
              db.employees == RemoveAt(old(db.employees), Find(old(db.employees), EmployeeId, id).value)
    ensures r.Json? && r.success ==>
              forall e :: e in db.employees <==> e in old(db.employees) && e.id != id
  {
    var found := Find(db.employees, EmployeeId, id);
    if found.None? {
      return Json(false, "Employee not found");
    }
    if HasOvertime(db.overtimes, id) {
      return Json(false, "Cannot delete employee with overtime entry");
    }
    var i := found.value;
    RemoveKeepsDistinct(db.employees, EmployeeId, i);
    RemoveKeepsDistinct(db.employees, Nik, i);
    RemoveExactlyKey(db.employees, EmployeeId, i);
    db.employees := RemoveAt(db.employees, i);
    r := Json(true, "Employee deleted successfully");
  }
}
