/**
 * The storage session a controller holds (its `db` field): the Department,
 * Employee and Overtime tables, and the keys the schema declares on them.
 */
module Database {
  import opened Entities
  import opened Tables

  function DepartmentId(d: Department): int { d.id }
  function EmployeeId(e: Employee): int { e.id }
  function OvertimeId(o: Overtime): int { o.id }

  class Context {
    var departments: seq<Department>
    var employees: seq<Employee>
    var overtimes: seq<Overtime>

    /** A session over an empty store: three empty tables, which satisfy every key. */
    constructor()
      ensures departments == [] && employees == [] && overtimes == []
      ensures Valid()
    {
      departments, employees, overtimes := [], [], [];
    }

    /** Primary keys are unique in every table, and so is NIK in the Employee table. */
    ghost predicate Valid()
      reads this
    {
      && Distinct(departments, DepartmentId)
      && Distinct(employees, EmployeeId)
      && NikUnique(employees)
      && Distinct(overtimes, OvertimeId)
    }
  }
}
