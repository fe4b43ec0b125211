/**
 * Record shapes of the Department, Employee and Overtime tables, and the
 * declarative field constraints ([Required], [StringLength], [EmailAddress])
 * that model binding checks before a controller action runs
 * (ModelState.IsValid).
 */
module Entities {
  import opened Wrappers
  import opened Tables

  /** A DateTime, as a count of 100-nanosecond ticks. */
  type Ticks = int

  datatype Department = Department(id: int, name: Option<string>)

  datatype Employee = Employee(
    id: int,
    nik: Option<string>,
    name: Option<string>,
    departmentId: int,
    position: Option<string>,
    email: Option<string>,
    hasLaptop: bool,
    hasMealAllowance: bool,
    createdDate: Ticks,
    modifiedDate: Option<Ticks>)

  datatype Overtime = Overtime(
    id: int,
    employeeId: int,
    overtimeDate: Ticks,
    timeStart: Ticks,
    timeFinish: Ticks,
    actualOTHours: real,
    calculatedOTHours: real,
    description: Option<string>,
    createdDate: Ticks,
    modifiedDate: Option<Ticks>)

  /** One entry of the ModelState error dictionary: the property it is keyed to and its message. */
  datatype ModelError = ModelError(key: string, message: string)

  const DepartmentNameMaxLength: nat := 100
  const NikMaxLength: nat := 20
  const EmployeeNameMaxLength: nat := 150
  const PositionMaxLength: nat := 50
  const DescriptionMaxLength: nat := 500

  /** The characters .NET's char.IsWhiteSpace accepts: the Unicode separators
      (categories Zs, Zl, Zp) and the controls U+0009..U+000D and U+0085. */
  predicate IsWhiteSpace(c: char)
  {
    || ('\t' <= c <= '\r')
    || c == ' ' || c == '\U{0085}' || c == '\U{00A0}' || c == '\U{1680}'
    || ('\U{2000}' <= c <= '\U{200A}')
    || c == '\U{2028}' || c == '\U{2029}' || c == '\U{202F}' || c == '\U{205F}'
    || c == '\U{3000}'
  }

  /** [Required] on a string: not null and not empty or white space only. */
  predicate Required(s: Option<string>)
  {
    s.Some? && exists i :: 0 <= i < |s.value| && !IsWhiteSpace(s.value[i])
  }

  /** .NET's String.Length: the number of UTF-16 code units, two for each
      character outside the Basic Multilingual Plane (a surrogate pair). */
  function Utf16Length(s: string): (n: nat)
    ensures |s| <= n <= 2 * |s|
  {
    if s == [] then 0 else (if s[0] > '\U{FFFF}' then 2 else 1) + Utf16Length(s[1..])
  }

  /** A string of Basic Multilingual Plane characters is as long in code units as in characters. */
  lemma {:induction false} BmpUtf16Length(s: string)
    requires forall i :: 0 <= i < |s| ==> s[i] <= '\U{FFFF}'
    ensures Utf16Length(s) == |s|
  {
    if s != [] {
      BmpUtf16Length(s[1..]);
    }
  }

  /** A string of characters outside the Basic Multilingual Plane takes two code units per character. */
  lemma {:induction false} AstralUtf16Length(s: string)
    requires forall i :: 0 <= i < |s| ==> s[i] > '\U{FFFF}'
    ensures Utf16Length(s) == 2 * |s|
  {
    if s != [] {
      AstralUtf16Length(s[1..]);
    }
  }

  /** [StringLength(max)]: a null value passes; otherwise at most max UTF-16 code units. */
  predicate WithinLength(s: Option<string>, max: nat)
  {
    s.None? || Utf16Length(s.value) <= max
  }

  /** Eleven emoji are eleven characters but 22 code units: over the NIK limit of 20. */
  lemma ElevenEmojiOverNikLength(nik: string)
    requires |nik| == 11
    requires forall i :: 0 <= i < |nik| ==> nik[i] == '\U{1F600}'
    ensures Required(Some(nik))
    ensures !WithinLength(Some(nik), NikMaxLength)
  {
    AstralUtf16Length(nik);
    assert !IsWhiteSpace(nik[0]);
  }

  /** What [Required] accepts: null, empty and white-space-only strings fail,
      text with surrounding white space passes. */
  lemma RequiredCases()
    ensures !Required(None) && !Required(Some(""))
    ensures !Required(Some(" \t\r\n\U{00A0}\U{3000}"))
    ensures Required(Some("  Jane  "))
  {
    var padded := "  Jane  ";
    assert !IsWhiteSpace(padded[2]);
  }

  /** [EmailAddress]: a null value passes; otherwise the framework's format check,
      which is a parameter of the model. */
  predicate EmailFormat(s: Option<string>, isEmail: string -> bool)
  {
    s.None? || isEmail(s.value)
  }

  predicate ValidDepartment(d: Department)
  {
    Required(d.name) && WithinLength(d.name, DepartmentNameMaxLength)
  }

  predicate ValidEmployee(e: Employee, isEmail: string -> bool)
  {
    && Required(e.nik) && WithinLength(e.nik, NikMaxLength)
    && Required(e.name) && WithinLength(e.name, EmployeeNameMaxLength)
    && Required(e.position) && WithinLength(e.position, PositionMaxLength)
    && Required(e.email) && EmailFormat(e.email, isEmail)
  }

  predicate ValidOvertime(o: Overtime)
  {
    WithinLength(o.description, DescriptionMaxLength)
  }

  /** The errors one attribute adds to ModelState: none when it holds, one otherwise. */
  function Check(holds: bool, key: string, message: string): (errs: seq<ModelError>)
    ensures holds <==> errs == []
    ensures forall err :: err in errs ==> err.key == key
  {
    if holds then [] else [ModelError(key, message)]
  }

  /** The ModelState errors of a submitted department. */
  function DepartmentErrors(d: Department): (errs: seq<ModelError>)
    ensures errs == [] <==> ValidDepartment(d)
    ensures forall err :: err in errs ==> err.key == "DepartmentName"
  {
    Check(Required(d.name), "DepartmentName", "Department name is required")
    + Check(WithinLength(d.name, DepartmentNameMaxLength), "DepartmentName",
            "The field DepartmentName must be a string with a maximum length of 100.")
  }

  /** The ModelState errors of a submitted employee, in declaration order. */
  function EmployeeErrors(e: Employee, isEmail: string -> bool): (errs: seq<ModelError>)
    ensures errs == [] <==> ValidEmployee(e, isEmail)
    ensures forall err :: err in errs ==> err.key in {"NIK", "EmployeeName", "Position", "Email"}
  {
    Check(Required(e.nik), "NIK", "NIK is required")
    + Check(WithinLength(e.nik, NikMaxLength), "NIK",
            "The field NIK must be a string with a maximum length of 20.")
    + Check(Required(e.name), "EmployeeName", "Employee name is required")
    + Check(WithinLength(e.name, EmployeeNameMaxLength), "EmployeeName",
            "The field EmployeeName must be a string with a maximum length of 150.")
    + Check(Required(e.position), "Position", "Position is required")
    + Check(WithinLength(e.position, PositionMaxLength), "Position",
            "The field Position must be a string with a maximum length of 50.")
    + Check(Required(e.email), "Email", "Email is required")
    + Check(EmailFormat(e.email, isEmail), "Email",
            "The Email field is not a valid e-mail address.")
  }

  /** The ModelState errors of a submitted overtime entry. The [Required]
      attributes of its other properties are on value types; binding errors for
      a value the binder could not fill are not part of this model. */
  function OvertimeErrors(o: Overtime): (errs: seq<ModelError>)
    ensures errs == [] <==> ValidOvertime(o)
    ensures forall err :: err in errs ==> err.key == "Description"
  {
    Check(WithinLength(o.description, DescriptionMaxLength), "Description",
          "The field Description must be a string with a maximum length of 500.")
  }

  /** The blank employee of the Create form: property initialisers plus EmployeeId = 0. */
  function NewEmployee(now: Ticks): (e: Employee)
    ensures e.modifiedDate.None? && e.createdDate == now
    ensures forall isEmail :: !ValidEmployee(e, isEmail)
  {
    Employee(0, None, None, 0, None, None, false, false, now, None)
  }

  /** The blank overtime entry of the Create form: every value type at its default. */
  function NewOvertime(now: Ticks): (o: Overtime)
    ensures o.modifiedDate.None? && o.createdDate == now
    ensures ValidOvertime(o)
  {
    Overtime(0, 0, 0, 0, 0, 0.0, 0.0, None, now, None)
  }

  /** NIK is a unique key of the Employee table: no two rows share one. */
  ghost predicate NikUnique(employees: seq<Employee>)
  {
    Distinct(employees, Nik)
  }

  function Nik(e: Employee): Option<string> { e.nik }

  /** A row of the Employee table other than the one with id `self` has NIK `nik`. */
  predicate NikTaken(employees: seq<Employee>, nik: Option<string>, self: Option<int>)
  {
    exists i :: 0 <= i < |employees| && employees[i].nik == nik && Some(employees[i].id) != self
  }

  /** Resubmitting a row's own NIK under its own id never collides. */
  lemma OwnNikNeverTaken(employees: seq<Employee>, k: nat, id: int)
    requires NikUnique(employees)
    requires k < |employees| && employees[k].id == id
    ensures !NikTaken(employees, employees[k].nik, Some(id))
  {
    forall i | 0 <= i < |employees| && employees[i].nik == employees[k].nik
      ensures i == k
    {
    }
  }

  /** Appending a row whose NIK is not taken keeps NIK unique. */
  lemma AppendKeepsNikUnique(employees: seq<Employee>, e: Employee)
    requires NikUnique(employees)
    requires !NikTaken(employees, e.nik, None)
    ensures NikUnique(employees + [e])
  {
    AppendKeepsDistinct(employees, Nik, e);
  }
}
