/** The three persisted entities and the column constraints of their tables.
    A column declared nullable has an Option type, except `employee.nss`
    (see `Employee`); every other column is non-null by construction. */
module Models {
  import opened Wrappers

  /** A calendar date as a day number (days since a fixed epoch), so that
      the difference of two dates is a number of days. */
  type Date = int

  /** Table `municipality`: `name` is non-null and unique. */
  datatype Municipality = Municipality(id: nat, name: string)

  /** Table `position`: `name` is non-null and unique, `base_salary` is
      non-null. */
  datatype Position = Position(id: nat, name: string, baseSalary: real)

  /** Table `employee`. `id` is None until the store assigns one. `nss`
      is nullable and carries no uniqueness constraint of its own, but
      every writer supplies an integer, so it is an `int` here; the foreign
      keys, the three name parts, `birth_date` and `employee_type` are
      non-null; `hourly_rate` and `hours_worked` are nullable. */
  datatype Employee = Employee(
    id: Option<nat>,
    nss: int,
    firstName: string,
    lastNameF: string,
    lastNameM: string,
    birthDate: Date,
    employeeType: string,
    positionId: int,
    municipalityId: int,
    hourlyRate: Option<real>,
    hoursWorked: Option<int>)

  const BASE: string := "BASE"
  const HONORARY: string := "HONORARY"

  predicate HasId(e: Employee, id: int) {
    e.id.Some? && e.id.value == id
  }

  /** Primary keys distinct, names distinct. */
  ghost predicate MunicipalityTableOk(t: seq<Municipality>) {
    forall i, j :: 0 <= i < j < |t| ==> t[i].id != t[j].id && t[i].name != t[j].name
  }

  /** Primary keys distinct, names distinct. */
  ghost predicate PositionTableOk(t: seq<Position>) {
    forall i, j :: 0 <= i < j < |t| ==> t[i].id != t[j].id && t[i].name != t[j].name
  }

  /** Every stored employee has a primary key and the keys are distinct.
      Nothing here constrains `nss`. */
  ghost predicate EmployeeTableOk(t: seq<Employee>) {
    && (forall i :: 0 <= i < |t| ==> t[i].id.Some?)
    && (forall i, j :: 0 <= i < j < |t| ==> t[i].id != t[j].id)
  }

  /** The employee table admits two rows with the same NSS: uniqueness of
      NSS is a rule of the registration service, not of the table. */
  lemma NssIsNotAColumnConstraint()
    ensures exists t: seq<Employee> :: EmployeeTableOk(t) && |t| == 2 && t[0].nss == t[1].nss
  {
    var e := Employee(Some(1), 1001, "Ana", "Lopez", "Perez", 0, BASE, 1, 1, Some(10.0), Some(0));
    var t := [e, e.(id := Some(2))];
    assert EmployeeTableOk(t);
  }
}
