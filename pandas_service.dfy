/** The flat table the pandas views and the CSV export are built from: one
    record per employee with the related names resolved, the birth date
    coerced to a timestamp and the age in whole years of 365 days. */
module PandasService {
  import opened Wrappers
  import opened Models
  import Repository

  /** One row of the DataFrame. `birthDate` and `age` are None where
      `to_datetime(errors="coerce")` gave NaT. */
  datatype FlatRecord = FlatRecord(
    nss: int,
    firstName: string,
    lastNameF: string,
    lastNameM: string,
    position: Option<string>,
    municipality: Option<string>,
    employeeType: string,
    hourlyRate: Option<real>,
    hoursWorked: Option<int>,
    birthDate: Option<Date>,
    age: Option<int>)

  /** `pd.DataFrame([])` has no columns, so selecting `birth_date` raises
      KeyError. */
  datatype FrameError = NoBirthDateColumn

  /** Whole years of 365 days between a birth date and today: Python's floor
      division of the day difference. */
  function Age(today: Date, birth: Date): (r: int)
    ensures 365 * r <= today - birth < 365 * (r + 1)
  {
    (today - birth) / 365
  }

  /** The name of the employee's position, None without a position row. */
  function PositionName(positions: seq<Position>, e: Employee): (r: Option<string>)
    ensures r.Some? <==> Repository.GetPosition(positions, e.positionId).Some?
    ensures r.Some? ==> r.value == Repository.GetPosition(positions, e.positionId).value.name
  {
    match Repository.GetPosition(positions, e.positionId)
    case None => None
    case Some(p) => Some(p.name)
  }

  /** The name of the employee's municipality, None without a municipality row. */
  function MunicipalityName(municipalities: seq<Municipality>, e: Employee): (r: Option<string>)
    ensures r.Some? <==> Repository.GetMunicipality(municipalities, e.municipalityId).Some?
    ensures r.Some? ==> r.value == Repository.GetMunicipality(municipalities, e.municipalityId).value.name
  {
    match Repository.GetMunicipality(municipalities, e.municipalityId)
    case None => None
    case Some(m) => Some(m.name)
  }

  /** The dict the loop appends for one employee, before the date columns
      are rewritten. */
  function Projection(positions: seq<Position>, municipalities: seq<Municipality>, e: Employee)
    : FlatRecord
  {
    FlatRecord(e.nss, e.firstName, e.lastNameF, e.lastNameM,
               PositionName(positions, e), MunicipalityName(municipalities, e),
               e.employeeType, e.hourlyRate, e.hoursWorked, Some(e.birthDate), None)
  }

  /** The finished row: the projection with the coerced birth date and the
      age derived from it. `toTimestamp` stands for
      `pd.to_datetime(_, errors="coerce")`; `today` is the current day. */
  function Record(positions: seq<Position>, municipalities: seq<Municipality>,
                  today: Date, toTimestamp: Date -> Option<Date>, e: Employee): (r: FlatRecord)
    ensures r.nss == e.nss && r.firstName == e.firstName && r.lastNameF == e.lastNameF
    ensures r.lastNameM == e.lastNameM && r.employeeType == e.employeeType
    ensures r.hourlyRate == e.hourlyRate && r.hoursWorked == e.hoursWorked
    ensures r.position == PositionName(positions, e)
    ensures r.municipality == MunicipalityName(municipalities, e)
    ensures r.birthDate == toTimestamp(e.birthDate)
    ensures r.age.Some? <==> toTimestamp(e.birthDate).Some?
    ensures r.age.Some? ==> 365 * r.age.value <= today - r.birthDate.value < 365 * (r.age.value + 1)
  {
    var t := toTimestamp(e.birthDate);
    Projection(positions, municipalities, e).(
      birthDate := t,
      age := if t.Some? then Some(Age(today, t.value)) else None)
  }

  /** The DataFrame as a function of its input: one record per employee, in
      input order, or the KeyError of an empty list. */
  function Frame(employees: seq<Employee>, positions: seq<Position>, municipalities: seq<Municipality>,
                 today: Date, toTimestamp: Date -> Option<Date>): (r: Result<seq<FlatRecord>, FrameError>)
    ensures r.Err? <==> |employees| == 0
    ensures r.Ok? ==> |r.value| == |employees|
                      && forall i :: 0 <= i < |employees| ==>
                           r.value[i] == Record(positions, municipalities, today, toTimestamp, employees[i])
  {
    if |employees| == 0 then Err(NoBirthDateColumn)
    else Ok(seq(|employees|, i requires 0 <= i < |employees| =>
                  Record(positions, municipalities, today, toTimestamp, employees[i])))
  }

  /** `employees_to_dataframe`: the loop that appends one projected row per
      employee, then the two column assignments that coerce `birth_date`
      and compute `age` row by row. */
  method EmployeesToDataFrame(employees: seq<Employee>, positions: seq<Position>,
                              municipalities: seq<Municipality>,
                              today: Date, toTimestamp: Date -> Option<Date>)
    returns (r: Result<seq<FlatRecord>, FrameError>)
    ensures r == Frame(employees, positions, municipalities, today, toTimestamp)
  {
    var data: seq<FlatRecord> := [];
    for i := 0 to |employees|
      invariant |data| == i
      invariant forall k :: 0 <= k < i ==> data[k] == Projection(positions, municipalities, employees[k])
    {
      data := data + [Projection(positions, municipalities, employees[i])];
    }
    if |data| == 0 {
      return Err(NoBirthDateColumn);
    }
    for i := 0 to |data|
      invariant |data| == |employees|
      invariant forall k :: 0 <= k < i ==>
                  data[k] == Record(positions, municipalities, today, toTimestamp, employees[k])
      invariant forall k :: i <= k < |data| ==> data[k] == Projection(positions, municipalities, employees[k])
    {
      var birth := toTimestamp(data[i].birthDate.value);
      var age := if birth.Some? then Some((today - birth.value) / 365) else None;
      data := data[i := data[i].(birthDate := birth, age := age)];
    }
    ghost var frame := Frame(employees, positions, municipalities, today, toTimestamp);
    assert frame.value == data;
    r := Ok(data);
  }

  /** A birth date exactly n 365-day years before today gives age n, and one
      day less than that gives n - 1. */
  lemma AgeAtBoundary(today: Date, n: int)
    ensures Age(today, today - 365 * n) == n
    ensures Age(today, today - 365 * n + 1) == n - 1
  {
    assert 365 * n <= today - (today - 365 * n) < 365 * (n + 1);
  }
}
