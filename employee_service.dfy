/** Registration, partial update and deletion of employees. */
module EmployeeService {
  import opened Wrappers
  import opened Models
  import Text
  import opened Repository

  /** The keyword arguments of `add_employee`. */
  datatype AddRequest = AddRequest(
    nss: int,
    firstName: string,
    lastNameF: string,
    lastNameM: string,
    positionId: int,
    birthDate: Date,
    municipalityId: int,
    employeeType: string,
    hourlyRate: Option<real>,
    hoursWorked: Option<int>)

  /** The ValueError messages of `add_employee`, in the order they are checked. */
  datatype AddError =
    | NssNotUnique(nss: int)
    | InvalidPositionId
    | InvalidMunicipalityId
    | HonoraryNeedsRateAndHours
    | HoursOutOfRange
    | InvalidEmployeeType

  /** The type rule on the upper-cased type: BASE, or HONORARY with both
      values supplied and hours in 1..40. */
  predicate TypeRuleHolds(t: string, req: AddRequest) {
    || t == BASE
    || (t == HONORARY && req.hourlyRate.Some? && req.hoursWorked.Some?
        && 1 <= req.hoursWorked.value <= 40)
  }

  /** The guard chain of `add_employee` and the record it builds (not yet
      persisted, so without a key). The first failing check wins: duplicate
      NSS, then the position id, then the municipality id, then the type. */
  function BuildEmployee(employees: seq<Employee>, positions: seq<Position>,
                         municipalities: seq<Municipality>, req: AddRequest)
    : (r: Result<Employee, AddError>)
    ensures FindByNss(employees, req.nss).Some? ==> r == Err(NssNotUnique(req.nss))
    ensures FindByNss(employees, req.nss).None? && GetPosition(positions, req.positionId).None?
            ==> r == Err(InvalidPositionId)
    ensures FindByNss(employees, req.nss).None? && GetPosition(positions, req.positionId).Some?
            && GetMunicipality(municipalities, req.municipalityId).None?
            ==> r == Err(InvalidMunicipalityId)
    ensures r.Ok? <==> && FindByNss(employees, req.nss).None?
                       && GetPosition(positions, req.positionId).Some?
                       && GetMunicipality(municipalities, req.municipalityId).Some?
                       && TypeRuleHolds(Text.Upper(req.employeeType), req)
    ensures r.Ok? ==> && r.value.id.None?
                      && r.value.nss == req.nss
                      && r.value.firstName == req.firstName
                      && r.value.lastNameF == req.lastNameF
                      && r.value.lastNameM == req.lastNameM
                      && r.value.birthDate == req.birthDate
                      && r.value.positionId == req.positionId
                      && r.value.municipalityId == req.municipalityId
                      && r.value.employeeType == Text.Upper(req.employeeType)
    ensures r.Ok? && r.value.employeeType == BASE ==>
              && r.value.hourlyRate == Some(GetPosition(positions, req.positionId).value.baseSalary)
              && r.value.hoursWorked == Some(0)
    ensures r.Ok? && r.value.employeeType == HONORARY ==>
              r.value.hourlyRate == req.hourlyRate && r.value.hoursWorked == req.hoursWorked
  {
    if FindByNss(employees, req.nss).Some? then Err(NssNotUnique(req.nss))
    else
      var position := GetPosition(positions, req.positionId);
      if position.None? then Err(InvalidPositionId)
      else if GetMunicipality(municipalities, req.municipalityId).None? then Err(InvalidMunicipalityId)
      else
        var t := Text.Upper(req.employeeType);
        var rateHours: Result<(Option<real>, Option<int>), AddError> :=
          if t == BASE then Ok((Some(position.value.baseSalary), Some(0)))
          else if t == HONORARY then
            if req.hourlyRate.None? || req.hoursWorked.None? then Err(HonoraryNeedsRateAndHours)
            else if !(1 <= req.hoursWorked.value <= 40) then Err(HoursOutOfRange)
            else Ok((req.hourlyRate, req.hoursWorked))
          else Err(InvalidEmployeeType);
        match rateHours
        case Err(e) => Err(e)
        case Ok(values) =>
          Ok(Employee(None, req.nss, req.firstName, req.lastNameF, req.lastNameM, req.birthDate,
                      t, req.positionId, req.municipalityId, values.0, values.1))
  }

  /** Once NSS and both references resolve, the type decides alone: an
      HONORARY request missing a value, one with hours outside 1..40, and
      any type other than BASE or HONORARY (after upper-casing) each fail
      with their own error, and BASE never fails. */
  lemma TypeRuleErrors(employees: seq<Employee>, positions: seq<Position>,
                       municipalities: seq<Municipality>, req: AddRequest)
    requires FindByNss(employees, req.nss).None?
    requires GetPosition(positions, req.positionId).Some?
    requires GetMunicipality(municipalities, req.municipalityId).Some?
    ensures var t := Text.Upper(req.employeeType);
            var r := BuildEmployee(employees, positions, municipalities, req);
            && (t == BASE ==> r.Ok?)
            && (t == HONORARY && (req.hourlyRate.None? || req.hoursWorked.None?)
                ==> r == Err(HonoraryNeedsRateAndHours))
            && ((t == HONORARY && req.hourlyRate.Some? && req.hoursWorked.Some?
                 && !(1 <= req.hoursWorked.value <= 40)) ==> r == Err(HoursOutOfRange))
            && (t != BASE && t != HONORARY ==> r == Err(InvalidEmployeeType))
  {
  }

  /** BASE registrations ignore whatever rate and hours the caller passed:
      two requests differing only in those values build the same employee. */
  lemma BaseIgnoresCallerValues(employees: seq<Employee>, positions: seq<Position>,
                                municipalities: seq<Municipality>, req: AddRequest,
                                rate: Option<real>, hours: Option<int>)
    requires Text.Upper(req.employeeType) == BASE
    ensures BuildEmployee(employees, positions, municipalities, req)
            == BuildEmployee(employees, positions, municipalities,
                             req.(hourlyRate := rate, hoursWorked := hours))
  {
  }

  /** `add_employee`: on success the store grows by exactly the built
      employee, now carrying its key; on every failure nothing changes. */
  method AddEmployee(store: Store, req: AddRequest) returns (r: Result<Employee, AddError>)
    requires store.Valid()
    modifies store
    ensures store.Valid()
    ensures var built := BuildEmployee(old(store.employees), old(store.positions),
                                       old(store.municipalities), req);
            match built
            case Err(e) =>
              r == Err(e) && store.employees == old(store.employees)
            case Ok(e) =>
              && r == Ok(e.(id := Some(NextEmployeeId(old(store.employees)))))
              && store.employees == old(store.employees) + [r.value]
    ensures store.positions == old(store.positions)
    ensures store.municipalities == old(store.municipalities)
  {
    var built := BuildEmployee(store.employees, store.positions, store.municipalities, req);
    match built
    case Err(e) =>
      r := Err(e);
    case Ok(e) =>
      var saved := store.AddEmployee(e);
      r := Ok(saved);
  }

  /** Registering the same NSS twice: the second attempt fails. */
  lemma SecondRegistrationFails(employees: seq<Employee>, positions: seq<Position>,
                                municipalities: seq<Municipality>, req: AddRequest, saved: Employee)
    requires BuildEmployee(employees, positions, municipalities, req).Ok?
    requires saved == BuildEmployee(employees, positions, municipalities, req).value
                        .(id := Some(NextEmployeeId(employees)))
    ensures BuildEmployee(employees + [saved], positions, municipalities, req)
            == Err(NssNotUnique(req.nss))
  {
    var t := employees + [saved];
    assert t[|employees|].nss == req.nss;
  }

  /** The NotFound error of `delete_employee`. */
  datatype DeleteError = NssNotFound(nss: int)

  /** `delete_employee(nss)`: an unknown NSS raises and changes nothing;
      otherwise the employee `find_employee` returns is deleted by its key
      and the repository reports True. */
  method DeleteEmployee(store: Store, nss: int) returns (r: Result<bool, DeleteError>)
    requires store.Valid()
    modifies store
    ensures store.Valid()
    ensures r.Err? <==> FindByNss(old(store.employees), nss).None?
    ensures r.Err? ==> r.error == NssNotFound(nss) && store.employees == old(store.employees)
    ensures r.Ok? ==> r.value
    ensures r.Ok? ==> exists i :: 0 <= i < |old(store.employees)|
                       && old(store.employees)[i] == FindByNss(old(store.employees), nss).value
                       && store.employees == old(store.employees)[..i] + old(store.employees)[i + 1..]
    ensures store.positions == old(store.positions)
    ensures store.municipalities == old(store.municipalities)
  {
    var found := FindByNss(store.employees, nss);
    if found.None? {
      return Err(NssNotFound(nss));
    }
    ghost var i :| 0 <= i < |store.employees| && store.employees[i] == found.value;
    GetEmployeeIsTheRow(store.employees, i);
    var deleted := store.DeleteEmployee(found.value.id.value);
    r := Ok(deleted);
  }

  // -----------------------------------------------------------------------
  // update_employee

  /** One `key=value` pair of `update_employee`, restricted to the keys the
      edit dialog supplies. `birth_date` arrives as text. */
  datatype EmployeeUpdate =
    | SetNss(nss: int)
    | SetFirstName(firstName: string)
    | SetLastNameF(lastNameF: string)
    | SetLastNameM(lastNameM: string)
    | SetPositionId(positionId: int)
    | SetBirthDate(text: string)
    | SetMunicipalityId(municipalityId: int)
    | SetEmployeeType(employeeType: string)
    | SetHourlyRate(hourlyRate: Option<real>)
    | SetHoursWorked(hoursWorked: Option<int>)

  /** The ValueError `strptime` raises for a birth date not in YYYY-MM-DD. */
  datatype UpdateError = BadBirthDate(text: string)

  /** The attribute a key writes. */
  datatype Field = NssField | FirstNameField | LastNameFField | LastNameMField | PositionIdField
                 | BirthDateField | MunicipalityIdField | EmployeeTypeField | HourlyRateField
                 | HoursWorkedField

  function FieldOf(u: EmployeeUpdate): Field {
    match u
    case SetNss(_) => NssField
    case SetFirstName(_) => FirstNameField
    case SetLastNameF(_) => LastNameFField
    case SetLastNameM(_) => LastNameMField
    case SetPositionId(_) => PositionIdField
    case SetBirthDate(_) => BirthDateField
    case SetMunicipalityId(_) => MunicipalityIdField
    case SetEmployeeType(_) => EmployeeTypeField
    case SetHourlyRate(_) => HourlyRateField
    case SetHoursWorked(_) => HoursWorkedField
  }

  /** `a` and `b` agree on attribute `f`. */
  predicate SameOn(a: Employee, b: Employee, f: Field) {
    match f
    case NssField => a.nss == b.nss
    case FirstNameField => a.firstName == b.firstName
    case LastNameFField => a.lastNameF == b.lastNameF
    case LastNameMField => a.lastNameM == b.lastNameM
    case PositionIdField => a.positionId == b.positionId
    case BirthDateField => a.birthDate == b.birthDate
    case MunicipalityIdField => a.municipalityId == b.municipalityId
    case EmployeeTypeField => a.employeeType == b.employeeType
    case HourlyRateField => a.hourlyRate == b.hourlyRate
    case HoursWorkedField => a.hoursWorked == b.hoursWorked
  }

  /** `e` holds the value update `u` supplies (a parsed date for birth_date). */
  predicate Holds(e: Employee, u: EmployeeUpdate, parseDate: string -> Option<Date>) {
    match u
    case SetNss(v) => e.nss == v
    case SetFirstName(v) => e.firstName == v
    case SetLastNameF(v) => e.lastNameF == v
    case SetLastNameM(v) => e.lastNameM == v
    case SetPositionId(v) => e.positionId == v
    case SetBirthDate(text) => parseDate(text).Some? && e.birthDate == parseDate(text).value
    case SetMunicipalityId(v) => e.municipalityId == v
    case SetEmployeeType(v) => e.employeeType == v
    case SetHourlyRate(v) => e.hourlyRate == v
    case SetHoursWorked(v) => e.hoursWorked == v
  }

  /** One `setattr`, preceded for birth_date by the parse. */
  function ApplyUpdate(e: Employee, u: EmployeeUpdate, parseDate: string -> Option<Date>)
    : (r: Result<Employee, UpdateError>)
    ensures r.Err? <==> u.SetBirthDate? && parseDate(u.text).None?
    ensures r.Err? ==> r.error == BadBirthDate(u.text)
    ensures r.Ok? ==> Holds(r.value, u, parseDate) && r.value.id == e.id
    ensures r.Ok? ==> forall f :: f != FieldOf(u) ==> SameOn(e, r.value, f)
  {
    match u
    case SetNss(v) => Ok(e.(nss := v))
    case SetFirstName(v) => Ok(e.(firstName := v))
    case SetLastNameF(v) => Ok(e.(lastNameF := v))
    case SetLastNameM(v) => Ok(e.(lastNameM := v))
    case SetPositionId(v) => Ok(e.(positionId := v))
    case SetBirthDate(text) =>
      (match parseDate(text)
       case None => Err(BadBirthDate(text))
       case Some(d) => Ok(e.(birthDate := d)))
    case SetMunicipalityId(v) => Ok(e.(municipalityId := v))
    case SetEmployeeType(v) => Ok(e.(employeeType := v))
    case SetHourlyRate(v) => Ok(e.(hourlyRate := v))
    case SetHoursWorked(v) => Ok(e.(hoursWorked := v))
  }

  /** The state of the edited object when the loop ends: after every update,
      or after the updates before the first unparseable birth date, which
      is reported. */
  datatype UpdateRun = UpdateRun(employee: Employee, error: Option<UpdateError>)

  function ApplyUpdates(e: Employee, us: seq<EmployeeUpdate>, parseDate: string -> Option<Date>)
    : (r: UpdateRun)
    ensures r.employee.id == e.id
    decreases |us|
  {
    if |us| == 0 then UpdateRun(e, None)
    else match ApplyUpdate(e, us[0], parseDate)
      case Err(x) => UpdateRun(e, Some(x))
      case Ok(e') => ApplyUpdates(e', us[1..], parseDate)
  }

  /** No validation is re-run: the update fails only on a birth date that
      does not parse, and then the error names its text. */
  lemma {:induction false} UpdateFailsOnlyOnBirthDate(e: Employee, us: seq<EmployeeUpdate>,
                                                     parseDate: string -> Option<Date>)
    ensures ApplyUpdates(e, us, parseDate).error.Some?
            <==> exists k :: 0 <= k < |us| && us[k].SetBirthDate? && parseDate(us[k].text).None?
    ensures ApplyUpdates(e, us, parseDate).error.Some? ==>
              exists k :: 0 <= k < |us| && us[k].SetBirthDate?
                          && ApplyUpdates(e, us, parseDate).error.value == BadBirthDate(us[k].text)
    decreases |us|
  {
    if |us| > 0 {
      match ApplyUpdate(e, us[0], parseDate)
      case Err(x) =>
      case Ok(e') =>
        UpdateFailsOnlyOnBirthDate(e', us[1..], parseDate);
        if exists k :: 0 <= k < |us| && us[k].SetBirthDate? && parseDate(us[k].text).None? {
          var k :| 0 <= k < |us| && us[k].SetBirthDate? && parseDate(us[k].text).None?;
          assert k > 0;
          assert us[1..][k - 1] == us[k];
        }
        if ApplyUpdates(e, us, parseDate).error.Some? {
          var k :| 0 <= k < |us[1..]| && us[1..][k].SetBirthDate?
                   && ApplyUpdates(e', us[1..], parseDate).error.value == BadBirthDate(us[1..][k].text);
          assert us[k + 1] == us[1..][k];
        }
    }
  }

  /** Exactly the supplied keys are set: an attribute no update names keeps
      its value, and after a successful run every update whose key is not
      supplied again later holds its value. */
  lemma {:induction false} UpdateSetsExactlyTheSuppliedKeys(e: Employee, us: seq<EmployeeUpdate>,
                                                            parseDate: string -> Option<Date>)
    ensures forall f :: (forall k :: 0 <= k < |us| ==> FieldOf(us[k]) != f)
                        ==> SameOn(e, ApplyUpdates(e, us, parseDate).employee, f)
    ensures ApplyUpdates(e, us, parseDate).error.None? ==>
              forall k :: 0 <= k < |us| && (forall j :: k < j < |us| ==> FieldOf(us[j]) != FieldOf(us[k]))
                          ==> Holds(ApplyUpdates(e, us, parseDate).employee, us[k], parseDate)
    decreases |us|
  {
    if |us| > 0 {
      match ApplyUpdate(e, us[0], parseDate)
      case Err(x) =>
      case Ok(e') =>
        var rest := us[1..];
        UpdateSetsExactlyTheSuppliedKeys(e', rest, parseDate);
        var fin := ApplyUpdates(e', rest, parseDate).employee;
        forall f | forall k :: 0 <= k < |us| ==> FieldOf(us[k]) != f
          ensures SameOn(e, fin, f)
        {
          assert FieldOf(us[0]) != f;
          assert forall k :: 0 <= k < |rest| ==> FieldOf(rest[k]) != f by {
            forall k | 0 <= k < |rest| ensures FieldOf(rest[k]) != f { assert rest[k] == us[k + 1]; }
          }
          SameOnTransitive(e, e', fin, f);
        }
        if ApplyUpdates(e, us, parseDate).error.None? {
          forall k | 0 <= k < |us| && (forall j :: k < j < |us| ==> FieldOf(us[j]) != FieldOf(us[k]))
            ensures Holds(fin, us[k], parseDate)
          {
            if k == 0 {
              assert forall j :: 0 <= j < |rest| ==> FieldOf(rest[j]) != FieldOf(us[0]) by {
                forall j | 0 <= j < |rest| ensures FieldOf(rest[j]) != FieldOf(us[0]) {
                  assert rest[j] == us[j + 1];
                }
              }
              HoldsCarriesOver(e', fin, us[0], parseDate);
            } else {
              assert rest[k - 1] == us[k];
              assert forall j :: k - 1 < j < |rest| ==> FieldOf(rest[j]) != FieldOf(rest[k - 1]) by {
                forall j | k - 1 < j < |rest| ensures FieldOf(rest[j]) != FieldOf(rest[k - 1]) {
                  assert rest[j] == us[j + 1];
                }
              }
            }
          }
        }
    }
  }

  lemma SameOnTransitive(a: Employee, b: Employee, c: Employee, f: Field)
    requires SameOn(a, b, f) && SameOn(b, c, f)
    ensures SameOn(a, c, f)
  {
    match f
    case NssField =>
    case FirstNameField =>
    case LastNameFField =>
    case LastNameMField =>
    case PositionIdField =>
    case BirthDateField =>
    case MunicipalityIdField =>
    case EmployeeTypeField =>
    case HourlyRateField =>
    case HoursWorkedField =>
  }

  lemma HoldsCarriesOver(a: Employee, b: Employee, u: EmployeeUpdate, parseDate: string -> Option<Date>)
    requires Holds(a, u, parseDate) && SameOn(a, b, FieldOf(u))
    ensures Holds(b, u, parseDate)
  {
  }

  /** `update_employee`: applies the updates to the stored employee with key
      `id` in order, as the `setattr` loop does, and commits. The edits made
      before an unparseable birth date stay on the object. */
  method UpdateEmployee(store: Store, id: int, us: seq<EmployeeUpdate>,
                        parseDate: string -> Option<Date>)
    returns (r: Result<Employee, UpdateError>)
    requires store.Valid()
    requires GetEmployee(store.employees, id).Some?
    modifies store
    ensures store.Valid()
    ensures var i := IndexOfEmployee(old(store.employees), id).value;
            var run := ApplyUpdates(old(store.employees)[i], us, parseDate);
            && store.employees == old(store.employees)[i := run.employee]
            && (run.error.None? ==> r == Ok(run.employee))
            && (run.error.Some? ==> r == Err(run.error.value))
    ensures store.positions == old(store.positions)
    ensures store.municipalities == old(store.municipalities)
  {
    var i := IndexOfEmployee(store.employees, id).value;
    var e := store.employees[i];
    ghost var target := ApplyUpdates(e, us, parseDate);
    var k := 0;
    while k < |us|
      invariant 0 <= k <= |us|
      invariant e.id == store.employees[i].id
      invariant ApplyUpdates(e, us[k..], parseDate) == target
    {
      var step := ApplyUpdate(e, us[k], parseDate);
      assert us[k..][1..] == us[k + 1..];
      match step
      case Err(x) =>
        store.ReplaceEmployee(i, e);
        return Err(x);
      case Ok(e') =>
        e := e';
      k := k + 1;
    }
    store.ReplaceEmployee(i, e);
    r := Ok(e);
  }

  /** The edit dialog's rule for the optional numbers: a blank field is
      None, otherwise the parsed value, and text that does not parse raises
      before the service is called. */
  function DialogNumber<N>(text: string, parse: string -> Option<N>): (r: Option<Option<N>>)
    ensures Text.Strip(text) == "" ==> r == Some(None)
    ensures Text.Strip(text) != "" ==> (r.Some? <==> parse(Text.Strip(text)).Some?)
    ensures r.Some? && r.value.Some? ==> r.value == parse(Text.Strip(text))
  {
    var t := Text.Strip(text);
    if t == "" then Some(None)
    else match parse(t)
      case None => None
      case Some(v) => Some(Some(v))
  }
}
