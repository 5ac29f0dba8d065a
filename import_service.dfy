/** The CSV import: a row loop that looks up or creates each row's position
    and municipality, stages the parsed employee or records the row's error,
    and ends with one bulk insert of everything staged. */
module EmployeeImportService {
  import opened Wrappers
  import opened Models
  import Text
  import opened Repository
  import PositionService
  import MunicipalityService

  /** One record as csv.DictReader yields it: every column as text. */
  datatype Row = Row(
    nss: string,
    firstName: string,
    lastNameF: string,
    lastNameM: string,
    position: string,
    municipality: string,
    birthDate: string,
    employeeType: string,
    hourlyRate: string,
    hoursWorked: string)

  /** int(), float() and datetime.strptime(_, "%Y-%m-%d").date(), each None
      where Python raises. */
  datatype Parsers = Parsers(
    parseInt: string -> Option<int>,
    parseFloat: string -> Option<real>,
    parseDate: string -> Option<Date>)

  /** The exception that failed a row; `str(exc)` of it is the error text. */
  datatype RowError =
      /** create_position's guard `not name and base_salary > 0` evaluated
          with an empty name compares the salary text with 0: TypeError. */
    | SalaryTextComparedWithInt(text: string)
    | PositionSalaryNotNumber(text: string)
    | PositionRejected(cause: PositionService.PositionError)
    | MunicipalityRejected(reason: MunicipalityService.MunicipalityError)
    | NssNotInteger(text: string)
    | BirthDateInvalid(text: string)
    | HourlyRateNotNumber(text: string)
    | HoursNotInteger(text: string)

  datatype RowResult = Staged(employee: Employee) | Failed(error: RowError)

  /** The reference tables the loop reads and extends. */
  datatype Tables = Tables(positions: seq<Position>, municipalities: seq<Municipality>)

  /** Lines 32-34: reuse the position with the row's name, or create one whose
      base salary is the row's hourly_rate. The service receives the rate as
      text: with an empty name its guard compares that text with 0, which
      raises. */
  function ResolvePosition(ps: seq<Position>, row: Row, parsers: Parsers)
    : (r: (Result<Position, RowError>, seq<Position>))
    ensures r.0.Ok? ==> r.0.value in r.1 && r.0.value.name == row.position
    // find_by_name has just missed the name, so the insert cannot clash
    ensures r.0.Err? ==> !r.0.error.PositionRejected?
    ensures |r.1| >= |ps| && r.1[..|ps|] == ps
  {
    match FindPositionByName(ps, row.position)
    case Some(p) => (Ok(p), ps)
    case None =>
      if row.position == "" then (Err(SalaryTextComparedWithInt(row.hourlyRate)), ps)
      else
        match parsers.parseFloat(row.hourlyRate)
        case None => (Err(PositionSalaryNotNumber(row.hourlyRate)), ps)
        case Some(v) =>
          var c := PositionService.CreatePositionOn(ps, row.position, v);
          match c.0
          case Err(e) => (Err(PositionRejected(e)), c.1)
          case Ok(p) => (Ok(p), c.1)
  }

  /** Lines 36-38: reuse the municipality with the row's name, or create it. */
  function ResolveMunicipality(ms: seq<Municipality>, row: Row)
    : (r: (Result<Municipality, RowError>, seq<Municipality>))
    ensures r.0.Ok? ==> r.0.value in r.1 && r.0.value.name == row.municipality
    ensures r.0.Err? ==> r.0.error == MunicipalityRejected(MunicipalityService.NameRequired)
    ensures |r.1| >= |ms| && r.1[..|ms|] == ms
  {
    match FindMunicipalityByName(ms, row.municipality)
    case Some(m) => (Ok(m), ms)
    case None =>
      var c := MunicipalityService.CreateMunicipalityOn(ms, row.municipality);
      match c.0
      case Err(e) => (Err(MunicipalityRejected(e)), c.1)
      case Ok(m) => (Ok(m), c.1)
  }

  /** Lines 40-51: the staged employee, its keyword arguments evaluated in
      order (nss, birth_date, hourly_rate, hours_worked are the ones that
      can raise). The type is upper-cased and nothing else is checked. */
  function BuildStaged(row: Row, p: Position, m: Municipality, parsers: Parsers)
    : (r: Result<Employee, RowError>)
  {
    match parsers.parseInt(row.nss)
    case None => Err(NssNotInteger(row.nss))
    case Some(nss) =>
      match parsers.parseDate(row.birthDate)
      case None => Err(BirthDateInvalid(row.birthDate))
      case Some(birth) =>
        match parsers.parseFloat(row.hourlyRate)
        case None => Err(HourlyRateNotNumber(row.hourlyRate))
        case Some(rate) =>
          match parsers.parseInt(row.hoursWorked)
          case None => Err(HoursNotInteger(row.hoursWorked))
          case Some(hours) =>
            Ok(Employee(None, nss, row.firstName, row.lastNameF, row.lastNameM, birth,
                        Text.Upper(row.employeeType), p.id, m.id, Some(rate), Some(hours)))
  }

  /** One iteration of the row loop: the tables afterwards and the row's
      result. A position or municipality created for the row stays even when
      a later step of the row fails. */
  function RowStep(t: Tables, row: Row, parsers: Parsers): (r: (Tables, RowResult))
    ensures |r.0.positions| >= |t.positions| && r.0.positions[..|t.positions|] == t.positions
    ensures |r.0.municipalities| >= |t.municipalities|
            && r.0.municipalities[..|t.municipalities|] == t.municipalities
  {
    var pr := ResolvePosition(t.positions, row, parsers);
    match pr.0
    case Err(e) => (Tables(pr.1, t.municipalities), Failed(e))
    case Ok(p) =>
      var mr := ResolveMunicipality(t.municipalities, row);
      match mr.0
      case Err(e) => (Tables(pr.1, mr.1), Failed(e))
      case Ok(m) =>
        (Tables(pr.1, mr.1),
         match BuildStaged(row, p, m, parsers)
         case Ok(e) => Staged(e)
         case Err(x) => Failed(x))
  }

  /** The loop over all rows: each row is processed against the tables the
      rows before it left. */
  datatype ImportRun = ImportRun(tables: Tables, results: seq<RowResult>)

  function Run(t: Tables, rows: seq<Row>, parsers: Parsers): (r: ImportRun)
    ensures |r.results| == |rows|
  {
    if |rows| == 0 then ImportRun(t, [])
    else
      var before := Run(t, rows[..|rows| - 1], parsers);
      var step := RowStep(before.tables, rows[|rows| - 1], parsers);
      ImportRun(step.0, before.results + [step.1])
  }

  /** `employees_to_insert`: the staged employees, in row order. */
  function StagedOf(rs: seq<RowResult>): seq<Employee> {
    if |rs| == 0 then []
    else StagedOf(rs[..|rs| - 1]) + (if rs[|rs| - 1].Staged? then [rs[|rs| - 1].employee] else [])
  }

  /** `errors`: one error per failing row, in row order. */
  function ErrorsOf(rs: seq<RowResult>): seq<RowError> {
    if |rs| == 0 then []
    else ErrorsOf(rs[..|rs| - 1]) + (if rs[|rs| - 1].Failed? then [rs[|rs| - 1].error] else [])
  }

  /** The dictionary `import_csv` returns. */
  datatype ImportOutcome = ImportOutcome(inserted: nat, failed: nat, errors: seq<RowError>)

  function OutcomeOf(rs: seq<RowResult>): ImportOutcome {
    ImportOutcome(|StagedOf(rs)|, |ErrorsOf(rs)|, ErrorsOf(rs))
  }

  // -----------------------------------------------------------------------
  // Properties of the specification

  /** Every row is either staged or counted as failed: inserted + failed is
      the number of rows, and there is one error per failure. */
  lemma {:induction false} EveryRowCounted(rs: seq<RowResult>)
    ensures |StagedOf(rs)| + |ErrorsOf(rs)| == |rs|
    ensures OutcomeOf(rs).inserted + OutcomeOf(rs).failed == |rs|
    ensures |OutcomeOf(rs).errors| == OutcomeOf(rs).failed
  {
    if |rs| > 0 {
      EveryRowCounted(rs[..|rs| - 1]);
    }
  }

  /** Errors are collected in row order: the errors of a concatenation are
      the errors of its parts, concatenated. */
  lemma {:induction false} ErrorsInRowOrder(a: seq<RowResult>, b: seq<RowResult>)
    ensures ErrorsOf(a + b) == ErrorsOf(a) + ErrorsOf(b)
    ensures StagedOf(a + b) == StagedOf(a) + StagedOf(b)
    decreases |b|
  {
    if |b| == 0 {
      assert a + b == a;
    } else {
      var b' := b[..|b| - 1];
      assert (a + b)[..|a + b| - 1] == a + b';
      assert (a + b)[|a + b| - 1] == b[|b| - 1];
      ErrorsInRowOrder(a, b');
    }
  }

  /** The result list of a run is that of the run without the last row,
      followed by the last row's result. */
  lemma RunLast(t: Tables, rows: seq<Row>, parsers: Parsers)
    requires |rows| > 0
    ensures var before := Run(t, rows[..|rows| - 1], parsers);
            Run(t, rows, parsers).results
            == before.results + [RowStep(before.tables, rows[|rows| - 1], parsers).1]
  {
  }

  lemma PrefixOfAppend<T>(a: seq<T>, x: T, k: nat)
    requires k <= |a|
    ensures (a + [x])[..k] == a[..k]
  {
  }

  /** Later rows do not change the results of earlier ones. */
  lemma {:induction false} RunPrefix(t: Tables, rows: seq<Row>, parsers: Parsers, k: nat)
    requires k <= |rows|
    ensures Run(t, rows[..k], parsers).results == Run(t, rows, parsers).results[..k]
    decreases |rows|
  {
    if k < |rows| {
      var init := rows[..|rows| - 1];
      RunPrefix(t, init, parsers, k);
      assert init[..k] == rows[..k];
      RunLast(t, rows, parsers);
      var before := Run(t, init, parsers);
      PrefixOfAppend(before.results, RowStep(before.tables, rows[|rows| - 1], parsers).1, k);
    } else {
      assert rows[..k] == rows;
    }
  }

  /** A failing row never stops the loop: the result of row k is what
      processing row k gives against the tables rows 0..k-1 left, whatever
      those rows' results were. */
  lemma EveryRowProcessed(t: Tables, rows: seq<Row>, parsers: Parsers, k: nat)
    requires k < |rows|
    ensures Run(t, rows, parsers).results[k]
            == RowStep(Run(t, rows[..k], parsers).tables, rows[k], parsers).1
  {
    RunPrefix(t, rows, parsers, k + 1);
    RunExtend(t, rows, parsers, k);
    var before := Run(t, rows[..k], parsers);
    var step := RowStep(before.tables, rows[k], parsers);
    assert |before.results| == k;
    assert Run(t, rows[..k + 1], parsers).results == before.results + [step.1];
    assert Run(t, rows, parsers).results[k] == Run(t, rows[..k + 1], parsers).results[k];
  }

  /** The reference tables only grow during an import. */
  lemma {:induction false} TablesOnlyGrow(t: Tables, rows: seq<Row>, parsers: Parsers)
    ensures var r := Run(t, rows, parsers).tables;
            && |t.positions| <= |r.positions| && r.positions[..|t.positions|] == t.positions
            && |t.municipalities| <= |r.municipalities|
            && r.municipalities[..|t.municipalities|] == t.municipalities
  {
    if |rows| > 0 {
      var before := Run(t, rows[..|rows| - 1], parsers);
      TablesOnlyGrow(t, rows[..|rows| - 1], parsers);
      var s := RowStep(before.tables, rows[|rows| - 1], parsers).0;
      assert s.positions[..|t.positions|] == s.positions[..|before.tables.positions|][..|t.positions|];
      assert s.municipalities[..|t.municipalities|]
          == s.municipalities[..|before.tables.municipalities|][..|t.municipalities|];
    }
  }

  /** An existing position is reused by name: the position table is left as
      it is and a staged employee refers to that position. */
  lemma PositionReusedByName(t: Tables, row: Row, parsers: Parsers, p: Position)
    requires FindPositionByName(t.positions, row.position) == Some(p)
    ensures RowStep(t, row, parsers).0.positions == t.positions
    ensures RowStep(t, row, parsers).1.Staged? ==> RowStep(t, row, parsers).1.employee.positionId == p.id
  {
  }

  /** A missing position with a non-empty name and a numeric rate is created
      with that rate as its base salary, stays in the table whatever happens
      to the rest of the row, and is what later rows find by that name. */
  lemma MissingPositionCreated(t: Tables, row: Row, parsers: Parsers, v: real)
    requires PositionTableOk(t.positions)
    requires FindPositionByName(t.positions, row.position).None?
    requires row.position != "" && parsers.parseFloat(row.hourlyRate) == Some(v)
    ensures var created := Position(NextPositionId(t.positions), row.position, v);
            && RowStep(t, row, parsers).0.positions == t.positions + [created]
            && FindPositionByName(RowStep(t, row, parsers).0.positions, row.position) == Some(created)
  {
    var created := Position(NextPositionId(t.positions), row.position, v);
    var ps := t.positions + [created];
    assert ps[|t.positions|] == created;
  }

  /** An existing municipality is reused by name and keeps the table as it is. */
  lemma MunicipalityReusedByName(t: Tables, row: Row, parsers: Parsers, m: Municipality)
    requires FindMunicipalityByName(t.municipalities, row.municipality) == Some(m)
    ensures RowStep(t, row, parsers).0.municipalities == t.municipalities
    ensures RowStep(t, row, parsers).1.Staged? ==>
              RowStep(t, row, parsers).1.employee.municipalityId == m.id
  {
  }

  /** Once the row's position resolves, a missing municipality with a
      non-empty name is created, stays in the table whatever happens to the
      rest of the row, and is what later rows find by that name. */
  lemma MissingMunicipalityCreated(t: Tables, row: Row, parsers: Parsers)
    requires MunicipalityTableOk(t.municipalities)
    requires ResolvePosition(t.positions, row, parsers).0.Ok?
    requires FindMunicipalityByName(t.municipalities, row.municipality).None?
    requires row.municipality != ""
    ensures var created := Municipality(NextMunicipalityId(t.municipalities), row.municipality);
            && RowStep(t, row, parsers).0.municipalities == t.municipalities + [created]
            && FindMunicipalityByName(RowStep(t, row, parsers).0.municipalities, row.municipality)
               == Some(created)
  {
    var created := Municipality(NextMunicipalityId(t.municipalities), row.municipality);
    var ms := t.municipalities + [created];
    assert ms[|t.municipalities|] == created;
  }

  /** A row is staged exactly when its position and municipality resolve and
      its four numeric and date columns parse; no BASE/HONORARY or hours
      check is made. The staged employee carries the parsed columns, the
      upper-cased type and the keys of the resolved references. */
  lemma StagedRowCarriesParsedFields(t: Tables, row: Row, parsers: Parsers)
    ensures var p := ResolvePosition(t.positions, row, parsers).0;
            var m := ResolveMunicipality(t.municipalities, row).0;
            RowStep(t, row, parsers).1.Staged?
            <==> && p.Ok? && m.Ok?
                 && parsers.parseInt(row.nss).Some? && parsers.parseDate(row.birthDate).Some?
                 && parsers.parseFloat(row.hourlyRate).Some? && parsers.parseInt(row.hoursWorked).Some?
    ensures RowStep(t, row, parsers).1.Staged? ==>
              var e := RowStep(t, row, parsers).1.employee;
              && e.id.None?
              && e.nss == parsers.parseInt(row.nss).value
              && e.firstName == row.firstName && e.lastNameF == row.lastNameF
              && e.lastNameM == row.lastNameM
              && e.birthDate == parsers.parseDate(row.birthDate).value
              && e.employeeType == Text.Upper(row.employeeType)
              && e.hourlyRate == Some(parsers.parseFloat(row.hourlyRate).value)
              && e.hoursWorked == Some(parsers.parseInt(row.hoursWorked).value)
              && e.positionId == ResolvePosition(t.positions, row, parsers).0.value.id
              && e.municipalityId == ResolveMunicipality(t.municipalities, row).0.value.id
  {
  }

  // -----------------------------------------------------------------------
  // The loop

  /** One more row: the run over rows[..i+1] is the run over rows[..i]
      followed by row i's step. */
  lemma RunExtend(t: Tables, rows: seq<Row>, parsers: Parsers, i: nat)
    requires i < |rows|
    ensures var before := Run(t, rows[..i], parsers);
            var step := RowStep(before.tables, rows[i], parsers);
            var after := Run(t, rows[..i + 1], parsers);
            && after == ImportRun(step.0, before.results + [step.1])
            && StagedOf(after.results)
               == StagedOf(before.results) + (if step.1.Staged? then [step.1.employee] else [])
            && ErrorsOf(after.results)
               == ErrorsOf(before.results) + (if step.1.Failed? then [step.1.error] else [])
  {
    assert rows[..i + 1][..i] == rows[..i];
    var before := Run(t, rows[..i], parsers);
    var step := RowStep(before.tables, rows[i], parsers);
    var rs := before.results + [step.1];
    assert rs[..|rs| - 1] == before.results;
  }

  /** The body of the `try` block for one row, against the store. */
  method ImportRow(store: Store, row: Row, parsers: Parsers) returns (res: RowResult)
    requires store.Valid()
    modifies store
    ensures store.Valid()
    ensures (Tables(store.positions, store.municipalities), res)
            == RowStep(Tables(old(store.positions), old(store.municipalities)), row, parsers)
    ensures store.employees == old(store.employees)
  {
    var position := FindPositionByName(store.positions, row.position);
    if position.None? {
      if row.position == "" {
        return Failed(SalaryTextComparedWithInt(row.hourlyRate));
      }
      var salary := parsers.parseFloat(row.hourlyRate);
      if salary.None? {
        return Failed(PositionSalaryNotNumber(row.hourlyRate));
      }
      var created := PositionService.CreatePosition(store, row.position, salary.value);
      position := Some(created.value);
    }
    var municipality := FindMunicipalityByName(store.municipalities, row.municipality);
    if municipality.None? {
      var created := MunicipalityService.CreateMunicipality(store, row.municipality);
      if created.Err? {
        return Failed(MunicipalityRejected(created.error));
      }
      municipality := Some(created.value);
    }
    var employee := BuildStaged(row, position.value, municipality.value, parsers);
    match employee
    case Ok(e) => res := Staged(e);
    case Err(x) => res := Failed(x);
  }

  /** `import_csv` over already-split rows: the tables end as the row loop
      leaves them, the outcome counts and lists exactly the loop's results,
      and the one bulk insert at the end adds the staged employees (none when
      nothing was staged). */
  method ImportCsv(store: Store, rows: seq<Row>, parsers: Parsers) returns (outcome: ImportOutcome)
    requires store.Valid()
    modifies store
    ensures store.Valid()
    ensures var run := Run(Tables(old(store.positions), old(store.municipalities)), rows, parsers);
            && Tables(store.positions, store.municipalities) == run.tables
            && outcome == OutcomeOf(run.results)
            && store.employees == old(store.employees)
                                  + AssignIds(StagedOf(run.results), NextEmployeeId(old(store.employees)))
  {
    ghost var t0 := Tables(store.positions, store.municipalities);
    var employeesToInsert: seq<Employee> := [];
    var failed: nat := 0;
    var errors: seq<RowError> := [];
    var i := 0;
    while i < |rows|
      invariant 0 <= i <= |rows|
      invariant store.Valid()
      invariant store.employees == old(store.employees)
      invariant Tables(store.positions, store.municipalities) == Run(t0, rows[..i], parsers).tables
      invariant employeesToInsert == StagedOf(Run(t0, rows[..i], parsers).results)
      invariant errors == ErrorsOf(Run(t0, rows[..i], parsers).results)
      invariant failed == |errors|
    {
      RunExtend(t0, rows, parsers, i);
      var res := ImportRow(store, rows[i], parsers);
      match res {
        case Staged(e) =>
          employeesToInsert := employeesToInsert + [e];
        case Failed(x) =>
          failed := failed + 1;
          errors := errors + [x];
      }
      i := i + 1;
    }
    assert rows[..|rows|] == rows;
    if |employeesToInsert| > 0 {
      store.BulkInsert(employeesToInsert);
    }
    outcome := ImportOutcome(|employeesToInsert|, failed, errors);
  }
}
