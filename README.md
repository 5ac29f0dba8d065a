# employees_management in Dafny

A Dafny model of the business rules of `employees_management`, a desktop
application for employee records. It is backed by a relational store
with three tables: employees, positions and municipalities. The model
covers:

- **Employee registration, update and deletion.** The guard chain of
  `add_employee` (NSS uniqueness, position and municipality references,
  and the BASE / HONORARY type rule), the `setattr` loop of
  `update_employee`, and deletion by NSS.
- **The store.** The repositories' queries (list ordered by a name,
  get by key, find the first by NSS or by name) are pure functions over
  the table sequences. The writes (`add`, `update`, `delete`, and the
  bulk insert that ends an import) are methods of the `Repository.Store`
  class. Each write is specified by a function of the old tables. New
  keys follow SQLite's rowid rule: one more than the largest key in the
  table, or 1 in an empty table.
- **Reference data.** The `create_position` guard is kept exactly as
  written: it refuses only an empty name together with a positive
  salary. `create_municipality` refuses an empty name. `update_position`
  sets the supplied attributes and then calls a repository `update` that
  `PositionRepositoryImpl` does not define. The model commits the edit
  instead (see "Left out").
- **CSV import.** The row loop of `import_csv` takes rows that are already
  split into columns. It reuses or creates each row's position and
  municipality, stages the parsed employee or records the row's error,
  and ends with one bulk insert. `ImportCsv` is proved equal to a
  specification function `Run` over the rows. The properties of the
  import are lemmas about `Run`: every row is counted, errors come in row
  order, and a failing row never stops the loop.
- **The salary calculator.** The NSS lookup that sets or clears the
  current employee, and the salary rules:
  - BASE: rate·40·(1 + 0.01·years);
  - HONORARY: rate·hours·(1 + 0.002·extra).
- **The main window.** The four-way employee filter, the
  per-position and per-municipality report counts, the BASE-vs-HONORARY
  pie, and the age buckets of the age-range report.
- **The position and municipality windows.** Their name search,
  `_find_by_id`, and the reload that resets the selection.
- **The flat export table and the CSV export.** One record per employee,
  with age = days // 365. The export refuses an empty list and reports
  write failures.
- **`get_database_url`.** A string function of an environment map.

Python's `int()`, `float()`, `datetime.strptime` and `pandas.to_datetime`
are function-valued parameters. Each gives `None` where Python raises.
The current date and the text of a write exception are parameters too.
Salary arithmetic is over `real`. Every exception the code raises or
lets escape is an outcome constructor, either an `Err` value or a named
outcome of a datatype.

`import_csv` upper-cases the employee type and checks nothing else
(application/employee_import_service.py:48), so a row with any type is
staged when its other fields parse. `StagedRowCarriesParsedFields`
states this.

## Model

| member | source | states |
|---|---|---|
| Models.NssIsNotAColumnConstraint | domain/models.py:46 | a well-formed employee table may hold two rows with the same NSS, so NSS uniqueness is a service rule and not a column constraint |
| Repository.Store.constructor | domain/models.py:13-60 | the empty store satisfies the table constraints: keys distinct, position and municipality names distinct, every stored employee keyed |
| Repository.NextEmployeeId | infrastructure/employee_repository_impl.py:55-67 | the key a new employee gets is at least 1 and larger than every key in the table |
| Repository.NextPositionId | infrastructure/position_repository_impl.py:33-44 | the key a new position gets is at least 1 and larger than every key in the table |
| Repository.NextMunicipalityId | infrastructure/municipality_repository_impl.py:33-43 | the key a new municipality gets is at least 1 and larger than every key in the table |
| Repository.ListEmployees | infrastructure/employee_repository_impl.py:22-29 | a permutation of the table, in non-decreasing `last_name_f` order |
| Repository.IndexOfEmployee | infrastructure/employee_repository_impl.py:31-41 | the index of a row with that key, or None exactly when no row has it |
| Repository.GetEmployee | infrastructure/employee_repository_impl.py:31-41 | a stored employee with that key, or None exactly when no row has it |
| Repository.GetEmployeeIsTheRow | infrastructure/employee_repository_impl.py:31-41 | in a well-formed table, `get` of row i's key returns row i |
| Repository.FindByNss | infrastructure/employee_repository_impl.py:43-53 | the first employee in table order with that NSS, or None exactly when none has it (also `find_employee`, which passes the call through) |
| Repository.Store.AddEmployee | infrastructure/employee_repository_impl.py:55-67 | the employee is appended with the next key and returned with it; nothing else changes; the table constraints still hold |
| Repository.Store.ReplaceEmployee | infrastructure/employee_repository_impl.py:69-81 | the committed edit replaces exactly row i; the key is unchanged |
| Repository.Store.DeleteEmployee | infrastructure/employee_repository_impl.py:83-98 | returns True exactly when the key exists; False leaves the table unchanged; True removes exactly that row |
| Repository.RemovePreservesTable | infrastructure/employee_repository_impl.py:96-98 | removing one row keeps the employee table well formed |
| Repository.IndexOfPosition | infrastructure/position_repository_impl.py:25-31 | the index of a position with that key, or None exactly when no row has it |
| Repository.GetPosition | infrastructure/position_repository_impl.py:25-31 | a stored position with that key, or None exactly when no row has it |
| Repository.ListPositions | infrastructure/position_repository_impl.py:18-23 | a permutation of the table, in non-decreasing name order |
| Repository.FindPositionByName | application/position_service.py:48-54 | a stored position with exactly that name, or None exactly when no row has it |
| Repository.GetMunicipality | infrastructure/municipality_repository_impl.py:25-31 | a stored municipality with that key, or None exactly when no row has it |
| Repository.FindMunicipalityByName | application/employee_import_service.py:36 | a stored municipality with exactly that name, or None exactly when no row has it |
| Repository.ListMunicipalities | application/municipality_service.py:17-22 | every municipality (a permutation of the table), in non-decreasing name order |
| Repository.InsertPosition | infrastructure/position_repository_impl.py:33-44 | a duplicate name is refused (unique constraint, domain/models.py:30) and leaves the table as it was; otherwise the table gains exactly the new position with the next key |
| Repository.InsertMunicipality | infrastructure/municipality_repository_impl.py:33-43 | a duplicate name is refused and leaves the table as it was; otherwise the table gains exactly the new municipality with the next key |
| Repository.ReplacePositionAt | application/position_service.py:46 | the commit of an edited position is refused exactly when another row has its name; otherwise exactly row i is replaced |
| Repository.AssignIds | application/employee_import_service.py:60-61 | the bulk-inserted employees get consecutive keys from the next key, in staging order, fields otherwise unchanged |
| Repository.Store.BulkInsert | application/employee_import_service.py:60-61 | the employee table grows by exactly the staged employees with their new keys; the other tables are untouched |
| Repository.Store.AddPosition | infrastructure/position_repository_impl.py:33-44 | the store's position table and the result are those of `InsertPosition`; the constraints are preserved |
| Repository.Store.ReplacePosition | application/position_service.py:46 | the store's position table and the result are those of `ReplacePositionAt` |
| Repository.Store.AddMunicipality | infrastructure/municipality_repository_impl.py:33-43 | the store's municipality table and the result are those of `InsertMunicipality` |
| EmployeeService.BuildEmployee | application/employee_service.py:104-139 | the checks, first failure wins: duplicate NSS, then unknown position, then unknown municipality, then the type rule. Success comes exactly when all pass. The record carries the given fields and the upper-cased type; BASE takes the position's salary and 0 hours; HONORARY keeps the caller's values |
| EmployeeService.TypeRuleErrors | application/employee_service.py:115-127 | once the references resolve: BASE never fails; HONORARY without rate or hours fails; hours outside 1..40 fail; any other upper-cased type fails |
| EmployeeService.BaseIgnoresCallerValues | application/employee_service.py:117-119 | for BASE the rate and hours the caller passed make no difference to the result |
| EmployeeService.AddEmployee | application/employee_service.py:104-141 | a failure leaves the store unchanged and returns the error; success appends exactly the built employee with its new key |
| EmployeeService.SecondRegistrationFails | application/employee_service.py:104-105 | repeating a successful registration fails with the duplicate-NSS error |
| EmployeeService.DeleteEmployee | application/employee_service.py:50-59 | fails exactly when no employee has the NSS, changing nothing; otherwise removes exactly the row `find_employee` returns and reports True |
| EmployeeService.ApplyUpdate | application/employee_service.py:69-72 | fails exactly on a birth date that does not parse; otherwise sets the named attribute to the supplied value (the parsed date) and keeps every other one |
| EmployeeService.ApplyUpdates | application/employee_service.py:69-72 | the update loop never changes the key |
| EmployeeService.UpdateFailsOnlyOnBirthDate | application/employee_service.py:69-73 | the update loop fails exactly when some supplied birth date does not parse, and the error names such a text; no other validation is made |
| EmployeeService.UpdateSetsExactlyTheSuppliedKeys | application/employee_service.py:69-72 | attributes no update names keep their values; after a successful loop each key holds the value of its last update |
| EmployeeService.UpdateEmployee | application/employee_service.py:61-73 | the stored row becomes the result of the update loop, including the edits made before a failing birth date; the result is the employee or the error |
| EmployeeService.DialogNumber | gui/window_employee.py:118-119 | a blank rate or hours field becomes None; other text is parsed, and text that does not parse fails |
| PositionService.CreatePositionOn | application/position_service.py:25-34 | "Name is required" exactly when the name is empty and the salary positive; a duplicate name is refused by the commit; failures leave the table unchanged; success appends exactly a position with the given name, the given salary and the next key |
| PositionService.EmptyNameWithoutSalaryIsCreated | application/position_service.py:32-34 | an empty name with salary <= 0 passes the guard and is created |
| PositionService.CreatePosition | application/position_service.py:25-34 | the store's position table and the result are those of `CreatePositionOn` |
| PositionService.ApplyPositionUpdates | application/position_service.py:44-45 | the `setattr` loop never changes the key |
| PositionService.PositionUpdatesSetSuppliedAttributes | application/position_service.py:44-45 | an attribute holds the value of its last update, or its old value when no update names it |
| PositionService.UpdatePosition | application/position_service.py:36-46 | the edited position is committed, or refused when another position has its name; on success the same position (same key) is returned |
| MunicipalityService.CreateMunicipalityOn | application/municipality_service.py:24-32 | "Name is required" exactly when the name is empty, creating nothing; success appends exactly a municipality with that name and the next key; existing rows are never modified |
| MunicipalityService.CreateMunicipality | application/municipality_service.py:24-32 | the store's municipality table and the result are those of `CreateMunicipalityOn` |
| EmployeeImportService.ResolvePosition | application/employee_import_service.py:32-34 | a resolved position is in the table and has the row's name; the table only grows |
| EmployeeImportService.ResolveMunicipality | application/employee_import_service.py:36-38 | a resolved municipality is in the table and has the row's name; the only failure is the empty name; the table only grows |
| EmployeeImportService.RowStep | application/employee_import_service.py:31-58 | one row never removes or alters existing reference rows |
| EmployeeImportService.Run | application/employee_import_service.py:30-58 | the loop produces one result per row |
| EmployeeImportService.EveryRowCounted | application/employee_import_service.py:55-65 | inserted + failed equals the number of rows, and there is one error per failed row |
| EmployeeImportService.ErrorsInRowOrder | application/employee_import_service.py:53-58 | errors and staged employees are collected in row order |
| EmployeeImportService.RunPrefix | application/employee_import_service.py:30-58 | later rows do not change the results of earlier rows |
| EmployeeImportService.EveryRowProcessed | application/employee_import_service.py:30-58 | row k's result is its step against the tables rows 0..k-1 left, whatever their results were |
| EmployeeImportService.TablesOnlyGrow | application/employee_import_service.py:32-38 | over the whole import the reference tables only grow: created rows stay even when their row later fails |
| EmployeeImportService.PositionReusedByName | application/employee_import_service.py:32-33 | an existing position is reused by name: the table is unchanged and a staged employee refers to it |
| EmployeeImportService.MissingPositionCreated | application/employee_import_service.py:33-34 | a missing position is created with the row's rate as salary, stays, and is what later lookups by that name find |
| EmployeeImportService.MunicipalityReusedByName | application/employee_import_service.py:36-37 | an existing municipality is reused by name: the table is unchanged and a staged employee refers to it |
| EmployeeImportService.MissingMunicipalityCreated | application/employee_import_service.py:37-38 | a missing municipality is created, stays, and is what later lookups by that name find |
| EmployeeImportService.StagedRowCarriesParsedFields | application/employee_import_service.py:40-53 | a row is staged exactly when its references resolve and its four typed columns parse; the staged employee carries the parsed columns, the upper-cased type and the references' keys; there is no type or hours check |
| EmployeeImportService.RunExtend | application/employee_import_service.py:30-58 | the run over one more row is the earlier run followed by that row's step |
| EmployeeImportService.ImportRow | application/employee_import_service.py:31-58 | one row against the store does exactly what `RowStep` specifies, and leaves the employee table alone |
| EmployeeImportService.ImportCsv | application/employee_import_service.py:15-67 | the tables end as `Run` leaves them; the outcome counts and lists exactly `Run`'s results; the only bulk insert, after the loop, adds exactly the staged employees |
| SalaryWindow.Calculate | gui/window_salary.py:116-151 | "Employee not found" exactly without a current employee; "Unknown employee type" exactly for a type other than "BASE"/"HONORARY"; "Years of service is required" exactly for BASE with blank years; a BASE salary is the formula at the parsed years, an HONORARY one the formula at the parsed extra hours (0 when blank) |
| SalaryWindow.SearchTarget | gui/window_salary.py:78-89 | an employee is looked up only when the stripped text is all digits; the one found has that NSS and no earlier employee has it; none exactly when the text is not all digits or no employee has that NSS |
| SalaryWindow.SearchByRenderedNss | gui/window_salary.py:77-85 | typing a stored non-negative NSS as `str(nss)` renders it finds the first employee with that NSS, since the digits need no stripping and `int(str(n)) == n` |
| SalaryWindow.Window.constructor | gui/window_salary.py:41-74 | no current employee; the labels show "-"; no result |
| SalaryWindow.Window.ClearEmployeeInfo | gui/window_salary.py:109-113 | clears the current employee and the three labels, and nothing else |
| SalaryWindow.Window.ShowEmployee | gui/window_salary.py:90-106 | a found employee becomes current and fills the name and type labels; a missing rate raises before the rate label and inputs change; otherwise BASE enables years and clears extra hours, HONORARY the reverse, any other type leaves the inputs |
| SalaryWindow.Window.OnSearchEmployee | gui/window_salary.py:77-107 | the current employee becomes the search target; a found employee fills the labels and enables the field of its type, clearing the other; a missing rate raises once employee, name and type are set |
| SalaryWindow.Window.OnCalculate | gui/window_salary.py:116-153 | the outcome is `Calculate` on the current state; only a salary changes the result label |
| SalaryWindow.BaseSalaryRule | gui/window_salary.py:124-137 | BASE with a rate and integer years gets rate·40·(1 + 0.01·years), whatever the extra-hours field holds |
| SalaryWindow.BaseYearsOnlyParsed | gui/window_salary.py:130-137 | non-integer years are rejected; any integer, negative included, is used |
| SalaryWindow.HonorarySalaryRule | gui/window_salary.py:140-147 | HONORARY gets rate·hours·(1 + 0.002·extra), with a blank extra field as 0; the years field is not read |
| SalaryWindow.LowerCaseTypeIsUnknown | gui/window_salary.py:140-151 | the dispatch is case-sensitive: "base" and "honorary" are unknown types |
| SalaryWindow.SalaryMonotone | gui/window_salary.py:136-147 | with a non-negative rate and non-negative recorded hours, more years or more extra hours never lower the salary |
| SalaryWindow.WorkedExamples | gui/window_salary.py:136-147 | BASE 150.0 with 5 years gives 6300.0; HONORARY 100.0 × 20 h with 10 extra gives 2040.0 |
| MainWindow.TextMatch | gui/main_window.py:263-270 | an empty query matches every employee |
| MainWindow.TextMatchMeaning | gui/main_window.py:263-270 | the text condition holds exactly when the query is empty or a case-insensitive substring of the NSS, a name part, or the position or municipality name; it raises exactly when the `or` chain reaches a missing relation |
| MainWindow.FilterOutcome | gui/main_window.py:259-292 | the filter raises exactly when some cached employee raises; otherwise it is the cache's employees satisfying all four conditions, in order |
| MainWindow.FilterStep | gui/main_window.py:261-292 | one iteration of the filter loop, in the terms of its body |
| MainWindow.FilterEmployees | gui/main_window.py:259-292 | the loop computes `FilterOutcome` |
| MainWindow.FilterKeepsExactlyTheMatches | gui/main_window.py:259-292 | an employee is shown exactly when it is cached and satisfies all four conditions |
| MainWindow.NoFilterShowsEverything | gui/main_window.py:254-288 | a blank search text and "All" in every combo box show the whole cache |
| MainWindow.TypeFilterIgnoresCase | gui/main_window.py:285-288 | a stored type "base" passes the BASE type filter |
| MainWindow.StoredTypePassesItsFilter | gui/main_window.py:285-288 | an employee whose type was stored upper-cased, as `add_employee` and the import store it, is shown when the type combo selects that type, since upper-casing twice changes nothing |
| MainWindow.ShownCount | gui/main_window.py:242-251 | the rows before it can all be shown and the row at it, if any, lacks its position or municipality, so reading `position_rel.name` or `municipality_rel.name` raises |
| MainWindow.ShownAllUnlessUnshowable | gui/main_window.py:242-251 | `_fill_table` shows every row exactly when every row's position and municipality exist |
| MainWindow.UnshowableRowStopsUnfilteredTable | gui/main_window.py:235-251 | with a blank search and "All" in every combo, an employee without its position or municipality passes the filter and the table ends just before it |
| MainWindow.Bump | gui/main_window.py:395 | `data[k] = data.get(k, 0) + 1` keeps the existing keys in place and adds at most one entry |
| MainWindow.BumpCounts | gui/main_window.py:395 | one bump adds one to the bumped key and to the total, and keeps the keys distinct |
| MainWindow.TallyCounts | gui/main_window.py:390-395 | the report dict has distinct keys; each key's count is the number of employees with that name; the total is the number with the relation; the dict is empty exactly when none has one |
| MainWindow.CountReport | gui/main_window.py:389-399 | no chart exactly when the dict is empty, otherwise a chart of the counts |
| MainWindow.AgeBucket | gui/main_window.py:528-544 | an age has a bucket exactly when 18 < age <= 120, and it is the right-inclusive bin containing it |
| MainWindow.Ages | gui/main_window.py:521 | `dropna` keeps at most the frame's rows |
| MainWindow.BucketCounts | gui/main_window.py:544-549 | one count per label |
| MainWindow.BucketCountsCount | gui/main_window.py:544-549 | each label counts exactly the ages in its bin; together they count the ages in (18, 120] |
| MainWindow.AgeRanges | gui/main_window.py:511-549 | a frame error is reported; "No valid ages" exactly when no age survives `dropna`; otherwise a chart with the five labels and their counts |
| MainWindow.Window.constructor | gui/main_window.py:57-59 | empty cache and no selection before the first load |
| MainWindow.Window.FillTable | gui/main_window.py:240-251 | the table becomes the longest prefix of the rows whose position and municipality exist; it raises exactly when some row lacks one |
| MainWindow.Window.ApplyFilter | gui/main_window.py:253-294 | the table is kept when the filter raises; otherwise it shows the filter's result up to the first row `_fill_table` cannot show, raising exactly when there is such a row; cache and selection unchanged |
| MainWindow.Window.LoadEmployees | gui/main_window.py:235-238 | the cache becomes `list_employees` and the table is refiltered as in `ApplyFilter`; the selection resets to None exactly when neither the filter nor `_fill_table` raised |
| MainWindow.Window.ReportByPosition | gui/main_window.py:389-408 | the position report over the cache |
| MainWindow.Window.ReportByMunicipality | gui/main_window.py:410-429 | the municipality report over the cache |
| MainWindow.Window.ReportBaseVsHonorary | gui/main_window.py:431-455 | no chart exactly for an empty cache; BASE counts the upper-cased BASE types; base + honorary is the cache size |
| MainWindow.Window.ReportAgeRanges | gui/main_window.py:506-561 | the age report over the flat table of the cache |
| PandasService.Age | application/pandas_service.py:37-38 | the whole 365-day years between the dates: 365·age <= days < 365·(age + 1) |
| PandasService.AgeAtBoundary | application/pandas_service.py:38 | exactly n·365 days gives n; one day less gives n - 1 |
| PandasService.PositionName | application/pandas_service.py:23 | the position's name, or None exactly when the relation is missing |
| PandasService.MunicipalityName | application/pandas_service.py:24 | the municipality's name, or None exactly when the relation is missing |
| PandasService.Record | application/pandas_service.py:18-38 | the scalar fields are copied unchanged; the birth date is coerced; an age exists exactly when the date converts, and then is the floor of days / 365 |
| PandasService.Frame | application/pandas_service.py:16-40 | an empty list has no `birth_date` column (error); otherwise one record per employee |
| PandasService.EmployeesToDataFrame | application/pandas_service.py:10-40 | the two passes of the loop produce `Frame` |
| EmployeeExportService.ExportToCsv | application/employee_export_service.py:15-41 | "No employees to export." exactly for an empty list; a write failure exactly for a failing non-empty write, with "Error writing CSV: " before the exception text; otherwise the flat table of exactly the given employees |
| EmployeeExportService.ExportWritesTheFrame | application/employee_export_service.py:36-39 | a successful export writes exactly the flat table of the given employees, unfiltered |
| Settings.GetEnv | config/settings.py:15-26 | `os.getenv` with a default |
| Settings.GetDatabaseUrl | config/settings.py:10-27 | a MySQL URL exactly when the lower-cased engine is "mysql", built from the five settings; otherwise `sqlite:///` + DB_NAME (default employees.db) |
| Settings.EmptyEnvironmentIsSqlite | config/settings.py:25-27 | with nothing set the URL is `sqlite:///employees.db` |
| Settings.MysqlEngineIgnoresCase | config/settings.py:15 | the engine name "MySQL" is read as "mysql" |
| Settings.MysqlDefaults | config/settings.py:15-23 | "MySQL" selects MySQL, which defaults to root, rootpass, localhost, 3306 and employees_db |
| ListSearch.Query | gui/position_window.py:142 | the normalised query has the stripped text's length |
| ListSearch.BlankQuery | gui/position_window.py:142-145 | the query is empty exactly when the typed text is all whitespace |
| ListSearch.NameSearch | gui/position_window.py:141-150 | the search never shows more items than are cached |
| ListSearch.BlankSearchShowsAll | gui/position_window.py:142-145 | an empty or whitespace query shows the whole cache |
| ListSearch.NameSearchMembers | gui/position_window.py:147-150 | a non-empty query shows exactly the cached items whose lowercased name contains it |
| ListSearch.NameSearchConcat | gui/position_window.py:147-150 | the search keeps cache order: searching a concatenation is concatenating the searches |
| ListSearch.NameSearchSingleton | gui/position_window.py:147-150 | one item is shown exactly when the query is blank or its lowercased name contains the query |
| PositionWindow.Window.constructor | gui/position_window.py:63-74 | the window opens with the listed positions, all shown, and no selection |
| PositionWindow.Window.ApplyFilter | gui/position_window.py:141-152 | the table shows the name search of the cache for the normalised text |
| PositionWindow.Window.LoadPositions | gui/position_window.py:121-124 | the cache becomes `list_positions`, the table is refiltered, and the selection resets to None |
| PositionWindow.Window.FindById | gui/position_window.py:221-225 | the first cached position with that id, or None exactly when none has it |
| MunicipalityWindow.Window.constructor | gui/municipality_window.py:56-67 | the window opens with the listed municipalities, all shown, and no selection |
| MunicipalityWindow.Window.ApplyFilter | gui/municipality_window.py:133-144 | the table shows the name search of the cache for the normalised text; blank text shows all and other text the matching names, in order (the `ListSearch` lemmas) |
| MunicipalityWindow.Window.LoadMunicipalities | gui/municipality_window.py:114-117 | the cache becomes `list_municipalities`, the table is refiltered, and the selection resets to None |
| MunicipalityWindow.Window.FindById | gui/municipality_window.py:210-214 | the first cached municipality with that id, or None exactly when none has it |

## Left out

- Qt plumbing is not modelled: widgets, layouts, signals, message boxes, the chart windows and `closeEvent`. The warning and error messages appear as outcome constructors.
- The edit dialogs `_add_*`/`_edit_*` collect input and call the services, which are modelled. They are not modelled themselves.
- PositionService.CreatePositionOn and PositionService.UpdatePosition: take the base salary as a `real`, the declared type, and the `SetBaseSalary` update carries a `real`. `PositionDialog.get_data` passes the salary text (gui/position_window.py:52-53) to both `create_position` and `update_position` (gui/position_window.py:172, 192). From the GUI, an empty name therefore makes the guard's `base_salary > 0` raise TypeError instead of "Name is required", and an edit sets `base_salary` to text. Neither is modelled.
- The municipality window's edit and delete handlers call `update_municipality` and `delete_municipality`, which the service does not define (gui/municipality_window.py:183, 204). They are not modelled.
- `PositionWindow._delete_position` deletes through the session directly (gui/position_window.py:213-215), and its button is never added to the layout. It is not modelled.
- SQLAlchemy sessions, commit/refresh and the database engine become the in-memory `Repository.Store`.
  - Foreign keys are not enforced, as in SQLite's default configuration.
  - Aliasing between ORM objects held in window caches and the session is not modelled.
  - String order is code-point order, which is SQLite's BINARY collation.
  - Rows with equal sort keys come out in one fixed order, while the database leaves that order unspecified.
- Repository.Store.AddEmployee: models the documented contract, that the employee is persisted with a key. `EmployeeRepositoryImpl.add` commits without `session.add` (infrastructure/employee_repository_impl.py:65), so the refresh that follows fails on the unsaved object.
- PositionService.UpdatePosition, Repository.ReplacePositionAt and Repository.Store.ReplacePosition: model the intended contract of `PositionRepositoryImpl.update`, that the edited position is committed and returned. Neither `PositionRepositoryImpl` (infrastructure/position_repository_impl.py:13-44) nor `IPositionRepository` defines `update`, so the call at application/position_service.py:46 raises AttributeError after the `setattr` loop. The edits then stay uncommitted on the session's object.
- EmployeeService.UpdateEmployee: when a birth date does not parse, the model writes the edits made before it to the store. In the source they stay on the session's identity-mapped object, uncommitted (the session has autoflush off, infrastructure/db.py:19), until a later commit flushes them. The model treats the session as the store.
- Models.Employee: `nss` is nullable in the table (domain/models.py:46), but the model types it `int`. Every writer supplies an integer: `add_employee` (application/employee_service.py:128), the import (application/employee_import_service.py:41) and the edit dialog (gui/window_employee.py:110). A row with a null NSS is not modelled.
- MainWindow.Window.FillTable: the row that raises has already been inserted, with its first cells set. The model's table holds only the rows filled completely.
- Repository.Store.BulkInsert and Repository.AssignIds: model the apparent intended contract of `bulk_insert`, which `EmployeeService` does not define (application/employee_import_service.py:61).
- Repository.FindPositionByName and Repository.FindMunicipalityByName: model as exact-name lookups the `find_by_name` methods that the position repository and the municipality service do not define (application/position_service.py:54, application/employee_import_service.py:36).
- The wrong module import in application/municipality_service.py:4 is not modelled.
- The unused `BASE_RATES` table (application/employee_service.py:21-27) is not modelled.
- The `main.py` wiring is not modelled. It passes an argument that `MainWindow` does not accept.
- EmployeeImportService.ResolvePosition: a new position needs a salary text that parses as a number. Otherwise the row fails before the position is created.
  - The source would store the text itself as the base salary, and the row would then fail at `float()` (line 49). A real-valued salary cannot hold text.
  - The row still fails in the model, but its error is `PositionSalaryNotNumber` and the table does not gain that position.
- File I/O is not modelled. The CSV file arrives as already-split rows (`csv.DictReader`), and a failure to open the file is not modelled. The `print` of each row error is not modelled either.
- `int()`, `float()`, `strptime("%Y-%m-%d")` and `to_datetime(errors="coerce")` are uninterpreted partial functions passed as parameters. Calendar validation is not modelled.
- Floating point is modelled as exact `real` arithmetic. The "%.2f" formatting of the rate and result labels (gui/window_salary.py:96, 153) is not modelled: the labels hold the numbers.
- The "No employee age data available." branch (gui/main_window.py:517-519) is not modelled. A non-empty list always yields a frame with an `age` column, and an empty list already fails in `employees_to_dataframe`.
- pandas internals (`DataFrame`, `pd.cut`, `value_counts`, `to_csv`) are modelled by their results, and `pd.Timestamp.today()` is a parameter.
- String operations are ASCII only. `str.isdigit`, `str.lower`/`upper` and `str.strip` on non-ASCII characters are not modelled.
- `_open_filter_position` and the other pandas table views only display data. They are not modelled.
