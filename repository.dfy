/** The in-memory store behind the three repositories: one table per entity,
    the queries the repositories run over them, and the writes. Primary keys
    follow SQLite's rowid rule: a new row gets one more than the largest key
    in its table, or 1 in an empty table. */
module Repository {
  import opened Wrappers
  import opened Models
  import Search
  import Ordering

  /** The IntegrityError a commit raises on a duplicate unique name. */
  datatype StoreError = UniqueViolation(name: string)

  /** The next rowid of a table whose keys are given by `key`. */
  function NextKey<T>(t: seq<T>, key: T -> nat): (r: nat)
    ensures r >= 1
    ensures forall i :: 0 <= i < |t| ==> key(t[i]) < r
  {
    if |t| == 0 then 1
    else
      var m := NextKey(t[..|t| - 1], key);
      var k := key(t[|t| - 1]) + 1;
      assert forall i :: 0 <= i < |t| - 1 ==> t[i] == t[..|t| - 1][i];
      if k > m then k else m
  }

  function EmployeeKey(e: Employee): nat {
    if e.id.Some? then e.id.value else 0
  }

  function NextEmployeeId(t: seq<Employee>): (r: nat)
    ensures r >= 1 && forall i :: 0 <= i < |t| && t[i].id.Some? ==> t[i].id.value < r
  {
    NextKey(t, EmployeeKey)
  }

  function NextPositionId(t: seq<Position>): (r: nat)
    ensures r >= 1 && forall i :: 0 <= i < |t| ==> t[i].id < r
  {
    NextKey(t, (p: Position) => p.id)
  }

  function NextMunicipalityId(t: seq<Municipality>): (r: nat)
    ensures r >= 1 && forall i :: 0 <= i < |t| ==> t[i].id < r
  {
    NextKey(t, (m: Municipality) => m.id)
  }

  // ---------------------------------------------------------------------
  // Queries

  /** `list_employees`: every employee, ordered by `last_name_f`. */
  function ListEmployees(t: seq<Employee>): (r: seq<Employee>)
    ensures multiset(r) == multiset(t)
    ensures forall i, j :: 0 <= i < j < |r| ==> Ordering.StrLe(r[i].lastNameF, r[j].lastNameF)
  {
    Ordering.SortBy(t, (e: Employee) => e.lastNameF)
  }

  /** The position in the table of the employee with primary key `id`. */
  function IndexOfEmployee(t: seq<Employee>, id: int): (r: Option<nat>)
    ensures r.Some? ==> r.value < |t| && HasId(t[r.value], id)
    ensures r.None? <==> forall i :: 0 <= i < |t| ==> !HasId(t[i], id)
  {
    Search.FindFirst(t, (e: Employee) => HasId(e, id))
  }

  /** `get(employee_id)`: the employee with that primary key, or None. */
  function GetEmployee(t: seq<Employee>, id: int): (r: Option<Employee>)
    ensures r.Some? ==> r.value in t && HasId(r.value, id)
    ensures r.None? <==> forall i :: 0 <= i < |t| ==> !HasId(t[i], id)
  {
    match IndexOfEmployee(t, id)
    case None => None
    case Some(i) => Some(t[i])
  }

  /** In a well-formed table the key identifies one row, so `get` returns it. */
  lemma GetEmployeeIsTheRow(t: seq<Employee>, i: nat)
    requires EmployeeTableOk(t) && i < |t|
    ensures GetEmployee(t, t[i].id.value) == Some(t[i])
    ensures IndexOfEmployee(t, t[i].id.value) == Some(i)
  {
    assert HasId(t[i], t[i].id.value);
  }

  /** `find_by_nss(nss)`: the first employee, in table order, with that NSS,
      or None when there is none. */
  function FindByNss(t: seq<Employee>, nss: int): (r: Option<Employee>)
    ensures r.Some? ==> r.value.nss == nss
    ensures r.Some? ==> exists i :: 0 <= i < |t| && t[i] == r.value
                         && forall j :: 0 <= j < i ==> t[j].nss != nss
    ensures r.None? <==> forall i :: 0 <= i < |t| ==> t[i].nss != nss
  {
    match Search.FindFirst(t, (e: Employee) => e.nss == nss)
    case None => None
    case Some(i) => Some(t[i])
  }

  /** The position table's position of a position with primary key `id`. */
  function IndexOfPosition(t: seq<Position>, id: int): (r: Option<nat>)
    ensures r.Some? ==> r.value < |t| && t[r.value].id == id
    ensures r.None? <==> forall i :: 0 <= i < |t| ==> t[i].id != id
  {
    Search.FindFirst(t, (p: Position) => p.id == id)
  }

  /** `get(position_id)`: the position with that primary key, or None. */
  function GetPosition(t: seq<Position>, id: int): (r: Option<Position>)
    ensures r.Some? ==> r.value in t && r.value.id == id
    ensures r.None? <==> forall i :: 0 <= i < |t| ==> t[i].id != id
  {
    match IndexOfPosition(t, id)
    case None => None
    case Some(i) => Some(t[i])
  }

  /** `find_by_name(name)`: the position with exactly that name, or None.
      The name match is exact and case-sensitive. */
  function FindPositionByName(t: seq<Position>, name: string): (r: Option<Position>)
    ensures r.Some? ==> r.value in t && r.value.name == name
    ensures r.None? <==> forall i :: 0 <= i < |t| ==> t[i].name != name
  {
    match Search.FindFirst(t, (p: Position) => p.name == name)
    case None => None
    case Some(i) => Some(t[i])
  }

  /** `list_positions`: every position, ordered by name. */
  function ListPositions(t: seq<Position>): (r: seq<Position>)
    ensures multiset(r) == multiset(t)
    ensures forall i, j :: 0 <= i < j < |r| ==> Ordering.StrLe(r[i].name, r[j].name)
  {
    Ordering.SortBy(t, (p: Position) => p.name)
  }

  /** `get(municipality_id)`: the municipality with that key, or None. */
  function GetMunicipality(t: seq<Municipality>, id: int): (r: Option<Municipality>)
    ensures r.Some? ==> r.value in t && r.value.id == id
    ensures r.None? <==> forall i :: 0 <= i < |t| ==> t[i].id != id
  {
    match Search.FindFirst(t, (m: Municipality) => m.id == id)
    case None => None
    case Some(i) => Some(t[i])
  }

  /** `find_by_name(name)`: the municipality with exactly that name, or None. */
  function FindMunicipalityByName(t: seq<Municipality>, name: string): (r: Option<Municipality>)
    ensures r.Some? ==> r.value in t && r.value.name == name
    ensures r.None? <==> forall i :: 0 <= i < |t| ==> t[i].name != name
  {
    match Search.FindFirst(t, (m: Municipality) => m.name == name)
    case None => None
    case Some(i) => Some(t[i])
  }

  /** `list_municipalities`: every municipality, ordered by name. */
  function ListMunicipalities(t: seq<Municipality>): (r: seq<Municipality>)
    ensures multiset(r) == multiset(t)
    ensures forall i, j :: 0 <= i < j < |r| ==> Ordering.StrLe(r[i].name, r[j].name)
  {
    Ordering.SortBy(t, (m: Municipality) => m.name)
  }

  // ---------------------------------------------------------------------
  // Writes, as functions of the old table

  /** add(name, base_salary) followed by commit: a new row with the next key,
      or the unique-name violation, which leaves the table as it was. */
  function InsertPosition(t: seq<Position>, name: string, baseSalary: real)
    : (r: (Result<Position, StoreError>, seq<Position>))
    ensures r.0.Err? <==> exists i :: 0 <= i < |t| && t[i].name == name
    ensures r.0.Err? ==> r.1 == t && r.0.error == UniqueViolation(name)
    ensures r.0.Ok? ==> r.0.value == Position(NextPositionId(t), name, baseSalary)
                        && r.1 == t + [r.0.value]
  {
    if FindPositionByName(t, name).Some? then (Err(UniqueViolation(name)), t)
    else
      var p := Position(NextPositionId(t), name, baseSalary);
      (Ok(p), t + [p])
  }

  /** add(name) followed by commit, for municipalities. */
  function InsertMunicipality(t: seq<Municipality>, name: string)
    : (r: (Result<Municipality, StoreError>, seq<Municipality>))
    ensures r.0.Err? <==> exists i :: 0 <= i < |t| && t[i].name == name
    ensures r.0.Err? ==> r.1 == t && r.0.error == UniqueViolation(name)
    ensures r.0.Ok? ==> r.0.value == Municipality(NextMunicipalityId(t), name)
                        && r.1 == t + [r.0.value]
  {
    if FindMunicipalityByName(t, name).Some? then (Err(UniqueViolation(name)), t)
    else
      var m := Municipality(NextMunicipalityId(t), name);
      (Ok(m), t + [m])
  }

  /** Committing an edit of the position at index `i`: refused when the new
      name belongs to another row. */
  function ReplacePositionAt(t: seq<Position>, i: nat, p: Position)
    : (r: (Result<Position, StoreError>, seq<Position>))
    requires i < |t|
    ensures r.0.Err? <==> exists j :: 0 <= j < |t| && j != i && t[j].name == p.name
    ensures r.0.Err? ==> r.1 == t
    ensures r.0.Ok? ==> r.0.value == p && r.1 == t[i := p]
  {
    if exists j :: 0 <= j < |t| && j != i && t[j].name == p.name then (Err(UniqueViolation(p.name)), t)
    else (Ok(p), t[i := p])
  }

  /** The keys a bulk insert gives the staged employees: consecutive rowids
      from `start`, in staging order. */
  function AssignIds(staged: seq<Employee>, start: nat): (r: seq<Employee>)
    ensures |r| == |staged|
    ensures forall k :: 0 <= k < |r| ==> r[k] == staged[k].(id := Some(start + k))
  {
    seq(|staged|, k requires 0 <= k < |staged| => staged[k].(id := Some(start + k)))
  }

  // ---------------------------------------------------------------------
  // The store

  class Store {
    var employees: seq<Employee>
    var positions: seq<Position>
    var municipalities: seq<Municipality>

    ghost predicate Valid()
      reads this
    {
      EmployeeTableOk(employees) && PositionTableOk(positions) && MunicipalityTableOk(municipalities)
    }

    constructor ()
      ensures Valid()
      ensures employees == [] && positions == [] && municipalities == []
    {
      employees, positions, municipalities := [], [], [];
    }

    /** `add(employee)`: the employee is persisted and returned with its key. */
    method AddEmployee(e: Employee) returns (saved: Employee)
      requires Valid()
      modifies this
      ensures Valid()
      ensures saved == e.(id := Some(NextEmployeeId(old(employees))))
      ensures employees == old(employees) + [saved]
      ensures positions == old(positions) && municipalities == old(municipalities)
    {
      saved := e.(id := Some(NextEmployeeId(employees)));
      employees := employees + [saved];
    }

    /** `update(employee)`: commits an in-place edit of the row at `i`; the
        key is not among the editable fields. */
    method ReplaceEmployee(i: nat, e: Employee)
      requires Valid() && i < |employees| && e.id == employees[i].id
      modifies this
      ensures Valid()
      ensures employees == old(employees)[i := e]
      ensures positions == old(positions) && municipalities == old(municipalities)
    {
      employees := employees[i := e];
    }

    /** `delete(employee_id)`: False and no change for an unknown key;
        otherwise True and exactly that row is gone. */
    method DeleteEmployee(id: int) returns (deleted: bool)
      requires Valid()
      modifies this
      ensures Valid()
      ensures deleted <==> GetEmployee(old(employees), id).Some?
      ensures !deleted ==> employees == old(employees)
      ensures deleted ==> var i := IndexOfEmployee(old(employees), id).value;
                          employees == old(employees)[..i] + old(employees)[i + 1..]
      ensures positions == old(positions) && municipalities == old(municipalities)
    {
      var k := IndexOfEmployee(employees, id);
      if k.None? {
        return false;
      }
      var i := k.value;
      RemovePreservesTable(employees, i);
      employees := employees[..i] + employees[i + 1..];
      return true;
    }

    /** The bulk insert the import ends with: every staged employee is
        persisted, in order, with consecutive new keys. */
    method BulkInsert(staged: seq<Employee>)
      requires Valid()
      modifies this
      ensures Valid()
      ensures employees == old(employees) + AssignIds(staged, NextEmployeeId(old(employees)))
      ensures positions == old(positions) && municipalities == old(municipalities)
    {
      var added := AssignIds(staged, NextEmployeeId(employees));
      employees := employees + added;
    }

    method AddPosition(name: string, baseSalary: real) returns (r: Result<Position, StoreError>)
      requires Valid()
      modifies this
      ensures Valid()
      ensures (r, positions) == InsertPosition(old(positions), name, baseSalary)
      ensures employees == old(employees) && municipalities == old(municipalities)
    {
      var res := InsertPosition(positions, name, baseSalary);
      r, positions := res.0, res.1;
    }

    method ReplacePosition(i: nat, p: Position) returns (r: Result<Position, StoreError>)
      requires Valid() && i < |positions| && p.id == positions[i].id
      modifies this
      ensures Valid()
      ensures (r, positions) == ReplacePositionAt(old(positions), i, p)
      ensures employees == old(employees) && municipalities == old(municipalities)
    {
      var res := ReplacePositionAt(positions, i, p);
      r, positions := res.0, res.1;
    }

    method AddMunicipality(name: string) returns (r: Result<Municipality, StoreError>)
      requires Valid()
      modifies this
      ensures Valid()
      ensures (r, municipalities) == InsertMunicipality(old(municipalities), name)
      ensures employees == old(employees) && positions == old(positions)
    {
      var res := InsertMunicipality(municipalities, name);
      r, municipalities := res.0, res.1;
    }
  }

  lemma RemovePreservesTable(t: seq<Employee>, i: nat)
    requires EmployeeTableOk(t) && i < |t|
    ensures EmployeeTableOk(t[..i] + t[i + 1..])
  {
    var u := t[..i] + t[i + 1..];
    assert forall k :: 0 <= k < |u| ==> u[k] == (if k < i then t[k] else t[k + 1]);
  }
}
