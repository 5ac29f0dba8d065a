/** Creating, editing and looking up positions. */
module PositionService {
  import opened Wrappers
  import opened Models
  import opened Repository

  /** "Name is required", or the IntegrityError of the commit. */
  datatype PositionError = NameRequired | Integrity(cause: StoreError)

  /** `create_position(name, base_salary)`. The guard is kept as written:
      it refuses only an empty name together with a positive salary, so an
      empty name with a salary of zero or less reaches the insert. */
  function CreatePositionOn(ps: seq<Position>, name: string, baseSalary: real)
    : (r: (Result<Position, PositionError>, seq<Position>))
    ensures r.0 == Err(NameRequired) <==> name == "" && baseSalary > 0.0
    ensures r.0.Err? ==> r.1 == ps
    ensures r.0.Err? && r.0 != Err(NameRequired) ==>
              r.0 == Err(Integrity(UniqueViolation(name)))
              && exists i :: 0 <= i < |ps| && ps[i].name == name
    ensures r.0.Ok? <==> !(name == "" && baseSalary > 0.0) && FindPositionByName(ps, name).None?
    ensures r.0.Ok? ==> && r.0.value.name == name && r.0.value.baseSalary == baseSalary
                        && r.0.value.id == NextPositionId(ps)
                        && r.1 == ps + [r.0.value]
  {
    if name == "" && baseSalary > 0.0 then (Err(NameRequired), ps)
    else
      var ins := InsertPosition(ps, name, baseSalary);
      match ins.0
      case Err(e) => (Err(Integrity(e)), ins.1)
      case Ok(p) => (Ok(p), ins.1)
  }

  /** The odd guard in action: an empty name with a non-positive salary is
      stored, as long as no position has the empty name yet. */
  lemma EmptyNameWithoutSalaryIsCreated(ps: seq<Position>, baseSalary: real)
    requires baseSalary <= 0.0
    requires forall i :: 0 <= i < |ps| ==> ps[i].name != ""
    ensures CreatePositionOn(ps, "", baseSalary).0 == Ok(Position(NextPositionId(ps), "", baseSalary))
  {
  }

  method CreatePosition(store: Store, name: string, baseSalary: real)
    returns (r: Result<Position, PositionError>)
    requires store.Valid()
    modifies store
    ensures store.Valid()
    ensures (r, store.positions) == CreatePositionOn(old(store.positions), name, baseSalary)
    ensures store.employees == old(store.employees)
    ensures store.municipalities == old(store.municipalities)
  {
    if name == "" && baseSalary > 0.0 {
      return Err(NameRequired);
    }
    var ins := store.AddPosition(name, baseSalary);
    match ins
    case Err(e) => r := Err(Integrity(e));
    case Ok(p) => r := Ok(p);
  }

  /** One `key=value` pair of `update_position`: the edit dialog supplies
      `name` and `base_salary`. */
  datatype PositionUpdate = Rename(name: string) | SetBaseSalary(baseSalary: real)

  function ApplyPositionUpdate(p: Position, u: PositionUpdate): Position {
    match u
    case Rename(n) => p.(name := n)
    case SetBaseSalary(s) => p.(baseSalary := s)
  }

  /** The position after the `setattr` loop over `us`. */
  function ApplyPositionUpdates(p: Position, us: seq<PositionUpdate>): (r: Position)
    ensures r.id == p.id
    decreases |us|
  {
    if |us| == 0 then p
    else ApplyPositionUpdate(ApplyPositionUpdates(p, us[..|us| - 1]), us[|us| - 1])
  }

  /** Exactly the supplied attributes are set: each holds the value of the
      last update naming it, or its old value when none does. */
  lemma {:induction false} PositionUpdatesSetSuppliedAttributes(p: Position, us: seq<PositionUpdate>)
    ensures var r := ApplyPositionUpdates(p, us);
            && ((forall k :: 0 <= k < |us| ==> !us[k].Rename?) ==> r.name == p.name)
            && ((forall k :: 0 <= k < |us| ==> !us[k].SetBaseSalary?) ==> r.baseSalary == p.baseSalary)
            && (forall k :: 0 <= k < |us| && us[k].Rename? && (forall j :: k < j < |us| ==> !us[j].Rename?)
                            ==> r.name == us[k].name)
            && (forall k :: 0 <= k < |us| && us[k].SetBaseSalary?
                            && (forall j :: k < j < |us| ==> !us[j].SetBaseSalary?)
                            ==> r.baseSalary == us[k].baseSalary)
    decreases |us|
  {
    if |us| > 0 {
      var n := |us| - 1;
      var init := us[..n];
      PositionUpdatesSetSuppliedAttributes(p, init);
      assert forall k :: 0 <= k < n ==> init[k] == us[k];
    }
  }

  /** `update_position(position, **updates)`: the position with key `id`
      gets the updates in order and the edit is committed; a name that
      another position already has is refused by the commit and the table
      keeps its old rows. On success the same position is returned. */
  method UpdatePosition(store: Store, id: int, us: seq<PositionUpdate>)
    returns (r: Result<Position, PositionError>)
    requires store.Valid()
    requires GetPosition(store.positions, id).Some?
    modifies store
    ensures store.Valid()
    ensures var i := IndexOfPosition(old(store.positions), id).value;
            var edited := ApplyPositionUpdates(old(store.positions)[i], us);
            var commit := ReplacePositionAt(old(store.positions), i, edited);
            && store.positions == commit.1
            && (commit.0.Ok? ==> r == Ok(edited))
            && (commit.0.Err? ==> r == Err(Integrity(commit.0.error)))
    ensures r.Ok? ==> r.value.id == id
    ensures store.employees == old(store.employees)
    ensures store.municipalities == old(store.municipalities)
  {
    var i := IndexOfPosition(store.positions, id).value;
    var p := store.positions[i];
    var k := 0;
    while k < |us|
      invariant 0 <= k <= |us|
      invariant p == ApplyPositionUpdates(store.positions[i], us[..k])
    {
      assert us[..k + 1][..k] == us[..k];
      p := ApplyPositionUpdate(p, us[k]);
      k := k + 1;
    }
    assert us[..|us|] == us;
    var commit := store.ReplacePosition(i, p);
    match commit
    case Err(e) => r := Err(Integrity(e));
    case Ok(q) => r := Ok(q);
  }
}
