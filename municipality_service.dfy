/** Creating municipalities. */
module MunicipalityService {
  import opened Wrappers
  import opened Models
  import opened Repository

  /** "Name is required", or the IntegrityError of the commit. */
  datatype MunicipalityError = NameRequired | Integrity(cause: StoreError)

  /** `create_municipality(name)`: an empty name raises and creates nothing;
      otherwise a new municipality with exactly that name is appended and
      the existing ones are untouched. */
  function CreateMunicipalityOn(ms: seq<Municipality>, name: string)
    : (r: (Result<Municipality, MunicipalityError>, seq<Municipality>))
    ensures r.0 == Err(NameRequired) <==> name == ""
    ensures r.0.Err? ==> r.1 == ms
    ensures r.0.Ok? <==> name != "" && FindMunicipalityByName(ms, name).None?
    ensures r.0.Ok? ==> r.0.value.name == name && r.0.value.id == NextMunicipalityId(ms)
                        && r.1 == ms + [r.0.value]
    ensures |r.1| >= |ms| && r.1[..|ms|] == ms
  {
    if name == "" then (Err(NameRequired), ms)
    else
      var ins := InsertMunicipality(ms, name);
      match ins.0
      case Err(e) => (Err(Integrity(e)), ins.1)
      case Ok(m) => (Ok(m), ins.1)
  }

  method CreateMunicipality(store: Store, name: string)
    returns (r: Result<Municipality, MunicipalityError>)
    requires store.Valid()
    modifies store
    ensures store.Valid()
    ensures (r, store.municipalities) == CreateMunicipalityOn(old(store.municipalities), name)
    ensures store.employees == old(store.employees)
    ensures store.positions == old(store.positions)
  {
    if name == "" {
      return Err(NameRequired);
    }
    var ins := store.AddMunicipality(name);
    match ins
    case Err(e) => r := Err(Integrity(e));
    case Ok(m) => r := Ok(m);
  }
}
