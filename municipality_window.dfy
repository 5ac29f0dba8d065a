/** The "Manage Municipalities" window: a cached list of municipalities, the table
    the search box filters it into, and the id of the selected row. */
module MunicipalityWindow {
  import opened Wrappers
  import opened Models
  import Repository
  import ListSearch

  function MunicipalityName(m: Municipality): string {
    m.name
  }

  class Window {
    /** `_municipalities_cache`: the municipalities as last listed by the service. */
    var municipalitiesCache: seq<Municipality>
    /** The municipalities the table currently shows. */
    var shownRows: seq<Municipality>
    /** `_selected_id`. */
    var selectedId: Option<int>

    /** Opening the window loads the municipalities with an empty search box. */
    constructor(table: seq<Municipality>)
      ensures municipalitiesCache == Repository.ListMunicipalities(table)
      ensures shownRows == municipalitiesCache
      ensures selectedId == None
    {
      municipalitiesCache := Repository.ListMunicipalities(table);
      shownRows := Repository.ListMunicipalities(table);
      selectedId := None;
    }

    /** `_apply_filter`: fill the table from the cache and the search text. */
    method ApplyFilter(searchText: string)
      modifies this`shownRows
      ensures shownRows == ListSearch.NameSearch(municipalitiesCache, ListSearch.Query(searchText), MunicipalityName)
    {
      var query := ListSearch.Query(searchText);
      if query == "" {
        shownRows := municipalitiesCache;
      } else {
        shownRows := ListSearch.NameSearch(municipalitiesCache, query, MunicipalityName);
      }
    }

    /** `_load_municipalities`: list the municipalities again, refilter and clear the
        selection. */
    method LoadMunicipalities(table: seq<Municipality>, searchText: string)
      modifies this
      ensures municipalitiesCache == Repository.ListMunicipalities(table)
      ensures shownRows == ListSearch.NameSearch(municipalitiesCache, ListSearch.Query(searchText), MunicipalityName)
      ensures selectedId == None
    {
      municipalitiesCache := Repository.ListMunicipalities(table);
      ApplyFilter(searchText);
      selectedId := None;
    }

    /** `_find_by_id`: the first cached municipality with that id, or None. */
    method FindById(id: int) returns (r: Option<Municipality>)
      ensures r.None? <==> forall i :: 0 <= i < |municipalitiesCache| ==> municipalitiesCache[i].id != id
      ensures r.Some? ==> exists i :: 0 <= i < |municipalitiesCache| && municipalitiesCache[i] == r.value
                            && r.value.id == id
                            && forall j :: 0 <= j < i ==> municipalitiesCache[j].id != id
    {
      var i := 0;
      while i < |municipalitiesCache|
        invariant 0 <= i <= |municipalitiesCache|
        invariant forall j :: 0 <= j < i ==> municipalitiesCache[j].id != id
      {
        if municipalitiesCache[i].id == id {
          return Some(municipalitiesCache[i]);
        }
        i := i + 1;
      }
      return None;
    }
  }
}
