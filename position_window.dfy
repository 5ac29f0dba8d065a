/** The "Manage Position" window: a cached list of positions, the table
    the search box filters it into, and the id of the selected row. */
module PositionWindow {
  import opened Wrappers
  import opened Models
  import Repository
  import ListSearch

  function PositionName(p: Position): string {
    p.name
  }

  class Window {
    /** `_positions_cache`: the positions as last listed by the service. */
    var positionsCache: seq<Position>
    /** The positions the table currently shows. */
    var shownRows: seq<Position>
    /** `_selected_id`. */
    var selectedId: Option<int>

    /** Opening the window loads the positions with an empty search box. */
    constructor(table: seq<Position>)
      ensures positionsCache == Repository.ListPositions(table)
      ensures shownRows == positionsCache
      ensures selectedId == None
    {
      positionsCache := Repository.ListPositions(table);
      shownRows := Repository.ListPositions(table);
      selectedId := None;
    }

    /** `_apply_filter`: fill the table from the cache and the search text. */
    method ApplyFilter(searchText: string)
      modifies this`shownRows
      ensures shownRows == ListSearch.NameSearch(positionsCache, ListSearch.Query(searchText), PositionName)
    {
      var query := ListSearch.Query(searchText);
      if query == "" {
        shownRows := positionsCache;
      } else {
        shownRows := ListSearch.NameSearch(positionsCache, query, PositionName);
      }
    }

    /** `_load_positions`: list the positions again, refilter and clear the
        selection. */
    method LoadPositions(table: seq<Position>, searchText: string)
      modifies this
      ensures positionsCache == Repository.ListPositions(table)
      ensures shownRows == ListSearch.NameSearch(positionsCache, ListSearch.Query(searchText), PositionName)
      ensures selectedId == None
    {
      positionsCache := Repository.ListPositions(table);
      ApplyFilter(searchText);
      selectedId := None;
    }

    /** `_find_by_id`: the first cached position with that id, or None. */
    method FindById(id: int) returns (r: Option<Position>)
      ensures r.None? <==> forall i :: 0 <= i < |positionsCache| ==> positionsCache[i].id != id
      ensures r.Some? ==> exists i :: 0 <= i < |positionsCache| && positionsCache[i] == r.value
                            && r.value.id == id
                            && forall j :: 0 <= j < i ==> positionsCache[j].id != id
    {
      var i := 0;
      while i < |positionsCache|
        invariant 0 <= i <= |positionsCache|
        invariant forall j :: 0 <= j < i ==> positionsCache[j].id != id
      {
        if positionsCache[i].id == id {
          return Some(positionsCache[i]);
        }
        i := i + 1;
      }
      return None;
    }
  }
}
