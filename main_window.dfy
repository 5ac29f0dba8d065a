/** The main window's employee list: the four-way filter over the cached
    employees, the cache reload, and the report counters (by position, by
    municipality, BASE versus HONORARY, and age ranges). */
module MainWindow {
  import opened Wrappers
  import opened Models
  import Text
  import Search
  import Repository
  import PandasService

  // -----------------------------------------------------------------------
  // The filter

  /** The four filter widgets: the search text and the three combo boxes,
      whose "All ..." entry carries None. */
  datatype Filters = Filters(
    search: string,
    positionId: Option<int>,
    municipalityId: Option<int>,
    employeeType: Option<string>)

  /** `query in field.lower()`. */
  predicate Hit(q: string, field: string) {
    Text.Contains(Text.Lower(field), q)
  }

  /** The lower-cased, stripped search text. */
  function Query(f: Filters): string {
    Text.Lower(Text.Strip(f.search))
  }

  /** `matches_text` for one employee: the `or` chain over the NSS, the
      three name parts, the position name and the municipality name. The
      chain stops at the first hit; reaching the name of a missing position
      or municipality raises AttributeError, which is None here. */
  function TextMatch(q: string, e: Employee, positions: seq<Position>,
                     municipalities: seq<Municipality>): (r: Option<bool>)
    ensures q == "" ==> r == Some(true)
  {
    if q == "" then Some(true)
    else if Hit(q, Text.IntString(e.nss)) || Hit(q, e.firstName)
            || Hit(q, e.lastNameF) || Hit(q, e.lastNameM) then Some(true)
    else
      match Repository.GetPosition(positions, e.positionId)
      case None => None
      case Some(p) =>
        if Hit(q, p.name) then Some(true)
        else
          match Repository.GetMunicipality(municipalities, e.municipalityId)
          case None => None
          case Some(m) => Some(Hit(q, m.name))
  }

  /** What the text condition means: it holds when the query is empty or
      some field in the chain contains it, and it raises exactly when no
      field before a missing relation contains it. */
  lemma TextMatchMeaning(q: string, e: Employee, positions: seq<Position>,
                         municipalities: seq<Municipality>)
    ensures TextMatch(q, e, positions, municipalities) == Some(true) <==>
              || q == ""
              || Hit(q, Text.IntString(e.nss)) || Hit(q, e.firstName)
              || Hit(q, e.lastNameF) || Hit(q, e.lastNameM)
              || (var p := Repository.GetPosition(positions, e.positionId);
                  p.Some? && (Hit(q, p.value.name)
                              || (var m := Repository.GetMunicipality(municipalities, e.municipalityId);
                                  m.Some? && Hit(q, m.value.name))))
    ensures TextMatch(q, e, positions, municipalities).None? <==>
              && q != ""
              && !Hit(q, Text.IntString(e.nss)) && !Hit(q, e.firstName)
              && !Hit(q, e.lastNameF) && !Hit(q, e.lastNameM)
              && (var p := Repository.GetPosition(positions, e.positionId);
                  p.None? || (!Hit(q, p.value.name)
                              && Repository.GetMunicipality(municipalities, e.municipalityId).None?))
  {
  }

  /** All four conditions of the filter loop hold for the employee; `q` is
      the normalized query. */
  predicate Matches(q: string, f: Filters, positions: seq<Position>, municipalities: seq<Municipality>,
                    e: Employee)
  {
    && TextMatch(q, e, positions, municipalities) == Some(true)
    && (f.positionId.None? || e.positionId == f.positionId.value)
    && (f.municipalityId.None? || e.municipalityId == f.municipalityId.value)
    && (f.employeeType.None? || Text.Upper(e.employeeType) == f.employeeType.value)
  }

  function Keep(q: string, f: Filters, positions: seq<Position>, municipalities: seq<Municipality>)
    : Employee -> bool
  {
    e => Matches(q, f, positions, municipalities, e)
  }

  /** Evaluating the text condition raises for the employee. */
  function Raises(q: string, positions: seq<Position>, municipalities: seq<Municipality>)
    : Employee -> bool
  {
    e => TextMatch(q, e, positions, municipalities).None?
  }

  /** What `_apply_filter` puts in the table for the normalized query `q`:
      the loop stops with an exception (None) at the first employee whose
      text condition raises, and otherwise keeps the cached employees that
      satisfy all four conditions, in cache order. */
  function FilterOutcome(cache: seq<Employee>, q: string, f: Filters, positions: seq<Position>,
                         municipalities: seq<Municipality>): (r: Option<seq<Employee>>)
    ensures r.None? <==>
              exists i :: 0 <= i < |cache| && TextMatch(q, cache[i], positions, municipalities).None?
    ensures r.Some? ==> r.value == Search.Filter(cache, Keep(q, f, positions, municipalities))
  {
    Search.FilterOrFailMeaning(cache, Raises(q, positions, municipalities), Keep(q, f, positions, municipalities));
    Search.FilterOrFail(cache, Raises(q, positions, municipalities), Keep(q, f, positions, municipalities))
  }

  /** One step of the filter loop, in the terms of the loop body. */
  lemma FilterStep(cache: seq<Employee>, i: nat, q: string, f: Filters, positions: seq<Position>,
                   municipalities: seq<Municipality>)
    requires i < |cache|
    ensures var raises := Raises(q, positions, municipalities);
            var keep := Keep(q, f, positions, municipalities);
            Search.FilterOrFail(cache[..i + 1], raises, keep)
            == match Search.FilterOrFail(cache[..i], raises, keep)
               case None => None
               case Some(kept) =>
                 if TextMatch(q, cache[i], positions, municipalities).None? then None
                 else Some(kept + (if Matches(q, f, positions, municipalities, cache[i]) then [cache[i]] else []))
  {
    Search.FilterOrFailExtend(cache, i, Raises(q, positions, municipalities), Keep(q, f, positions, municipalities));
  }

  /** The loop of `_apply_filter` for the normalized query: it evaluates the
      text condition first for every employee, stops at the first one that
      raises, and appends each employee all four conditions accept
      (`Matches` spells them out). */
  method FilterEmployees(cache: seq<Employee>, query: string, f: Filters, positions: seq<Position>,
                         municipalities: seq<Municipality>)
    returns (r: Option<seq<Employee>>)
    ensures r == FilterOutcome(cache, query, f, positions, municipalities)
  {
    var filtered: seq<Employee> := [];
    for i := 0 to |cache|
      invariant Search.FilterOrFail(cache[..i], Raises(query, positions, municipalities),
                                    Keep(query, f, positions, municipalities)) == Some(filtered)
    {
      FilterStep(cache, i, query, f, positions, municipalities);
      var employee := cache[i];
      if TextMatch(query, employee, positions, municipalities).None? {
        Search.FilterOrFailPrefixFails(cache, i + 1, Raises(query, positions, municipalities),
                                       Keep(query, f, positions, municipalities));
        return None;
      }
      ghost var kept := filtered;
      if Matches(query, f, positions, municipalities, employee) {
        filtered := filtered + [employee];
      }
      assert filtered == kept + (if Matches(query, f, positions, municipalities, cache[i]) then [cache[i]] else []);
    }
    assert cache[..|cache|] == cache;
    return Some(filtered);
  }

  /** The filtered list holds exactly the cached employees that satisfy all
      four conditions. */
  lemma FilterKeepsExactlyTheMatches(cache: seq<Employee>, q: string, f: Filters,
                                     positions: seq<Position>, municipalities: seq<Municipality>,
                                     e: Employee)
    requires FilterOutcome(cache, q, f, positions, municipalities).Some?
    ensures e in FilterOutcome(cache, q, f, positions, municipalities).value
            <==> e in cache && Matches(q, f, positions, municipalities, e)
  {
    var p := Keep(q, f, positions, municipalities);
    Search.FilterMembers(cache, p);
    assert p(e) == Matches(q, f, positions, municipalities, e);
    if e in cache && p(e) {
      var i :| 0 <= i < |cache| && cache[i] == e;
      assert p(cache[i]);
    }
  }

  /** A blank search text and "All" in every combo box show the whole cache. */
  lemma NoFilterShowsEverything(cache: seq<Employee>, search: string, positions: seq<Position>,
                                municipalities: seq<Municipality>)
    requires Text.Strip(search) == ""
    ensures var f := Filters(search, None, None, None);
            FilterOutcome(cache, Query(f), f, positions, municipalities) == Some(cache)
  {
    var f := Filters(search, None, None, None);
    assert Query(f) == "";
    Search.FilterKeepsAll(cache, Keep("", f, positions, municipalities));
  }

  /** The type filter compares the upper-cased stored type: "base" is shown
      under BASE. */
  lemma TypeFilterIgnoresCase(f: Filters, positions: seq<Position>, municipalities: seq<Municipality>,
                              e: Employee)
    requires e.employeeType == "base" && f.employeeType == Some(BASE)
    requires f.positionId.None? && f.municipalityId.None?
    ensures Matches("", f, positions, municipalities, e)
  {
    assert Text.Upper("base") == BASE;
  }

  /** An employee registered through `add_employee` stores its type
      upper-cased, so the type combo set to that type shows it. */
  lemma StoredTypePassesItsFilter(f: Filters, positions: seq<Position>, municipalities: seq<Municipality>,
                                  e: Employee, typed: string)
    requires e.employeeType == Text.Upper(typed) && f.employeeType == Some(e.employeeType)
    requires f.positionId.None? && f.municipalityId.None?
    ensures Matches("", f, positions, municipalities, e)
  {
    Text.UpperIdempotent(typed);
  }

  // -----------------------------------------------------------------------
  // Counting reports: a dict filled with data[name] = data.get(name, 0) + 1

  /** A dict in insertion order, as a list of (key, count) entries. */
  type Counts = seq<(string, nat)>

  /** `data[k] = data.get(k, 0) + 1`. */
  function Bump(data: Counts, k: string): (r: Counts)
    ensures |data| <= |r| <= |data| + 1
    ensures forall i :: 0 <= i < |data| ==> r[i].0 == data[i].0
  {
    match Search.FindFirst(data, (entry: (string, nat)) => entry.0 == k)
    case None => data + [(k, 1)]
    case Some(i) => data[i := (k, data[i].1 + 1)]
  }

  /** The dict after the loop: each item with a key bumps that key, an item
      without one (no relation) is skipped. */
  function Tally<T>(s: seq<T>, key: T -> Option<string>): Counts {
    if |s| == 0 then []
    else
      var data := Tally(s[..|s| - 1], key);
      match key(s[|s| - 1])
      case None => data
      case Some(k) => Bump(data, k)
  }

  /** The sum of the counts stored under `k` (at most one entry has it). */
  function CountOf(data: Counts, k: string): nat {
    if |data| == 0 then 0
    else CountOf(data[..|data| - 1], k) + (if data[|data| - 1].0 == k then data[|data| - 1].1 else 0)
  }

  /** The sum of all counts. */
  function Total(data: Counts): nat {
    if |data| == 0 then 0 else Total(data[..|data| - 1]) + data[|data| - 1].1
  }

  /** A dict's keys are distinct, and the loop never stores a zero count. */
  ghost predicate WellFormed(data: Counts) {
    && (forall i, j :: 0 <= i < j < |data| ==> data[i].0 != data[j].0)
    && (forall i :: 0 <= i < |data| ==> data[i].1 >= 1)
  }

  function HasKey<T>(key: T -> Option<string>, k: string): T -> bool {
    x => key(x) == Some(k)
  }

  function HasSomeKey<T>(key: T -> Option<string>): T -> bool {
    x => key(x).Some?
  }

  lemma {:induction false} CountOfIncrement(data: Counts, i: nat, k: string, k': string)
    requires i < |data| && data[i].0 == k
    ensures CountOf(data[i := (k, data[i].1 + 1)], k') == CountOf(data, k') + (if k == k' then 1 else 0)
    ensures Total(data[i := (k, data[i].1 + 1)]) == Total(data) + 1
    decreases |data|
  {
    var d := data[i := (k, data[i].1 + 1)];
    var n := |data|;
    if i < n - 1 {
      assert d[..n - 1] == data[..n - 1][i := (k, data[i].1 + 1)];
      CountOfIncrement(data[..n - 1], i, k, k');
    } else {
      assert d[..n - 1] == data[..n - 1];
    }
  }

  lemma CountOfAppend(data: Counts, k: string, k': string)
    ensures CountOf(data + [(k, 1)], k') == CountOf(data, k') + (if k == k' then 1 else 0)
    ensures Total(data + [(k, 1)]) == Total(data) + 1
  {
    assert (data + [(k, 1)])[..|data|] == data;
  }

  /** One bump adds one to the bumped key's count and to the total, keeps
      the dict well formed, and empties nothing. */
  lemma BumpCounts(data: Counts, k: string, k': string)
    requires WellFormed(data)
    ensures WellFormed(Bump(data, k))
    ensures CountOf(Bump(data, k), k') == CountOf(data, k') + (if k == k' then 1 else 0)
    ensures Total(Bump(data, k)) == Total(data) + 1
    ensures |Bump(data, k)| > 0
  {
    match Search.FindFirst(data, (entry: (string, nat)) => entry.0 == k)
    case None =>
      CountOfAppend(data, k, k');
    case Some(i) =>
      CountOfIncrement(data, i, k, k');
  }

  /** A one-item step of the tally loop. */
  lemma TallyStep<T>(s: seq<T>, key: T -> Option<string>, i: nat)
    requires i < |s|
    ensures Tally(s[..i + 1], key)
            == (match key(s[i]) case None => Tally(s[..i], key) case Some(k) => Bump(Tally(s[..i], key), k))
  {
    assert s[..i + 1][..i] == s[..i];
  }

  /** The report dict has distinct keys; the count under each name is the
      number of items with that name; the counts add up to the number of
      items that have a name at all; and the dict is empty exactly when no
      item has one. */
  lemma {:induction false} TallyCounts<T>(s: seq<T>, key: T -> Option<string>, k: string)
    ensures WellFormed(Tally(s, key))
    ensures CountOf(Tally(s, key), k) == |Search.Filter(s, HasKey(key, k))|
    ensures Total(Tally(s, key)) == |Search.Filter(s, HasSomeKey(key))|
    ensures Tally(s, key) == [] <==> Search.Filter(s, HasSomeKey(key)) == []
  {
    if |s| > 0 {
      var init := s[..|s| - 1];
      var x := s[|s| - 1];
      TallyCounts(init, key, k);
      match key(x)
      case None =>
      case Some(k0) =>
        BumpCounts(Tally(init, key), k0, k);
    }
  }

  /** What a counting report shows: nothing, or a bar chart of the dict. */
  datatype ChartOutcome = NoData | Chart(data: Counts)

  /** The position name of an employee, None without a position row. */
  function PositionKey(positions: seq<Position>): Employee -> Option<string> {
    e => PandasService.PositionName(positions, e)
  }

  /** The municipality name of an employee, None without a municipality row. */
  function MunicipalityKey(municipalities: seq<Municipality>): Employee -> Option<string> {
    e => PandasService.MunicipalityName(municipalities, e)
  }

  /** The counting loop of the two bar-chart reports, followed by the
      "No data available" check on the empty dict. */
  method CountReport(cache: seq<Employee>, key: Employee -> Option<string>) returns (r: ChartOutcome)
    ensures r == (if Tally(cache, key) == [] then NoData else Chart(Tally(cache, key)))
  {
    var data: Counts := [];
    for i := 0 to |cache|
      invariant data == Tally(cache[..i], key)
    {
      TallyStep(cache, key, i);
      var name := key(cache[i]);
      if name.None? {
        continue;
      }
      data := Bump(data, name.value);
    }
    assert cache[..|cache|] == cache;
    if |data| == 0 {
      return NoData;
    }
    return Chart(data);
  }

  // -----------------------------------------------------------------------
  // BASE versus HONORARY

  /** What the pie report shows. */
  datatype PieOutcome = NoEmployees | Pie(base: nat, honorary: nat)

  predicate IsBaseType(e: Employee) {
    Text.Upper(e.employeeType) == BASE
  }

  // -----------------------------------------------------------------------
  // Age ranges

  /** `pd.cut` bins and labels. */
  const AgeBins: seq<int> := [18, 21, 28, 34, 40, 120]
  const AgeLabels: seq<string> := ["18\U{2013}21", "22\U{2013}28", "29\U{2013}34", "35\U{2013}40", "41+"]

  /** The right-inclusive bin an age falls in, None outside (18, 120]. */
  function AgeBucket(age: int): (r: Option<nat>)
    ensures r.Some? <==> AgeBins[0] < age <= AgeBins[5]
    ensures r.Some? ==> r.value < 5 && AgeBins[r.value] < age <= AgeBins[r.value + 1]
  {
    if age <= 18 then None
    else if age <= 21 then Some(0)
    else if age <= 28 then Some(1)
    else if age <= 34 then Some(2)
    else if age <= 40 then Some(3)
    else if age <= 120 then Some(4)
    else None
  }

  /** `df["age"].dropna()`: the ages the DataFrame has, in row order. */
  function Ages(frame: seq<PandasService.FlatRecord>): (r: seq<int>)
    ensures |r| <= |frame|
  {
    if |frame| == 0 then []
    else
      var last := frame[|frame| - 1];
      Ages(frame[..|frame| - 1]) + (if last.age.Some? then [last.age.value] else [])
  }

  /** `value_counts().sort_index()` over the cut: one count per label, in
      label order. Ages outside every bin are not counted. */
  function BucketCounts(ages: seq<int>): (r: seq<nat>)
    ensures |r| == 5
  {
    if |ages| == 0 then [0, 0, 0, 0, 0]
    else
      var counts := BucketCounts(ages[..|ages| - 1]);
      match AgeBucket(ages[|ages| - 1])
      case None => counts
      case Some(b) => counts[b := counts[b] + 1]
  }

  function InBucket(b: nat): int -> bool {
    a => AgeBucket(a) == Some(b)
  }

  function InSomeBucket(): int -> bool {
    a => AgeBucket(a).Some?
  }

  function Sum5(c: seq<nat>): nat
    requires |c| == 5
  {
    c[0] + c[1] + c[2] + c[3] + c[4]
  }

  /** Each label counts exactly the ages in its bin, and together they count
      the ages in (18, 120]. */
  lemma {:induction false} BucketCountsCount(ages: seq<int>, b: nat)
    requires b < 5
    ensures BucketCounts(ages)[b] == |Search.Filter(ages, InBucket(b))|
    ensures Sum5(BucketCounts(ages)) == |Search.Filter(ages, InSomeBucket())|
  {
    if |ages| > 0 {
      BucketCountsCount(ages[..|ages| - 1], b);
    }
  }

  /** What the age-range report shows. */
  datatype AgeRangeOutcome =
      /** "Could not build DataFrame: ..." */
    | PandasError(cause: PandasService.FrameError)
      /** "No valid ages to evaluate." */
    | NoValidAges
    | AgeChart(data: seq<(string, nat)>)

  /** `_open_report_age_ranges` after the DataFrame is built. The frame of a
      non-empty list is never empty and always has an age column, so the
      "No employee age data" message cannot appear. */
  function AgeRanges(frame: Result<seq<PandasService.FlatRecord>, PandasService.FrameError>)
    : (r: AgeRangeOutcome)
    ensures r.PandasError? <==> frame.Err?
    ensures r == NoValidAges <==> frame.Ok? && Ages(frame.value) == []
    ensures r.AgeChart? ==>
              && |r.data| == 5
              && forall b :: 0 <= b < 5 ==>
                   r.data[b] == (AgeLabels[b], |Search.Filter(Ages(frame.value), InBucket(b))|)
  {
    match frame
    case Err(e) => PandasError(e)
    case Ok(df) =>
      var ages := Ages(df);
      if ages == [] then NoValidAges
      else
        var counts := BucketCounts(ages);
        assert forall b :: 0 <= b < 5 ==> counts[b] == |Search.Filter(ages, InBucket(b))| by {
          forall b | 0 <= b < 5 {
            BucketCountsCount(ages, b);
          }
        }
        AgeChart(seq(5, b requires 0 <= b < 5 => (AgeLabels[b], counts[b])))
  }

  // -----------------------------------------------------------------------
  // The table

  /** `_fill_table` cannot show the employee: reading the name of its
      missing position (column 4) or municipality (column 6) raises
      AttributeError. */
  predicate Unshowable(positions: seq<Position>, municipalities: seq<Municipality>, e: Employee) {
    || Repository.GetPosition(positions, e.positionId).None?
    || Repository.GetMunicipality(municipalities, e.municipalityId).None?
  }

  /** How many rows `_fill_table` fills completely: the length of the
      longest prefix of employees it can show. */
  function ShownCount(rows: seq<Employee>, positions: seq<Position>, municipalities: seq<Municipality>)
    : (n: nat)
    ensures n <= |rows|
    ensures forall i :: 0 <= i < n ==> !Unshowable(positions, municipalities, rows[i])
    ensures n < |rows| ==> Unshowable(positions, municipalities, rows[n])
    decreases |rows|
  {
    if rows == [] || Unshowable(positions, municipalities, rows[0]) then 0
    else
      var m := ShownCount(rows[1..], positions, municipalities);
      assert forall i :: 1 <= i < 1 + m ==> rows[i] == rows[1..][i - 1];
      1 + m
  }

  /** The rows `_fill_table` fills completely. */
  function Shown(rows: seq<Employee>, positions: seq<Position>, municipalities: seq<Municipality>)
    : seq<Employee>
  {
    rows[..ShownCount(rows, positions, municipalities)]
  }

  /** The table stops short of the rows exactly when one of them cannot be
      shown. */
  lemma ShownAllUnlessUnshowable(rows: seq<Employee>, positions: seq<Position>,
                                 municipalities: seq<Municipality>)
    ensures Shown(rows, positions, municipalities) == rows
            <==> forall i :: 0 <= i < |rows| ==> !Unshowable(positions, municipalities, rows[i])
  {
    var n := ShownCount(rows, positions, municipalities);
    if n < |rows| {
      assert |Shown(rows, positions, municipalities)| < |rows|;
    } else {
      assert rows[..n] == rows;
    }
  }

  /** After a prefix of showable rows, the next unshowable row ends the
      table there; with no such row every row is shown. */
  lemma ShownStops(rows: seq<Employee>, i: nat, positions: seq<Position>,
                   municipalities: seq<Municipality>)
    requires i <= |rows|
    requires forall j :: 0 <= j < i ==> !Unshowable(positions, municipalities, rows[j])
    requires i == |rows| || Unshowable(positions, municipalities, rows[i])
    ensures ShownCount(rows, positions, municipalities) == i
  {
  }

  /** With a blank search and every combo on "All", an employee whose
      position or municipality is missing passes the filter and then stops
      `_fill_table`: the rows before it are shown and the rest are not. */
  lemma UnshowableRowStopsUnfilteredTable(before: seq<Employee>, e: Employee, after: seq<Employee>,
                                          search: string, positions: seq<Position>,
                                          municipalities: seq<Municipality>)
    requires Text.Strip(search) == ""
    requires forall i :: 0 <= i < |before| ==> !Unshowable(positions, municipalities, before[i])
    requires Unshowable(positions, municipalities, e)
    ensures var f := Filters(search, None, None, None);
            var cache := before + [e] + after;
            && FilterOutcome(cache, Query(f), f, positions, municipalities) == Some(cache)
            && Shown(cache, positions, municipalities) == before
  {
    var cache := before + [e] + after;
    NoFilterShowsEverything(cache, search, positions, municipalities);
    ShownStops(cache, |before|, positions, municipalities);
    assert cache[..|before|] == before;
  }

  // -----------------------------------------------------------------------
  // The window

  class Window {
    /** `_employees_cache`: every employee, as the list was last loaded. */
    var employeesCache: seq<Employee>
    /** The rows `_fill_table` last showed. */
    var shownRows: seq<Employee>
    /** `_selected_id`: the NSS text of the selected row. */
    var selectedId: Option<string>

    constructor ()
      ensures employeesCache == [] && shownRows == [] && selectedId.None?
    {
      employeesCache := [];
      shownRows := [];
      selectedId := None;
    }

    /** `_fill_table`: clears the table and fills one row per employee. A
        row whose position or municipality is missing raises, leaving the
        rows before it. */
    method FillTable(rows: seq<Employee>, positions: seq<Position>, municipalities: seq<Municipality>)
      returns (raised: bool)
      modifies this`shownRows
      ensures shownRows == Shown(rows, positions, municipalities)
      ensures raised <==> exists i :: 0 <= i < |rows| && Unshowable(positions, municipalities, rows[i])
    {
      shownRows := [];
      for i := 0 to |rows|
        invariant shownRows == rows[..i]
        invariant forall j :: 0 <= j < i ==> !Unshowable(positions, municipalities, rows[j])
      {
        if Unshowable(positions, municipalities, rows[i]) {
          ShownStops(rows, i, positions, municipalities);
          return true;
        }
        shownRows := shownRows + [rows[i]];
      }
      ShownStops(rows, |rows|, positions, municipalities);
      assert rows[..|rows|] == rows;
      raised := false;
    }

    /** `_apply_filter`: the table shows the filter's result, as far as
        `_fill_table` gets; when the text condition raises, the table keeps
        its rows. */
    method ApplyFilter(f: Filters, positions: seq<Position>, municipalities: seq<Municipality>)
      returns (raised: bool)
      modifies this
      ensures var outcome := FilterOutcome(employeesCache, Query(f), f, positions, municipalities);
              && (raised <==> outcome.None?
                              || exists i :: 0 <= i < |outcome.value|
                                             && Unshowable(positions, municipalities, outcome.value[i]))
              && shownRows == (if outcome.None? then old(shownRows)
                               else Shown(outcome.value, positions, municipalities))
      ensures employeesCache == old(employeesCache) && selectedId == old(selectedId)
    {
      var filtered := FilterEmployees(employeesCache, Query(f), f, positions, municipalities);
      if filtered.None? {
        return true;
      }
      raised := FillTable(filtered.value, positions, municipalities);
    }

    /** `_load_employees`: reload the cache from the store's list, refilter,
        and clear the selection. An exception from the filter or from
        filling the table leaves the selection as it was. */
    method LoadEmployees(employees: seq<Employee>, f: Filters, positions: seq<Position>,
                         municipalities: seq<Municipality>)
      returns (raised: bool)
      modifies this
      ensures employeesCache == Repository.ListEmployees(employees)
      ensures var outcome := FilterOutcome(employeesCache, Query(f), f, positions, municipalities);
              && (raised <==> outcome.None?
                              || exists i :: 0 <= i < |outcome.value|
                                             && Unshowable(positions, municipalities, outcome.value[i]))
              && shownRows == (if outcome.None? then old(shownRows)
                               else Shown(outcome.value, positions, municipalities))
      ensures selectedId == (if raised then old(selectedId) else None)
    {
      employeesCache := Repository.ListEmployees(employees);
      raised := ApplyFilter(f, positions, municipalities);
      if !raised {
        selectedId := None;
      }
    }

    /** `_open_report_employees_by_position`. */
    method ReportByPosition(positions: seq<Position>) returns (r: ChartOutcome)
      ensures r == (if Tally(employeesCache, PositionKey(positions)) == [] then NoData
                    else Chart(Tally(employeesCache, PositionKey(positions))))
    {
      r := CountReport(employeesCache, PositionKey(positions));
    }

    /** `_open_report_employees_by_municipality`. */
    method ReportByMunicipality(municipalities: seq<Municipality>) returns (r: ChartOutcome)
      ensures r == (if Tally(employeesCache, MunicipalityKey(municipalities)) == [] then NoData
                    else Chart(Tally(employeesCache, MunicipalityKey(municipalities))))
    {
      r := CountReport(employeesCache, MunicipalityKey(municipalities));
    }

    /** `_open_report_base_vs_honorary`: BASE counts the employees whose
        upper-cased type is BASE, HONORARY counts every other one. */
    method ReportBaseVsHonorary() returns (r: PieOutcome)
      ensures r == NoEmployees <==> |employeesCache| == 0
      ensures r.Pie? ==> && r.base == |Search.Filter(employeesCache, IsBaseType)|
                         && r.base + r.honorary == |employeesCache|
    {
      var cache := employeesCache;
      var base: nat := 0;
      var honorary: nat := 0;
      for i := 0 to |cache|
        invariant base == |Search.Filter(cache[..i], IsBaseType)|
        invariant base + honorary == i
      {
        Search.FilterExtend(cache, i, IsBaseType);
        if Text.Upper(cache[i].employeeType) == BASE {
          base := base + 1;
        } else {
          honorary := honorary + 1;
        }
      }
      assert cache[..|cache|] == cache;
      if base == 0 && honorary == 0 {
        return NoEmployees;
      }
      return Pie(base, honorary);
    }

    /** `_open_report_age_ranges` over the cache. */
    method ReportAgeRanges(positions: seq<Position>, municipalities: seq<Municipality>,
                           today: Date, toTimestamp: Date -> Option<Date>)
      returns (r: AgeRangeOutcome)
      ensures r == AgeRanges(PandasService.Frame(employeesCache, positions, municipalities, today, toTimestamp))
    {
      var df := PandasService.EmployeesToDataFrame(employeesCache, positions, municipalities, today, toTimestamp);
      r := AgeRanges(df);
    }
  }
}
