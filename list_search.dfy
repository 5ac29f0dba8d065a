/** The search box of the position and municipality windows: the typed
    text is stripped and lowercased, a blank query shows the whole cached
    list, and any other query shows the cached items whose lowercased
    name contains it, in list order. */
module ListSearch {
  import opened Text
  import Search

  /** `search_edit.text().strip().lower()`. */
  function Query(text: string): (q: string)
    ensures |q| == |Strip(text)|
  {
    Lower(Strip(text))
  }

  /** The query is empty exactly when the typed text is all whitespace. */
  lemma BlankQuery(text: string)
    ensures Query(text) == "" <==> forall k :: 0 <= k < |text| ==> IsSpace(text[k])
  {
    var st := Strip(text);
    var i, j :| 0 <= i <= j <= |text| && st == text[i..j]
                && (forall k :: 0 <= k < i ==> IsSpace(text[k]))
                && (forall k :: j <= k < |text| ==> IsSpace(text[k]));
    if st == "" {
      assert i == j;
      assert forall k :: 0 <= k < |text| ==> IsSpace(text[k]) by {
        forall k | 0 <= k < |text|
          ensures IsSpace(text[k])
        {
          if k >= i {
            assert j <= k;
          }
        }
      }
    } else {
      assert st[0] == text[i] && !IsSpace(st[0]);
    }
  }

  /** `query in item.name.lower()`. */
  function NameMatch<T>(q: string, name: T -> string): T -> bool {
    x => Contains(Lower(name(x)), q)
  }

  /** The list the table is filled with for an already normalised query. */
  function NameSearch<T>(cache: seq<T>, q: string, name: T -> string): (r: seq<T>)
    ensures |r| <= |cache|
  {
    if q == "" then cache else Search.Filter(cache, NameMatch(q, name))
  }

  /** Text made only of whitespace shows the whole cache, unfiltered. */
  lemma BlankSearchShowsAll<T>(cache: seq<T>, text: string, name: T -> string)
    requires forall k :: 0 <= k < |text| ==> IsSpace(text[k])
    ensures NameSearch(cache, Query(text), name) == cache
  {
    BlankQuery(text);
  }

  /** A non-blank query shows exactly the cached items whose lowercased
      name contains it. */
  lemma NameSearchMembers<T>(cache: seq<T>, q: string, name: T -> string)
    requires q != ""
    ensures forall x :: x in NameSearch(cache, q, name) <==> x in cache && Contains(Lower(name(x)), q)
  {
    Search.FilterMembers(cache, NameMatch(q, name));
    forall x | x in cache && Contains(Lower(name(x)), q)
      ensures x in NameSearch(cache, q, name)
    {
      var i :| 0 <= i < |cache| && cache[i] == x;
      assert NameMatch(q, name)(cache[i]);
    }
  }

  /** The search keeps list order: searching a concatenation is searching
      each part. */
  lemma NameSearchConcat<T>(a: seq<T>, b: seq<T>, q: string, name: T -> string)
    ensures NameSearch(a + b, q, name) == NameSearch(a, q, name) + NameSearch(b, q, name)
  {
    if q != "" {
      Search.FilterConcat(a, b, NameMatch(q, name));
    }
  }

  /** A one-item list is shown exactly when the query is blank or the
      item's lowercased name contains it. */
  lemma NameSearchSingleton<T>(x: T, q: string, name: T -> string)
    ensures NameSearch([x], q, name) == if q == "" || Contains(Lower(name(x)), q) then [x] else []
  {
    if q != "" {
      Search.FilterSingleton(x, NameMatch(q, name));
    }
  }
}
