/** Linear searches and order-preserving filters over sequences: the shape
    of every `.first()` query, `for ... return` search loop and list
    comprehension in the application. */
module Search {
  import opened Wrappers

  /** The index of the first element satisfying `p`, or None. */
  function FindFirst<T>(s: seq<T>, p: T -> bool): (r: Option<nat>)
    ensures r.Some? ==> r.value < |s| && p(s[r.value])
    ensures r.Some? ==> forall j :: 0 <= j < r.value ==> !p(s[j])
    ensures r.None? <==> forall j :: 0 <= j < |s| ==> !p(s[j])
  {
    if |s| == 0 then None
    else if p(s[0]) then Some(0)
    else match FindFirst(s[1..], p)
      case None => None
      case Some(k) => Some(k + 1)
  }

  /** The elements of `s` satisfying `p`, in their order in `s`. */
  function Filter<T>(s: seq<T>, p: T -> bool): (r: seq<T>)
    ensures |r| <= |s|
  {
    if |s| == 0 then []
    else Filter(s[..|s| - 1], p) + (if p(s[|s| - 1]) then [s[|s| - 1]] else [])
  }

  /** The filter keeps exactly the elements satisfying `p`. */
  lemma {:induction false} FilterMembers<T>(s: seq<T>, p: T -> bool)
    ensures forall x :: x in Filter(s, p) ==> x in s && p(x)
    ensures forall i :: 0 <= i < |s| && p(s[i]) ==> s[i] in Filter(s, p)
  {
    if |s| > 0 {
      var init := s[..|s| - 1];
      FilterMembers(init, p);
      assert forall x :: x in init ==> x in s;
      assert forall i :: 0 <= i < |init| ==> s[i] == init[i];
    }
  }

  /** Filtering distributes over concatenation; with the one-element case
      this pins the filter down to "the kept elements, in order". */
  lemma {:induction false} FilterConcat<T>(a: seq<T>, b: seq<T>, p: T -> bool)
    ensures Filter(a + b, p) == Filter(a, p) + Filter(b, p)
    decreases |b|
  {
    if |b| > 0 {
      var b' := b[..|b| - 1];
      assert (a + b)[..|a + b| - 1] == a + b';
      assert (a + b)[|a + b| - 1] == b[|b| - 1];
      FilterConcat(a, b', p);
    } else {
      assert a + b == a;
    }
  }

  /** A one-element sequence is kept exactly when its element satisfies `p`. */
  lemma FilterSingleton<T>(x: T, p: T -> bool)
    ensures Filter([x], p) == if p(x) then [x] else []
  {
    assert [x][..0] == [];
  }

  /** Filtering with a predicate every element satisfies keeps everything. */
  lemma {:induction false} FilterKeepsAll<T>(s: seq<T>, p: T -> bool)
    requires forall i :: 0 <= i < |s| ==> p(s[i])
    ensures Filter(s, p) == s
  {
    if |s| > 0 {
      var init := s[..|s| - 1];
      FilterKeepsAll(init, p);
      calc {
        Filter(s, p);
        Filter(init, p) + [s[|s| - 1]];
        init + [s[|s| - 1]];
        s;
      }
    }
  }

  /** One step of a loop that appends the kept elements of `s` one by one. */
  lemma FilterExtend<T>(s: seq<T>, i: nat, p: T -> bool)
    requires i < |s|
    ensures Filter(s[..i + 1], p) == Filter(s[..i], p) + (if p(s[i]) then [s[i]] else [])
  {
    assert s[..i + 1][..i] == s[..i];
  }

  /** A filter loop that can fail: it stops with None at the first element
      for which `fails` holds, and otherwise keeps the elements satisfying
      `p`. */
  function FilterOrFail<T>(s: seq<T>, fails: T -> bool, p: T -> bool): Option<seq<T>> {
    if |s| == 0 then Some([])
    else
      match FilterOrFail(s[..|s| - 1], fails, p)
      case None => None
      case Some(kept) =>
        var x := s[|s| - 1];
        if fails(x) then None else Some(kept + (if p(x) then [x] else []))
  }

  /** The failing filter fails exactly when some element fails, and
      otherwise is the plain filter. */
  lemma {:induction false} FilterOrFailMeaning<T>(s: seq<T>, fails: T -> bool, p: T -> bool)
    ensures FilterOrFail(s, fails, p).None? <==> exists i :: 0 <= i < |s| && fails(s[i])
    ensures FilterOrFail(s, fails, p).Some? ==> FilterOrFail(s, fails, p).value == Filter(s, p)
  {
    if |s| > 0 {
      var init := s[..|s| - 1];
      FilterOrFailMeaning(init, fails, p);
      assert forall i :: 0 <= i < |init| ==> init[i] == s[i];
      if FilterOrFail(init, fails, p).None? {
        var i :| 0 <= i < |init| && fails(init[i]);
        assert fails(s[i]);
      } else if fails(s[|s| - 1]) {
        assert 0 <= |s| - 1 < |s| && fails(s[|s| - 1]);
      } else {
        assert forall i :: 0 <= i < |s| ==> !fails(s[i]) by {
          forall i | 0 <= i < |s|
            ensures !fails(s[i])
          {
            if i < |init| {
              assert s[i] == init[i];
            }
          }
        }
      }
    }
  }

  /** One step of the failing filter loop. */
  lemma FilterOrFailExtend<T>(s: seq<T>, i: nat, fails: T -> bool, p: T -> bool)
    requires i < |s|
    ensures FilterOrFail(s[..i + 1], fails, p)
            == match FilterOrFail(s[..i], fails, p)
               case None => None
               case Some(kept) => if fails(s[i]) then None else Some(kept + (if p(s[i]) then [s[i]] else []))
  {
    assert s[..i + 1][..i] == s[..i];
  }

  /** Once a prefix fails, the whole sequence fails. */
  lemma {:induction false} FilterOrFailPrefixFails<T>(s: seq<T>, k: nat, fails: T -> bool, p: T -> bool)
    requires k <= |s| && FilterOrFail(s[..k], fails, p).None?
    ensures FilterOrFail(s, fails, p).None?
    decreases |s| - k
  {
    if k < |s| {
      FilterOrFailExtend(s, k, fails, p);
      FilterOrFailPrefixFails(s, k + 1, fails, p);
    } else {
      assert s[..k] == s;
    }
  }
}
