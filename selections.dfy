/** The two list updates both selection widgets of the front end apply to a
    selection of ids: remove an id, and toggle an id in or out. */
module Selections {
  import opened Common

  /** No id is listed twice. */
  predicate NoDuplicates(s: seq<Id>) {
    forall i, j :: 0 <= i < j < |s| ==> s[i] != s[j]
  }

  /** The filter `x => x !== id`. */
  function Other(x: Id): Id -> bool {
    y => y != x
  }

  /** `s.filter(x => x !== id)`: every occurrence of `x` goes, every other id keeps all
      its occurrences. */
  function RemoveAll(s: seq<Id>, x: Id): (r: seq<Id>)
    ensures x !in r
    ensures forall y :: y != x ==> (y in r <==> y in s)
    ensures forall y :: y != x ==> multiset(r)[y] == multiset(s)[y]
  {
    forall y | y != x ensures multiset(Filter(s, Other(x)))[y] == multiset(s)[y] {
      FilterCount(s, Other(x), y);
    }
    Filter(s, Other(x))
  }

  /** Removal keeps the order of the remaining ids: removing from two consecutive
      stretches removes from each. */
  lemma RemoveAllAppend(a: seq<Id>, b: seq<Id>, x: Id)
    ensures RemoveAll(a + b, x) == RemoveAll(a, x) + RemoveAll(b, x)
  {
    FilterAppend(a, b, Other(x));
  }

  /** Removing an id that is not selected changes nothing. */
  lemma RemoveAbsent(s: seq<Id>, x: Id)
    requires x !in s
    ensures RemoveAll(s, x) == s
  {
    FilterAll(s, Other(x));
  }

  /** Removal never introduces a repeated id. */
  lemma {:induction false} RemoveAllKeepsNoDuplicates(s: seq<Id>, x: Id)
    requires NoDuplicates(s)
    ensures NoDuplicates(RemoveAll(s, x))
  {
    if |s| > 0 {
      assert s == [s[0]] + s[1..];
      RemoveAllAppend([s[0]], s[1..], x);
      RemoveAllKeepsNoDuplicates(s[1..], x);
      assert s[0] !in s[1..];
    }
  }

  /** `s.includes(id) ? s.filter(x => x !== id) : [...s, id]`: a selected id leaves the
      selection entirely, an unselected one joins it at the end, the others stay. */
  function Toggle(s: seq<Id>, x: Id): (r: seq<Id>)
    ensures x in r <==> x !in s
    ensures forall y :: y != x ==> (y in r <==> y in s)
    ensures x !in s ==> |r| == |s| + 1 && r[..|s|] == s && r[|s|] == x
    ensures x in s ==> |r| < |s|
  {
    if x in s then
      assert multiset(s)[x] > 0;
      var r := RemoveAll(s, x);
      assert multiset(r) == multiset(s)[x := 0];
      assert |multiset(r)| < |multiset(s)|;
      r
    else s + [x]
  }

  /** Toggling keeps a selection free of repeats. */
  lemma ToggleKeepsNoDuplicates(s: seq<Id>, x: Id)
    requires NoDuplicates(s)
    ensures NoDuplicates(Toggle(s, x))
  {
    if x in s {
      RemoveAllKeepsNoDuplicates(s, x);
    }
  }

  /** Toggling a selected id twice moves it to the end of the selection. */
  lemma ToggleTwiceMovesToEnd(s: seq<Id>, x: Id)
    requires x in s
    ensures Toggle(Toggle(s, x), x) == RemoveAll(s, x) + [x]
  {
  }

  /** Toggling an unselected id twice restores the selection. */
  lemma ToggleTwiceAbsent(s: seq<Id>, x: Id)
    requires x !in s
    ensures Toggle(Toggle(s, x), x) == s
  {
    assert Toggle(s, x) == s + [x];
    RemoveAllAppend(s, [x], x);
    RemoveAbsent(s, x);
  }

  /** Toggling the last id of a repeat-free selection twice restores the selection. */
  lemma ToggleTwiceLast(s: seq<Id>, x: Id)
    requires NoDuplicates(s) && |s| > 0 && s[|s| - 1] == x
    ensures Toggle(Toggle(s, x), x) == s
  {
    var n := |s| - 1;
    assert s == s[..n] + [x];
    assert x !in s[..n];
    RemoveAllAppend(s[..n], [x], x);
    RemoveAbsent(s[..n], x);
  }

  /** Toggling an id twice restores a repeat-free selection exactly when the id was not
      selected, or was the last one selected. */
  lemma ToggleTwiceRestores(s: seq<Id>, x: Id)
    requires NoDuplicates(s)
    ensures Toggle(Toggle(s, x), x) == s <==> x !in s || s[|s| - 1] == x
  {
    if x !in s {
      ToggleTwiceAbsent(s, x);
    } else if s[|s| - 1] == x {
      ToggleTwiceLast(s, x);
    } else {
      var r := Toggle(Toggle(s, x), x);
      assert r[|r| - 1] == x;
    }
  }
}
