/** The searchable selection list of the front end: which items the search shows,
    which are selected, and what each button does to the selection it hands back
    through `onChange`. */
module MultiSelect {
  import opened Common
  import opened Selections

  /** An item's `budget` property: absent, `null`, or a number. */
  datatype Budget = NoBudget | NullBudget | Amount(n: int)

  /** One entry of `items`: its `valueKey` value, its `displayKey` value and `email`
      (each possibly undefined), and its `budget`. */
  datatype Item = Item(value: Id, display: Option<string>, email: Option<string>, budget: Budget)

  /** `String(v)` for a string that may be undefined. */
  function StringOf(v: Option<string>): (r: string)
    ensures v.Some? ==> r == v.value
    ensures v.None? ==> r == "undefined"
  {
    if v.Some? then v.value else "undefined"
  }

  /** The search test: the display text, or a present non-empty e-mail address, contains
      the term, both lower-cased. */
  predicate Matches(term: string, item: Item) {
    Contains(ToLower(StringOf(item.display)), ToLower(term))
    || (Truthy(item.email) && Contains(ToLower(item.email.value), ToLower(term)))
  }

  function MatchesTerm(term: string): Item -> bool {
    (item: Item) => Matches(term, item)
  }

  /** `filteredItems`: the items the search term matches. */
  function FilteredItems(items: seq<Item>, term: string): (r: seq<Item>)
    ensures forall i :: 0 <= i < |items| ==> (items[i] in r <==> Matches(term, items[i]))
    ensures forall x :: x in r ==> x in items
  {
    Filter(items, MatchesTerm(term))
  }

  /** An empty search shows every item, in order. */
  lemma EmptySearchShowsAll(items: seq<Item>)
    ensures FilteredItems(items, "") == items
  {
    forall i | 0 <= i < |items| ensures Matches("", items[i]) {
      ContainsEmpty(ToLower(StringOf(items[i].display)));
    }
    FilterAll(items, MatchesTerm(""));
  }

  /** The search ignores the case of the term. */
  lemma SearchIgnoresCase(items: seq<Item>, t1: string, t2: string)
    requires ToLower(t1) == ToLower(t2)
    ensures FilteredItems(items, t1) == FilteredItems(items, t2)
  {
    FilterCongruent(items, MatchesTerm(t1), MatchesTerm(t2));
  }

  /** The search keeps the list order: searching two stretches of the list searches each. */
  lemma SearchKeepsOrder(a: seq<Item>, b: seq<Item>, term: string)
    ensures FilteredItems(a + b, term) == FilteredItems(a, term) + FilteredItems(b, term)
  {
    FilterAppend(a, b, MatchesTerm(term));
  }

  function InSelection(sel: seq<Id>): Item -> bool {
    (item: Item) => item.value in sel
  }

  /** `selectedItemObjects`: the items, in list order, whose value is selected. */
  function SelectedItemObjects(items: seq<Item>, sel: seq<Id>): (r: seq<Item>)
    ensures forall i :: 0 <= i < |items| ==> (items[i] in r <==> items[i].value in sel)
    ensures forall x :: x in r ==> x in items
  {
    Filter(items, InSelection(sel))
  }

  /** The selection handed to `onChange`, and whether the dropdown stays open. */
  datatype Change = Change(selection: seq<Id>, open: bool)

  /** `toggleItem`: in multi mode the id is toggled and the dropdown stays as it is; in
      single mode the selection becomes that one id and the dropdown closes. */
  function ToggleItem(sel: seq<Id>, id: Id, isMulti: bool, isOpen: bool): (r: Change)
    ensures isMulti ==> (id in r.selection <==> id !in sel) && r.open == isOpen
    ensures isMulti ==> forall y :: y != id ==> (y in r.selection <==> y in sel)
    ensures !isMulti ==> |r.selection| == 1 && r.selection[0] == id && !r.open
  {
    if isMulti then Change(Toggle(sel, id), isOpen) else Change([id], false)
  }

  /** The values of a list of items, in order. */
  function Values(items: seq<Item>): (r: seq<Id>)
    ensures |r| == |items|
    ensures forall i :: 0 <= i < |items| ==> r[i] == items[i].value
  {
    seq(|items|, i requires 0 <= i < |items| => items[i].value)
  }

  function NotInSelection(sel: seq<Id>): Item -> bool {
    (item: Item) => item.value !in sel
  }

  /** The values Select All appends: values of the shown items that are not selected. */
  function Added(sel: seq<Id>, filtered: seq<Item>): (r: seq<Id>)
    ensures forall y :: y in r ==> y in Values(filtered) && y !in sel
    ensures forall i :: 0 <= i < |filtered| && filtered[i].value !in sel ==> filtered[i].value in r
  {
    var kept := Filter(filtered, NotInSelection(sel));
    forall y | y in Values(kept) ensures y in Values(filtered) && y !in sel {
      var k :| 0 <= k < |kept| && Values(kept)[k] == y;
      assert kept[k] in filtered;
    }
    forall i | 0 <= i < |filtered| && filtered[i].value !in sel ensures filtered[i].value in Values(kept) {
      assert filtered[i] in kept;
      var k :| 0 <= k < |kept| && kept[k] == filtered[i];
      assert Values(kept)[k] == filtered[i].value;
    }
    Values(kept)
  }

  /** Select All: the selection, then the values of the shown items not yet selected.
      The old selection stays a prefix, every shown value ends up selected, and nothing
      else is added. */
  function SelectAll(sel: seq<Id>, filtered: seq<Item>): (r: seq<Id>)
    ensures |sel| <= |r| && r[..|sel|] == sel
    ensures forall i :: 0 <= i < |filtered| ==> filtered[i].value in r
    ensures forall y :: y in r ==> y in sel || y in Values(filtered)
  {
    sel + Added(sel, filtered)
  }

  /** Select All twice is Select All once. */
  lemma SelectAllIdempotent(sel: seq<Id>, filtered: seq<Item>)
    ensures SelectAll(SelectAll(sel, filtered), filtered) == SelectAll(sel, filtered)
  {
    var r := SelectAll(sel, filtered);
    FilterNone(filtered, NotInSelection(r));
  }

  /** The shown items carry distinct values (as `_id`s are). */
  predicate DistinctValues(items: seq<Item>) {
    forall i, j :: 0 <= i < j < |items| ==> items[i].value != items[j].value
  }

  /** Filtering items with distinct values keeps their values distinct. */
  lemma {:induction false} FilterKeepsDistinctValues(items: seq<Item>, p: Item -> bool)
    requires DistinctValues(items)
    ensures DistinctValues(Filter(items, p))
  {
    if |items| > 0 {
      var rest := Filter(items[1..], p);
      FilterKeepsDistinctValues(items[1..], p);
      if p(items[0]) {
        assert Filter(items, p) == [items[0]] + rest;
        forall j | 0 <= j < |rest| ensures rest[j].value != items[0].value {
          assert rest[j] in items[1..];
          var m :| 0 <= m < |items[1..]| && items[1..][m] == rest[j];
          assert items[m + 1] == rest[j];
        }
      }
    }
  }

  /** Select All keeps a repeat-free selection repeat-free when the shown items have
      distinct values. */
  lemma SelectAllNoDuplicates(sel: seq<Id>, filtered: seq<Item>)
    requires NoDuplicates(sel) && DistinctValues(filtered)
    ensures NoDuplicates(SelectAll(sel, filtered))
  {
    FilterKeepsDistinctValues(filtered, NotInSelection(sel));
  }

  function NotIn(values: seq<Id>): Id -> bool {
    id => id !in values
  }

  /** Clear: the selection without the values of the shown items; every other id keeps
      all its occurrences. */
  function ClearFiltered(sel: seq<Id>, filtered: seq<Item>): (r: seq<Id>)
    ensures forall y :: y in r <==> y in sel && y !in Values(filtered)
    ensures forall y :: multiset(r)[y] == if y in Values(filtered) then 0 else multiset(sel)[y]
  {
    forall y ensures multiset(Filter(sel, NotIn(Values(filtered))))[y]
                     == if y in Values(filtered) then 0 else multiset(sel)[y] {
      FilterCount(sel, NotIn(Values(filtered)), y);
    }
    Filter(sel, NotIn(Values(filtered)))
  }

  /** Clear undoes Select All: what Select All added, Clear removes. */
  lemma ClearAfterSelectAll(sel: seq<Id>, filtered: seq<Item>)
    ensures ClearFiltered(SelectAll(sel, filtered), filtered) == ClearFiltered(sel, filtered)
  {
    var added := Added(sel, filtered);
    FilterAppend(sel, added, NotIn(Values(filtered)));
    FilterNone(added, NotIn(Values(filtered)));
  }

  /** The footer with Select All and Clear is shown only in multi mode and only while the
      search shows something. */
  predicate FooterShown(isMulti: bool, filtered: seq<Item>) {
    isMulti && |filtered| > 0
  }

  /** The budget as the label prints it: `budget || '—'`, so a dash for `null` and `0`,
      and otherwise the decimal text that denotes the amount. */
  function BudgetText(b: Budget): (r: string)
    requires !b.NoBudget?
    ensures r == "\U{2014}" <==> !(b.Amount? && b.n != 0)
    ensures b.Amount? && b.n != 0 ==> r == IntToString(b.n) && SignedValue(r) == b.n
  {
    if b.Amount? && b.n != 0 then IntToString(b.n) else "\U{2014}"
  }

  /** `getDisplayText`: with a budget property the label is the display text, a dash, the
      rupee sign and the budget (a dash when the budget is falsy); without one it is the
      display value itself, possibly undefined. */
  function GetDisplayText(item: Item): (r: Option<string>)
    ensures item.budget.NoBudget? ==> r == item.display
    ensures !item.budget.NoBudget? ==>
      (r.Some? && |r.value| > |StringOf(item.display)| + 4
       && r.value[..|StringOf(item.display)| + 4] == StringOf(item.display) + " \U{2014} \U{20B9}")
    ensures !item.budget.NoBudget? ==>
      (IsDigit(r.value[|r.value| - 1]) <==> item.budget.Amount? && item.budget.n != 0)
    ensures !item.budget.NoBudget? ==>
      r.value[|StringOf(item.display)| + 4..] == BudgetText(item.budget)
  {
    if item.budget.NoBudget? then item.display
    else Some(StringOf(item.display) + " \U{2014} \U{20B9}" + BudgetText(item.budget))
  }
}
