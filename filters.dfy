/** The viewer's filter controls: the sorted option lists, the theater/date filter over the
    showtime rows, and the multi-select editing and labelling. */
module Filters {
  import opened Records
  import opened Lexical
  import opened Seqs

  // ---------------------------------------------------------------------------------------
  // uniqueSorted: the distinct values, in ascending string order.

  ghost predicate StrictlySorted(s: seq<string>)
  {
    forall i, j :: 0 <= i < j < |s| ==> Less(s[i], s[j])
  }

  /** In a strictly sorted list every later element lies above the first. */
  lemma HeadBelowTail(s: seq<string>)
    requires StrictlySorted(s) && |s| > 0
    ensures forall y :: y in s[1..] ==> Less(s[0], y)
  {
  }

  lemma SortedCons(x: string, s: seq<string>)
    requires StrictlySorted(s)
    requires forall y :: y in s ==> Less(x, y)
    ensures StrictlySorted([x] + s)
  {
  }

  /** Places x into a strictly sorted list, unless it is already there. */
  function Insert(x: string, s: seq<string>): (r: seq<string>)
    requires StrictlySorted(s)
    ensures StrictlySorted(r)
    ensures forall y :: y in r <==> y == x || y in s
    decreases |s|
  {
    if |s| == 0 then [x]
    else if x == s[0] then s
    else if Less(x, s[0]) then
      HeadBelowTail(s);
      forall y | y in s[1..] ensures Less(x, y) {
        LessTransitive(x, s[0], y);
      }
      assert s == [s[0]] + s[1..];
      SortedCons(x, s);
      [x] + s
    else
      LessTotal(x, s[0]);
      HeadBelowTail(s);
      var rest := Insert(x, s[1..]);
      assert s == [s[0]] + s[1..];
      SortedCons(s[0], rest);
      [s[0]] + rest
  }

  /** `Array.from(new Set(arr)).sort()`: the distinct values of xs in ascending order. */
  function UniqueSorted(xs: seq<string>): (r: seq<string>)
    ensures StrictlySorted(r)
    ensures forall y :: y in r <==> y in xs
    decreases |xs|
  {
    if |xs| == 0 then []
    else
      assert xs == xs[..|xs| - 1] + [xs[|xs| - 1]];
      Insert(xs[|xs| - 1], UniqueSorted(xs[..|xs| - 1]))
  }

  /** A strictly sorted list holds no value twice. */
  lemma SortedDistinct(s: seq<string>)
    requires StrictlySorted(s)
    ensures Distinct(s)
  {
    forall i, j | 0 <= i < j < |s|
      ensures s[i] != s[j]
    {
      LessIrreflexive(s[i]);
    }
  }

  /** Stated without a precondition, so that it can be called where b turns out to be empty. */
  lemma HeadIsMember(s: seq<string>)
    ensures |s| > 0 ==> s[0] in s
  {
  }

  /** Two strictly sorted lists with the same elements are the same list: the sorted option
      list depends only on which values occur, not on their order or repetition. */
  lemma {:induction false} SortedUnique(a: seq<string>, b: seq<string>)
    requires StrictlySorted(a) && StrictlySorted(b)
    requires forall y :: y in a <==> y in b
    ensures a == b
    decreases |a|
  {
    if |a| == 0 {
      HeadIsMember(b);
    } else {
      assert a[0] in b;
      HeadBelowTail(a);
      HeadBelowTail(b);
      assert a == [a[0]] + a[1..];
      assert b == [b[0]] + b[1..];
      assert b[0] in a;
      LessAsymmetric(a[0], b[0]);
      assert a[0] == b[0];
      LessIrreflexive(a[0]);
      forall y
        ensures y in a[1..] <==> y in b[1..]
      {
        if y in a[1..] {
          assert y in b;
        }
        if y in b[1..] {
          assert y in a;
        }
      }
      SortedUnique(a[1..], b[1..]);
    }
  }

  /** The option list is the one strictly sorted list of the distinct values. */
  lemma UniqueSortedIsCanonical(xs: seq<string>, s: seq<string>)
    requires StrictlySorted(s)
    requires forall y :: y in s <==> y in xs
    ensures UniqueSorted(xs) == s
    ensures Distinct(UniqueSorted(xs))
  {
    SortedUnique(UniqueSorted(xs), s);
    SortedDistinct(s);
  }

  // ---------------------------------------------------------------------------------------
  // The theater/date filter.

  /** A multi-select with nothing selected lets every value through. */
  predicate Selected(selection: seq<string>, value: string)
  {
    |selection| == 0 || value in selection
  }

  predicate Keep(row: Showtime, selectedTheaters: seq<string>, selectedDates: seq<string>)
  {
    Selected(selectedTheaters, row.theater) && Selected(selectedDates, row.date)
  }

  function KeepFn(selectedTheaters: seq<string>, selectedDates: seq<string>): Showtime -> bool
  {
    row => Keep(row, selectedTheaters, selectedDates)
  }

  /** The rows shown: those at a selected theater on a selected date, in their loaded order. */
  function Filtered(rows: seq<Showtime>, selectedTheaters: seq<string>, selectedDates: seq<string>): (r: seq<Showtime>)
    ensures forall row :: row in r <==>
      && row in rows
      && (|selectedTheaters| == 0 || row.theater in selectedTheaters)
      && (|selectedDates| == 0 || row.date in selectedDates)
    ensures forall i :: 0 <= i < |r| ==> Keep(r[i], selectedTheaters, selectedDates)
  {
    Filter(rows, KeepFn(selectedTheaters, selectedDates))
  }

  /** With nothing selected in either control, every row is shown. */
  lemma NoSelectionShowsAll(rows: seq<Showtime>)
    ensures Filtered(rows, [], []) == rows
  {
    FilterAll(rows, KeepFn([], []));
  }

  /** Rows loaded later are shown after rows loaded earlier. */
  lemma FilteredInOrder(front: seq<Showtime>, back: seq<Showtime>, selectedTheaters: seq<string>, selectedDates: seq<string>)
    ensures Filtered(front + back, selectedTheaters, selectedDates)
         == Filtered(front, selectedTheaters, selectedDates) + Filtered(back, selectedTheaters, selectedDates)
  {
    FilterAppend(front, back, KeepFn(selectedTheaters, selectedDates));
  }

  // ---------------------------------------------------------------------------------------
  // Editing and labelling a multi-select.

  function Other(opt: string): string -> bool
  {
    o => o != opt
  }

  /** Clicking an option: deselect it everywhere it occurs, or select it at the end. */
  function ToggleOption(selected: seq<string>, opt: string): (r: seq<string>)
    ensures opt in r <==> opt !in selected
    ensures forall x :: x != opt ==> (x in r <==> x in selected)
    ensures opt !in selected ==> |r| == |selected| + 1 && r[..|selected|] == selected && r[|selected|] == opt
  {
    if opt in selected then Filter(selected, Other(opt))
    else
      selected + [opt]
  }

  /** Toggling keeps every other selected value, as often as it was selected, and leaves the
      clicked option selected once or not at all. */
  lemma ToggleCounts(selected: seq<string>, opt: string, x: string)
    ensures multiset(ToggleOption(selected, opt))[x]
         == if x == opt then (if opt in selected then 0 else 1) else multiset(selected)[x]
  {
    if opt in selected {
      FilterCount(selected, Other(opt), x);
    }
  }

  /** Deselecting keeps the remaining values in their selection order: the result is each part
      of the selection with the option dropped, one after the other. */
  lemma ToggleInOrder(front: seq<string>, back: seq<string>, opt: string)
    requires opt in front + back
    ensures ToggleOption(front + back, opt) == Filter(front, Other(opt)) + Filter(back, Other(opt))
  {
    FilterAppend(front, back, Other(opt));
  }

  /** Deselecting drops a selected value exactly when it is the option. */
  lemma DeselectOne(x: string, opt: string)
    ensures Filter([x], Other(opt)) == if x == opt then [] else [x]
  {
  }

  /** A selection built by toggling never holds a value twice. */
  lemma ToggleKeepsDistinct(selected: seq<string>, opt: string)
    requires Distinct(selected)
    ensures Distinct(ToggleOption(selected, opt))
  {
    if opt in selected {
      FilterDistinct(selected, Other(opt));
    }
  }

  /** Clicking an unselected option twice restores the selection. */
  lemma ToggleTwice(selected: seq<string>, opt: string)
    requires opt !in selected
    ensures ToggleOption(ToggleOption(selected, opt), opt) == selected
  {
    var once := selected + [opt];
    assert once[..|once| - 1] == selected;
    FilterAll(selected, Other(opt));
  }

  /** The control's caption: the control's name, followed by the number of selected values in
      parentheses when there are any. */
  function LabelText(name: string, selected: seq<string>): (r: string)
    ensures |selected| == 0 ==> r == name
    ensures |selected| > 0 ==>
      && |r| >= |name| + 4
      && r[..|name| + 2] == name + " ("
      && r[|r| - 1] == ')'
      && AllDigits(r[|name| + 2..|r| - 1])
      && DecimalValue(r[|name| + 2..|r| - 1]) == |selected|
      && r[|name| + 2] != '0'
  {
    if |selected| == 0 then name
    else
      var digits := NatToString(|selected|);
      var r := name + " (" + digits + ")";
      assert r[|name| + 2..|r| - 1] == digits;
      r
  }
}
