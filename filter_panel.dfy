/**
 * The filter panel's checkbox handlers: toggling a campus or a time of day
 * builds a new selection list and hands it to the change callback.
 */
module FilterPanel {
  import SFC = ScheduleFilterContext
  import opened Sequences

  /** `xs.filter(x => x !== value)`: no occurrence of `value` is left, every
      other element keeps its number of occurrences and the order is kept. */
  function RemoveAll(xs: seq<string>, value: string): (r: seq<string>)
    ensures value !in r
    ensures forall x :: x != value ==> multiset(r)[x] == multiset(xs)[x]
    ensures forall x :: x != value ==> (x in r <==> x in xs)
    ensures IsSubsequence(r, xs)
  {
    if xs == [] then []
    else
      var init := xs[..|xs| - 1];
      var last := xs[|xs| - 1];
      var rest := RemoveAll(init, value);
      assert xs == init + [last];
      if last == value then
        SubsequenceOfLonger(rest, init, last);
        rest
      else
        assert (rest + [last])[..|rest|] == rest;
        rest + [last]
  }

  /** Removing a value that does not occur changes nothing. */
  lemma {:induction false} RemoveAllAbsent(xs: seq<string>, value: string)
    requires value !in xs
    ensures RemoveAll(xs, value) == xs
  {
    if xs != [] {
      RemoveAllAbsent(xs[..|xs| - 1], value);
      assert xs[..|xs| - 1] + [xs[|xs| - 1]] == xs;
    }
  }

  /** Filtering a concatenation filters each part. */
  lemma {:induction false} RemoveAllAppend(xs: seq<string>, ys: seq<string>, value: string)
    ensures RemoveAll(xs + ys, value) == RemoveAll(xs, value) + RemoveAll(ys, value)
  {
    if ys == [] {
      assert xs + ys == xs;
    } else {
      var init := ys[..|ys| - 1];
      assert (xs + ys)[..|xs + ys| - 1] == xs + init;
      assert (xs + ys)[|xs + ys| - 1] == ys[|ys| - 1];
      RemoveAllAppend(xs, init, value);
    }
  }

  /** The handler shared by both checkbox groups: a selected value is removed
      (every occurrence), an unselected one is appended at the end. */
  function Toggle(selected: seq<string>, value: string): (next: seq<string>)
    ensures value in next <==> value !in selected
    ensures forall x :: x != value ==> (x in next <==> x in selected)
  {
    if value in selected then RemoveAll(selected, value) else selected + [value]
  }

  /** `toggleCampus`: the list passed to the campus change callback. Checking
      an unchecked campus appends it; unchecking removes it and keeps the
      others in order; either way the campus's checkbox flips. */
  function ToggleCampus(selectedCampuses: seq<string>, campus: string): (next: seq<string>)
    ensures campus !in selectedCampuses ==> next == selectedCampuses + [campus]
    ensures campus in selectedCampuses ==>
              campus !in next && IsSubsequence(next, selectedCampuses) &&
              forall x :: x != campus ==> multiset(next)[x] == multiset(selectedCampuses)[x]
    ensures campus in next <==> campus !in selectedCampuses
  {
    Toggle(selectedCampuses, campus)
  }

  /** `toggleTime`: the same handler for the time-of-day checkboxes. */
  function ToggleTime(selectedTimes: seq<string>, time: string): (next: seq<string>)
    ensures time !in selectedTimes ==> next == selectedTimes + [time]
    ensures time in selectedTimes ==>
              time !in next && IsSubsequence(next, selectedTimes) &&
              forall x :: x != time ==> multiset(next)[x] == multiset(selectedTimes)[x]
    ensures time in next <==> time !in selectedTimes
  {
    Toggle(selectedTimes, time)
  }

  /** Checking a value and unchecking it again restores the list exactly. */
  lemma ToggleTwiceRestores(selected: seq<string>, value: string)
    requires value !in selected
    ensures Toggle(Toggle(selected, value), value) == selected
  {
    RemoveAllAppend(selected, [value], value);
    RemoveAllAbsent(selected, value);
    assert RemoveAll([value], value) == [];
  }

  /** Both handlers restore the list after checking and unchecking a box. */
  lemma ToggleCampusAndTimeTwice(selected: seq<string>, value: string)
    requires value !in selected
    ensures ToggleCampus(ToggleCampus(selected, value), value) == selected
    ensures ToggleTime(ToggleTime(selected, value), value) == selected
  {
    ToggleTwiceRestores(selected, value);
  }

  /** Unchecking the only selected campus hands an empty list to the URL
      encoder, which stores no `campuses` entry, so every default campus reads
      as selected again. */
  lemma UncheckingLastCampusSelectsAll(ps: seq<SFC.Param>, campus: string)
    requires SFC.Selected(ps, SFC.CampusesKey, SFC.DefaultCampuses) == [campus]
    ensures ToggleCampus([campus], campus) == []
    ensures SFC.Selected(SFC.ReplaceAll(ps, SFC.CampusesKey, ToggleCampus([campus], campus)),
                         SFC.CampusesKey, SFC.DefaultCampuses) == SFC.DefaultCampuses
  {
    assert RemoveAll([campus], campus) == [];
    SFC.CampusesRoundTrip(ps, []);
  }
}
