/**
 * The schedule filter context: the selected campuses and times live in the
 * page URL as repeated `campuses` and `times` query parameters. A key with no
 * entry stands for the full default list. The URL's query string is a
 * sequence of name/value entries, in order, with the operations of
 * `URLSearchParams` that the context uses: `getAll`, `delete` and `append`.
 */
module ScheduleFilterContext {

  /** One name=value entry of the query string. */
  type Param = (string, string)

  const CampusesKey: string := "campuses"
  const TimesKey: string := "times"
  const DefaultCampuses: seq<string> := ["Annandale", "Alexandria", "Online"]
  const DefaultTimes: seq<string> := ["Morning", "Afternoon", "Evening"]

  // ---------------------------------------------------------------------------
  // The query string as a sequence of entries
  // ---------------------------------------------------------------------------

  /** `getAll(key)`: the values of the entries named `key`, in order. */
  function GetAll(ps: seq<Param>, key: string): seq<string>
  {
    if ps == [] then []
    else (if ps[0].0 == key then [ps[0].1] else []) + GetAll(ps[1..], key)
  }

  /** The entries not named `key`, in order: what `delete(key)` leaves. */
  function Without(ps: seq<Param>, key: string): seq<Param>
  {
    if ps == [] then []
    else (if ps[0].0 != key then [ps[0]] else []) + Without(ps[1..], key)
  }

  /** One entry `key=v` for each value, in order: what appending them one by one adds. */
  function Entries(key: string, vs: seq<string>): seq<Param>
  {
    if vs == [] then []
    else Entries(key, vs[..|vs| - 1]) + [(key, vs[|vs| - 1])]
  }

  /** The query string after every `key` entry is deleted and `vs` appended. */
  function ReplaceAll(ps: seq<Param>, key: string, vs: seq<string>): seq<Param>
  {
    Without(ps, key) + Entries(key, vs)
  }

  /** The filter read from the query string: the values under `key` when
      there are any, and otherwise the defaults. */
  function Selected(ps: seq<Param>, key: string, defaults: seq<string>): (r: seq<string>)
    ensures GetAll(ps, key) != [] ==> r == GetAll(ps, key)
    ensures GetAll(ps, key) == [] ==> r == defaults
  {
    var vs := GetAll(ps, key);
    if |vs| > 0 then vs else defaults
  }

  /** The query string after the first-render initialisation: the default
      entries are appended for each of the two keys that has no entry. */
  function WithDefaults(ps: seq<Param>): seq<Param>
  {
    var campuses := if GetAll(ps, CampusesKey) == [] then Entries(CampusesKey, DefaultCampuses) else [];
    var times := if GetAll(ps, TimesKey) == [] then Entries(TimesKey, DefaultTimes) else [];
    ps + campuses + times
  }

  // ---------------------------------------------------------------------------
  // Properties of the query-string operations
  // ---------------------------------------------------------------------------

  lemma {:induction false} GetAllAppend(a: seq<Param>, b: seq<Param>, key: string)
    ensures GetAll(a + b, key) == GetAll(a, key) + GetAll(b, key)
  {
    if a == [] {
      assert a + b == b;
    } else {
      assert (a + b)[1..] == a[1..] + b;
      GetAllAppend(a[1..], b, key);
    }
  }

  lemma {:induction false} WithoutAppend(a: seq<Param>, b: seq<Param>, key: string)
    ensures Without(a + b, key) == Without(a, key) + Without(b, key)
  {
    if a == [] {
      assert a + b == b;
    } else {
      assert (a + b)[1..] == a[1..] + b;
      WithoutAppend(a[1..], b, key);
    }
  }

  /** Appended entries read back, under their own key, as the appended values
      in order, and add nothing under any other key. */
  lemma {:induction false} GetAllEntries(key: string, vs: seq<string>, other: string)
    ensures GetAll(Entries(key, vs), key) == vs
    ensures other != key ==> GetAll(Entries(key, vs), other) == []
    ensures other != key ==> Without(Entries(key, vs), other) == Entries(key, vs)
    ensures Without(Entries(key, vs), key) == []
  {
    if vs != [] {
      var init := vs[..|vs| - 1];
      var last := (key, vs[|vs| - 1]);
      GetAllEntries(key, init, other);
      GetAllAppend(Entries(key, init), [last], key);
      GetAllAppend(Entries(key, init), [last], other);
      WithoutAppend(Entries(key, init), [last], key);
      WithoutAppend(Entries(key, init), [last], other);
      var empty: seq<Param> := [];
      assert [last][1..] == empty;
      assert init + [vs[|vs| - 1]] == vs;
    }
  }

  /** Deleting a key removes all of its values and keeps every other key's. */
  lemma {:induction false} GetAllWithout(ps: seq<Param>, key: string, other: string)
    ensures GetAll(Without(ps, key), key) == []
    ensures other != key ==> GetAll(Without(ps, key), other) == GetAll(ps, other)
  {
    if ps != [] {
      GetAllWithout(ps[1..], key, other);
      var head := if ps[0].0 != key then [ps[0]] else [];
      GetAllAppend(head, Without(ps[1..], key), key);
      GetAllAppend(head, Without(ps[1..], key), other);
      var empty: seq<Param> := [];
      assert [ps[0]][1..] == empty;
    }
  }

  lemma {:induction false} WithoutTwice(ps: seq<Param>, key: string)
    ensures Without(Without(ps, key), key) == Without(ps, key)
  {
    if ps != [] {
      WithoutTwice(ps[1..], key);
      var head := if ps[0].0 != key then [ps[0]] else [];
      WithoutAppend(head, Without(ps[1..], key), key);
      var empty: seq<Param> := [];
      assert [ps[0]][1..] == empty;
    }
  }

  /** After replacing `key` by `vs`, `getAll(key)` gives `vs` in order; every
      other key keeps its values, and the entries of all other keys are the
      same entries in the same order. */
  lemma ReplaceAllReadsBack(ps: seq<Param>, key: string, vs: seq<string>, other: string)
    ensures GetAll(ReplaceAll(ps, key, vs), key) == vs
    ensures other != key ==> GetAll(ReplaceAll(ps, key, vs), other) == GetAll(ps, other)
    ensures Without(ReplaceAll(ps, key, vs), key) == Without(ps, key)
  {
    GetAllAppend(Without(ps, key), Entries(key, vs), key);
    GetAllAppend(Without(ps, key), Entries(key, vs), other);
    WithoutAppend(Without(ps, key), Entries(key, vs), key);
    GetAllWithout(ps, key, other);
    GetAllEntries(key, vs, other);
    WithoutTwice(ps, key);
  }

  /** Encoding a campus selection and decoding it gives the selection back,
      except that an empty selection decodes as all the default campuses; the
      time selection is not affected. */
  lemma CampusesRoundTrip(ps: seq<Param>, campuses: seq<string>)
    ensures Selected(ReplaceAll(ps, CampusesKey, campuses), CampusesKey, DefaultCampuses) ==
            if campuses == [] then DefaultCampuses else campuses
    ensures Selected(ReplaceAll(ps, CampusesKey, campuses), TimesKey, DefaultTimes) ==
            Selected(ps, TimesKey, DefaultTimes)
  {
    ReplaceAllReadsBack(ps, CampusesKey, campuses, TimesKey);
  }

  /** The same round trip for the time-of-day selection. */
  lemma TimesRoundTrip(ps: seq<Param>, times: seq<string>)
    ensures Selected(ReplaceAll(ps, TimesKey, times), TimesKey, DefaultTimes) ==
            if times == [] then DefaultTimes else times
    ensures Selected(ReplaceAll(ps, TimesKey, times), CampusesKey, DefaultCampuses) ==
            Selected(ps, CampusesKey, DefaultCampuses)
  {
    ReplaceAllReadsBack(ps, TimesKey, times, CampusesKey);
  }

  /** Initialisation keeps every existing entry where it was and only appends:
      the default campuses exactly when there was no `campuses` entry, then the
      default times exactly when there was no `times` entry. */
  lemma WithDefaultsAppendsOnlyMissing(ps: seq<Param>)
    ensures |WithDefaults(ps)| >= |ps| && WithDefaults(ps)[..|ps|] == ps
    ensures GetAll(ps, CampusesKey) != [] && GetAll(ps, TimesKey) != [] ==> WithDefaults(ps) == ps
    ensures GetAll(WithDefaults(ps), CampusesKey) ==
            if GetAll(ps, CampusesKey) == [] then DefaultCampuses else GetAll(ps, CampusesKey)
    ensures GetAll(WithDefaults(ps), TimesKey) ==
            if GetAll(ps, TimesKey) == [] then DefaultTimes else GetAll(ps, TimesKey)
  {
    var campuses := if GetAll(ps, CampusesKey) == [] then Entries(CampusesKey, DefaultCampuses) else [];
    var times := if GetAll(ps, TimesKey) == [] then Entries(TimesKey, DefaultTimes) else [];
    assert WithDefaults(ps) == ps + (campuses + times);
    GetAllAppend(ps, campuses + times, CampusesKey);
    GetAllAppend(ps, campuses + times, TimesKey);
    GetAllAppend(campuses, times, CampusesKey);
    GetAllAppend(campuses, times, TimesKey);
    GetAllEntries(CampusesKey, DefaultCampuses, TimesKey);
    GetAllEntries(TimesKey, DefaultTimes, CampusesKey);
  }

  /** Initialising twice is the same as once: after the first run both keys
      have entries, so the second writes nothing. */
  lemma WithDefaultsIdempotent(ps: seq<Param>)
    ensures GetAll(WithDefaults(ps), CampusesKey) != []
    ensures GetAll(WithDefaults(ps), TimesKey) != []
    ensures WithDefaults(WithDefaults(ps)) == WithDefaults(ps)
  {
    WithDefaultsAppendsOnlyMissing(ps);
    WithDefaultsAppendsOnlyMissing(WithDefaults(ps));
  }

  /** Initialisation does not change what the filters read: the defaults it
      writes are the defaults that were read for a missing key. */
  lemma WithDefaultsKeepsSelection(ps: seq<Param>)
    ensures Selected(WithDefaults(ps), CampusesKey, DefaultCampuses) ==
            Selected(ps, CampusesKey, DefaultCampuses)
    ensures Selected(WithDefaults(ps), TimesKey, DefaultTimes) ==
            Selected(ps, TimesKey, DefaultTimes)
  {
    WithDefaultsAppendsOnlyMissing(ps);
  }

  // ---------------------------------------------------------------------------
  // URLSearchParams and the provider
  // ---------------------------------------------------------------------------

  /** A mutable copy of a query string, as `new URLSearchParams(searchParams)`. */
  class SearchParams {
    var entries: seq<Param>

    constructor (init: seq<Param>)
      ensures entries == init
    {
      entries := init;
    }

    /** `delete(key)`: removes every entry named `key`. */
    method Delete(key: string)
      modifies this
      ensures entries == Without(old(entries), key)
    {
      entries := Without(entries, key);
    }

    /** `append(key, value)`: adds one entry at the end. */
    method Append(key: string, value: string)
      modifies this
      ensures entries == old(entries) + [(key, value)]
    {
      entries := entries + [(key, value)];
    }
  }

  /** `vs.forEach(v => params.append(key, v))`: appends one entry per value, in order. */
  method AppendEach(params: SearchParams, key: string, vs: seq<string>)
    modifies params
    ensures params.entries == old(params.entries) + Entries(key, vs)
  {
    for i := 0 to |vs|
      invariant params.entries == old(params.entries) + Entries(key, vs[..i])
    {
      params.Append(key, vs[i]);
      assert vs[..i + 1][..i] == vs[..i];
    }
    assert vs[..|vs|] == vs;
  }

  /** The provider's state is the router's current query string. */
  class ScheduleFilterProvider {
    var searchParams: seq<Param>

    constructor (url: seq<Param>)
      ensures searchParams == url
    {
      searchParams := url;
    }

    /** The selected campuses: the URL's `campuses` values in order, or all
        default campuses when there are none; never empty. */
    function SelectedCampuses(): (r: seq<string>)
      reads this
      ensures r != []
      ensures GetAll(searchParams, CampusesKey) != [] ==> r == GetAll(searchParams, CampusesKey)
      ensures GetAll(searchParams, CampusesKey) == [] ==> r == DefaultCampuses
    {
      Selected(searchParams, CampusesKey, DefaultCampuses)
    }

    /** The selected times of day, read the same way with their own defaults. */
    function SelectedTimes(): (r: seq<string>)
      reads this
      ensures r != []
      ensures GetAll(searchParams, TimesKey) != [] ==> r == GetAll(searchParams, TimesKey)
      ensures GetAll(searchParams, TimesKey) == [] ==> r == DefaultTimes
    {
      Selected(searchParams, TimesKey, DefaultTimes)
    }

    /** The first-render effect: when a key has no entry, append its defaults
        to a copy of the query string and write the copy back; when both keys
        have entries, write nothing. */
    method InitDefaults() returns (wrote: bool)
      modifies this
      ensures wrote <==> GetAll(old(searchParams), CampusesKey) == [] ||
                         GetAll(old(searchParams), TimesKey) == []
      ensures searchParams == WithDefaults(old(searchParams))
      ensures !wrote ==> searchParams == old(searchParams)
      ensures SelectedCampuses() == old(SelectedCampuses())
      ensures SelectedTimes() == old(SelectedTimes())
    {
      WithDefaultsAppendsOnlyMissing(searchParams);
      WithDefaultsKeepsSelection(searchParams);
      var campuses := GetAll(searchParams, CampusesKey);
      var times := GetAll(searchParams, TimesKey);
      wrote := false;
      if |campuses| == 0 || |times| == 0 {
        var newParams := new SearchParams(searchParams);
        if |campuses| == 0 {
          AppendEach(newParams, CampusesKey, DefaultCampuses);
        }
        if |times| == 0 {
          AppendEach(newParams, TimesKey, DefaultTimes);
        }
        searchParams := newParams.entries;
        wrote := true;
      }
    }

    /** Deletes every `campuses` entry from a copy of the query string,
        appends the new campuses in order and writes the copy back. */
    method HandleCampusChange(newCampuses: seq<string>)
      modifies this
      ensures searchParams == ReplaceAll(old(searchParams), CampusesKey, newCampuses)
      ensures SelectedCampuses() == if newCampuses == [] then DefaultCampuses else newCampuses
      ensures SelectedTimes() == old(SelectedTimes())
    {
      CampusesRoundTrip(searchParams, newCampuses);
      var newParams := new SearchParams(searchParams);
      newParams.Delete(CampusesKey);
      AppendEach(newParams, CampusesKey, newCampuses);
      searchParams := newParams.entries;
    }

    /** Deletes every `times` entry from a copy of the query string, appends
        the new times in order and writes the copy back. */
    method HandleTimeChange(newTimes: seq<string>)
      modifies this
      ensures searchParams == ReplaceAll(old(searchParams), TimesKey, newTimes)
      ensures SelectedTimes() == if newTimes == [] then DefaultTimes else newTimes
      ensures SelectedCampuses() == old(SelectedCampuses())
    {
      TimesRoundTrip(searchParams, newTimes);
      var newParams := new SearchParams(searchParams);
      newParams.Delete(TimesKey);
      AppendEach(newParams, TimesKey, newTimes);
      searchParams := newParams.entries;
    }
  }
}
