/**
 * The schedule generator: meetings and sections of courses, the pairwise
 * checks between meetings, schedule validity, the enumeration of every valid
 * schedule (one section per target course) and the summary stored for each.
 *
 * Times of day are seconds since midnight; only their order matters.
 */
module Scheduler {
  import opened Wrappers
  import opened Sequences

  /** One weekly meeting of a section: a day name, a half-open time range and a campus. */
  datatype Meeting = Meeting(day: string, start: int, end: int, campus: string)

  /** A section of a course with its meetings; `rating` is the instructor's rating, if known. */
  datatype Section = Section(
    subject: string,
    number: int,
    sectionCode: string,
    title: string,
    credits: int,
    instructor: string,
    meetings: seq<Meeting>,
    rating: Option<real>)

  /** A course is identified by its subject code and course number. */
  type CourseKey = (string, int)

  /** The campus name of online meetings; it never causes a campus switch. */
  const Zoom: string := "Zoom"

  /** The days that the summary reports on, in order. */
  const Days: seq<string> := ["Mon", "Tue", "Wed", "Thu", "Fri", "Sat"]

  // ---------------------------------------------------------------------------
  // Pairwise checks
  // ---------------------------------------------------------------------------

  /** Two meetings clash in time: same day and their time ranges overlap,
      that is, each starts before the other ends and neither range is empty. */
  predicate MeetingsConflict(m1: Meeting, m2: Meeting): (r: bool)
    ensures r <==> m1.day == m2.day && m1.start < m2.end && m2.start < m1.end &&
                   m1.start < m1.end && m2.start < m2.end
  {
    if m1.day != m2.day then false
    else Max(m1.start, m2.start) < Min(m1.end, m2.end)
  }

  /** Two meetings on the same day at two different physical campuses (Zoom is exempt). */
  predicate CampusSwitchSameDay(m1: Meeting, m2: Meeting)
  {
    if m1.day != m2.day then false
    else if m1.campus == Zoom || m2.campus == Zoom then false
    else m1.campus != m2.campus
  }

  function Max(a: int, b: int): int { if a < b then b else a }
  function Min(a: int, b: int): int { if a < b then a else b }

  /** The meeting takes place at instant `t` (its range includes its start, not its end). */
  predicate Occupies(m: Meeting, t: int)
  {
    m.start <= t < m.end
  }

  /** Two meetings conflict exactly when they are on the same day and some
      instant lies in both of their time ranges. */
  lemma ConflictIffSharedInstant(m1: Meeting, m2: Meeting)
    ensures MeetingsConflict(m1, m2) <==>
            m1.day == m2.day && exists t :: Occupies(m1, t) && Occupies(m2, t)
  {
    if MeetingsConflict(m1, m2) {
      var t := Max(m1.start, m2.start);
      assert Occupies(m1, t) && Occupies(m2, t);
    }
  }

  /** Meetings on different days never conflict, and one that ends exactly when
      the other starts does not conflict with it. */
  lemma NoConflictApart(m1: Meeting, m2: Meeting)
    requires m1.day != m2.day || m1.end == m2.start
    ensures !MeetingsConflict(m1, m2) && !MeetingsConflict(m2, m1)
  {
  }

  /** Both checks are symmetric in their two meetings. */
  lemma ChecksSymmetric(m1: Meeting, m2: Meeting)
    ensures MeetingsConflict(m1, m2) == MeetingsConflict(m2, m1)
    ensures CampusSwitchSameDay(m1, m2) == CampusSwitchSameDay(m2, m1)
  {
  }

  /** A campus switch needs two physical campuses on one day: it is false on
      different days or when either meeting is on Zoom, and otherwise holds
      exactly when the campuses differ. */
  lemma CampusSwitchCases(m1: Meeting, m2: Meeting)
    ensures m1.day != m2.day ==> !CampusSwitchSameDay(m1, m2)
    ensures m1.campus == Zoom || m2.campus == Zoom ==> !CampusSwitchSameDay(m1, m2)
    ensures m1.day == m2.day && m1.campus != Zoom && m2.campus != Zoom ==>
              (CampusSwitchSameDay(m1, m2) <==> m1.campus != m2.campus)
  {
  }

  // ---------------------------------------------------------------------------
  // Schedule validity
  // ---------------------------------------------------------------------------

  /** The meetings of all sections, section by section, in order. */
  function AllMeetings(sections: seq<Section>): (ms: seq<Meeting>)
    ensures forall m :: m in ms <==> exists s :: s in sections && m in s.meetings
  {
    if sections == [] then []
    else
      var rest := AllMeetings(sections[1..]);
      assert forall s :: s in sections <==> s == sections[0] || s in sections[1..];
      sections[0].meetings + rest
  }

  /** Two meetings that must not both be in one schedule. */
  predicate Clash(m1: Meeting, m2: Meeting)
  {
    CampusSwitchSameDay(m1, m2) || MeetingsConflict(m1, m2)
  }

  /** No pair of meetings (earlier position first) clashes. */
  predicate PairwiseCompatible(ms: seq<Meeting>)
  {
    forall i, j :: 0 <= i < j < |ms| ==> !Clash(ms[i], ms[j])
  }

  /** A schedule is valid when no two of its meetings clash. */
  predicate ValidSchedule(sections: seq<Section>)
  {
    PairwiseCompatible(AllMeetings(sections))
  }

  /** Checks every pair i < j of the schedule's meetings, stopping at the first
      campus switch or time conflict. */
  method ScheduleIsValid(sections: seq<Section>) returns (ok: bool)
    ensures ok <==> ValidSchedule(sections)
  {
    var all := AllMeetings(sections);
    for i := 0 to |all|
      invariant forall p, q :: 0 <= p < i && p < q < |all| ==> !Clash(all[p], all[q])
    {
      for j := i + 1 to |all|
        invariant forall q :: i < q < j ==> !Clash(all[i], all[q])
      {
        if CampusSwitchSameDay(all[i], all[j]) {
          assert Clash(all[i], all[j]);
          return false;
        }
        if MeetingsConflict(all[i], all[j]) {
          assert Clash(all[i], all[j]);
          return false;
        }
      }
    }
    return true;
  }

  /** No two meetings at distinct positions, in either order, clash. */
  ghost predicate NoClashAtDistinctPositions(ms: seq<Meeting>)
  {
    forall i, j :: 0 <= i < |ms| && 0 <= j < |ms| && i != j ==> !Clash(ms[i], ms[j])
  }

  /** Validity does not depend on which meeting of a pair comes first: in a
      valid schedule no two meetings at distinct positions clash. */
  lemma ValidMeansNoClashAnywhere(sections: seq<Section>)
    ensures ValidSchedule(sections) <==> NoClashAtDistinctPositions(AllMeetings(sections))
  {
    var ms := AllMeetings(sections);
    if ValidSchedule(sections) {
      forall i, j | 0 <= i < |ms| && 0 <= j < |ms| && i != j
        ensures !Clash(ms[i], ms[j])
      {
        if j < i {
          assert !Clash(ms[j], ms[i]);
          ChecksSymmetric(ms[j], ms[i]);
        }
      }
    } else {
      var i, j :| 0 <= i < j < |ms| && Clash(ms[i], ms[j]);
      assert !NoClashAtDistinctPositions(ms) by {
        assert 0 <= i < |ms| && 0 <= j < |ms| && i != j && Clash(ms[i], ms[j]);
      }
    }
  }

  /** In a valid schedule, two meetings on the same day never overlap in time,
      and two in-person meetings on the same day are on the same campus. */
  lemma ValidScheduleConsequences(sections: seq<Section>, i: int, j: int)
    requires ValidSchedule(sections)
    requires 0 <= i < |AllMeetings(sections)| && 0 <= j < |AllMeetings(sections)| && i != j
    ensures var ms := AllMeetings(sections);
            ms[i].day == ms[j].day ==> !(exists t :: Occupies(ms[i], t) && Occupies(ms[j], t))
    ensures var ms := AllMeetings(sections);
            ms[i].day == ms[j].day && ms[i].campus != Zoom && ms[j].campus != Zoom ==>
              ms[i].campus == ms[j].campus
  {
    var ms := AllMeetings(sections);
    ValidMeansNoClashAnywhere(sections);
    assert !Clash(ms[i], ms[j]);
    ConflictIffSharedInstant(ms[i], ms[j]);
  }

  /** A schedule with at most one meeting is always valid. */
  lemma FewMeetingsValid(sections: seq<Section>)
    requires |AllMeetings(sections)| <= 1
    ensures ValidSchedule(sections)
  {
  }

  // ---------------------------------------------------------------------------
  // Enumeration
  // ---------------------------------------------------------------------------

  /** The section pools of the target courses, in target order; a course that
      has no entry fails with the first such key (the lookup error). */
  function Pools(sectionsByCourse: map<CourseKey, seq<Section>>, targets: seq<CourseKey>)
    : (r: Result<seq<seq<Section>>, CourseKey>)
    ensures r.Failure? <==> exists k :: 0 <= k < |targets| && targets[k] !in sectionsByCourse
    ensures r.Failure? ==>
              exists k :: 0 <= k < |targets| && targets[k] == r.error &&
                          r.error !in sectionsByCourse &&
                          forall q :: 0 <= q < k ==> targets[q] in sectionsByCourse
    ensures r.Success? ==>
              |r.value| == |targets| &&
              forall k :: 0 <= k < |targets| ==> r.value[k] == sectionsByCourse[targets[k]]
  {
    if targets == [] then Success([])
    else if targets[0] !in sectionsByCourse then Failure(targets[0])
    else
      match Pools(sectionsByCourse, targets[1..])
      case Failure(key) =>
        assert forall k :: 0 < k < |targets| ==> targets[k] == targets[1..][k - 1];
        Failure(key)
      case Success(rest) =>
        assert forall k :: 0 < k < |targets| ==> targets[k] == targets[1..][k - 1];
        Success([sectionsByCourse[targets[0]]] + rest)
  }

  /** Every combination taking one element from each pool, in lexicographic
      order: the first pool varies slowest, as `itertools.product` does. */
  function Product<T>(pools: seq<seq<T>>): seq<seq<T>>
    decreases |pools|
  {
    if pools == [] then [[]]
    else PrependEach(pools[0], Product(pools[1..]))
  }

  /** For each head in order, the head followed by every tail in order. */
  function PrependEach<T>(heads: seq<T>, tails: seq<seq<T>>): seq<seq<T>>
  {
    if heads == [] then []
    else seq(|tails|, i requires 0 <= i < |tails| => [heads[0]] + tails[i]) +
         PrependEach(heads[1..], tails)
  }

  /** `c` takes, position by position, one element of the corresponding pool. */
  ghost predicate IsCombination<T>(c: seq<T>, pools: seq<seq<T>>)
  {
    |c| == |pools| && forall k :: 0 <= k < |c| ==> c[k] in pools[k]
  }

  /** The product of the pool sizes. */
  function SizeProduct<T>(pools: seq<seq<T>>): nat
  {
    if pools == [] then 1 else |pools[0]| * SizeProduct(pools[1..])
  }

  lemma {:induction false} PrependEachMembership<T>(heads: seq<T>, tails: seq<seq<T>>, c: seq<T>)
    ensures c in PrependEach(heads, tails) <==> |c| > 0 && c[0] in heads && c[1..] in tails
  {
    if heads != [] {
      var front := seq(|tails|, i requires 0 <= i < |tails| => [heads[0]] + tails[i]);
      PrependEachMembership(heads[1..], tails, c);
      if c in front {
        var i :| 0 <= i < |tails| && front[i] == c;
        assert c[1..] == tails[i];
      }
      if |c| > 0 && c[0] == heads[0] && c[1..] in tails {
        var i :| 0 <= i < |tails| && tails[i] == c[1..];
        assert front[i] == c;
      }
    }
  }

  lemma {:induction false} PrependEachSize<T>(heads: seq<T>, tails: seq<seq<T>>)
    ensures |PrependEach(heads, tails)| == |heads| * |tails|
  {
    if heads != [] {
      PrependEachSize(heads[1..], tails);
      assert |heads| * |tails| == |tails| + (|heads| - 1) * |tails|;
    }
  }

  /** The product holds exactly the combinations of the pools: nothing else
      (soundness) and every one of them (completeness). */
  lemma {:induction false} ProductMembership<T>(pools: seq<seq<T>>, c: seq<T>)
    ensures c in Product(pools) <==> IsCombination(c, pools)
    decreases |pools|
  {
    if pools != [] {
      PrependEachMembership(pools[0], Product(pools[1..]), c);
      if |c| > 0 {
        ProductMembership(pools[1..], c[1..]);
        if IsCombination(c, pools) {
          assert IsCombination(c[1..], pools[1..]) by {
            forall k | 0 <= k < |c[1..]| ensures c[1..][k] in pools[1..][k] {
              assert c[k + 1] in pools[k + 1];
            }
          }
        }
        if c[0] in pools[0] && IsCombination(c[1..], pools[1..]) {
          forall k | 0 <= k < |c| ensures c[k] in pools[k] {
            if k > 0 { assert c[1..][k - 1] in pools[1..][k - 1]; }
          }
        }
      }
    } else {
      assert c in [[]] <==> c == [];
    }
  }

  /** The product has exactly as many combinations as the product of the pool sizes. */
  lemma {:induction false} ProductSize<T>(pools: seq<seq<T>>)
    ensures |Product(pools)| == SizeProduct(pools)
    decreases |pools|
  {
    if pools != [] {
      ProductSize(pools[1..]);
      PrependEachSize(pools[0], Product(pools[1..]));
    }
  }

  /** The valid schedules of `combos`, in their order. */
  function ValidOnly(combos: seq<seq<Section>>): seq<seq<Section>>
  {
    if combos == [] then []
    else
      var last := combos[|combos| - 1];
      ValidOnly(combos[..|combos| - 1]) + (if ValidSchedule(last) then [last] else [])
  }

  /** Filtering keeps exactly the valid combinations, in their original order,
      and so never more than there were. */
  lemma {:induction false} ValidOnlyFilters(combos: seq<seq<Section>>)
    ensures forall c :: c in ValidOnly(combos) <==> c in combos && ValidSchedule(c)
    ensures IsSubsequence(ValidOnly(combos), combos)
    ensures |ValidOnly(combos)| <= |combos|
  {
    if combos != [] {
      var init := combos[..|combos| - 1];
      var last := combos[|combos| - 1];
      ValidOnlyFilters(init);
      assert combos == init + [last];
      if ValidSchedule(last) {
        assert ValidOnly(combos)[..|ValidOnly(combos)| - 1] == ValidOnly(init);
      } else {
        assert ValidOnly(combos) == ValidOnly(init);
        if ValidOnly(init) != [] {
          SubsequenceOfLonger(ValidOnly(init), init, last);
        }
      }
    }
  }

  /** Every combination of one section per target course that is a valid
      schedule, in the product's order; fails with the first target course
      that has no entry in `sectionsByCourse`. */
  method GenerateSchedules(sectionsByCourse: map<CourseKey, seq<Section>>, targets: seq<CourseKey>)
    returns (r: Result<seq<seq<Section>>, CourseKey>)
    ensures r.Failure? <==> exists k :: 0 <= k < |targets| && targets[k] !in sectionsByCourse
    ensures r.Failure? ==> r.error in targets && r.error !in sectionsByCourse
    ensures r.Failure? ==> Pools(sectionsByCourse, targets) == Failure(r.error)
    ensures r.Success? ==> r.value == ValidOnly(Product(Pools(sectionsByCourse, targets).value))
    ensures r.Success? ==>
              forall c :: c in r.value <==>
                |c| == |targets| && ValidSchedule(c) &&
                forall k :: 0 <= k < |targets| ==> c[k] in sectionsByCourse[targets[k]]
    ensures r.Success? ==> |r.value| <= SizeProduct(Pools(sectionsByCourse, targets).value)
  {
    var pools := Pools(sectionsByCourse, targets);
    if pools.Failure? {
      return Failure(pools.error);
    }
    var combos := Product(pools.value);
    var results: seq<seq<Section>> := [];
    for i := 0 to |combos|
      invariant results == ValidOnly(combos[..i])
    {
      var ok := ScheduleIsValid(combos[i]);
      assert combos[..i + 1][..i] == combos[..i];
      if ok {
        results := results + [combos[i]];
      }
    }
    assert combos[..|combos|] == combos;
    ValidOnlyFilters(combos);
    ProductSize(pools.value);
    forall c ensures c in results <==>
        |c| == |targets| && ValidSchedule(c) &&
        forall k :: 0 <= k < |targets| ==> c[k] in sectionsByCourse[targets[k]]
    {
      ProductMembership(pools.value, c);
    }
    return Success(results);
  }

  // ---------------------------------------------------------------------------
  // Summary
  // ---------------------------------------------------------------------------

  /** The summary stored with each generated schedule. `instructorScore` is the
      mean of the known ratings, before rounding. */
  datatype Summary = Summary(
    totalCredits: int,
    instructorScore: Option<real>,
    numSections: nat,
    meetsMon: bool,
    meetsTue: bool,
    meetsWed: bool,
    meetsThu: bool,
    meetsFri: bool,
    meetsSat: bool,
    earliestStart: int,
    latestEnd: int,
    campusPattern: string)

  /** `min` and `max` over the meetings fail when there are none. */
  datatype SummaryError = NoMeetings

  /** The sum of the sections' credits. */
  function TotalCredits(sections: seq<Section>): int
  {
    if sections == [] then 0 else sections[0].credits + TotalCredits(sections[1..])
  }

  /** Credits add up over a schedule split in two. */
  lemma {:induction false} TotalCreditsAppend(a: seq<Section>, b: seq<Section>)
    ensures TotalCredits(a + b) == TotalCredits(a) + TotalCredits(b)
  {
    if a == [] {
      assert a + b == b;
    } else {
      assert (a + b)[1..] == a[1..] + b;
      TotalCreditsAppend(a[1..], b);
    }
  }

  /** With no negative credits, the total is at least every section's credits. */
  lemma {:induction false} TotalCreditsBound(sections: seq<Section>, k: int)
    requires forall s :: s in sections ==> s.credits >= 0
    requires 0 <= k < |sections|
    ensures sections[k].credits <= TotalCredits(sections)
  {
    NonNegativeCredits(sections[1..]);
    if k > 0 {
      TotalCreditsBound(sections[1..], k - 1);
    }
  }

  lemma {:induction false} NonNegativeCredits(sections: seq<Section>)
    requires forall s :: s in sections ==> s.credits >= 0
    ensures TotalCredits(sections) >= 0
  {
    if sections != [] {
      NonNegativeCredits(sections[1..]);
    }
  }

  /** The known instructor ratings, section by section. */
  function Ratings(sections: seq<Section>): (rs: seq<real>)
    ensures rs == [] <==> forall s :: s in sections ==> s.rating.None?
  {
    if sections == [] then []
    else
      var rest := Ratings(sections[1..]);
      assert forall s :: s in sections <==> s == sections[0] || s in sections[1..];
      (if sections[0].rating.Some? then [sections[0].rating.value] else []) + rest
  }

  function Sum(xs: seq<real>): real
  {
    if xs == [] then 0.0 else xs[0] + Sum(xs[1..])
  }

  /** Some meeting of the schedule falls on day `d`. */
  predicate MeetsOn(ms: seq<Meeting>, d: string)
  {
    exists m :: m in ms && m.day == d
  }

  /** The campuses of the schedule's in-person (non-Zoom) meetings. */
  function InPersonCampuses(ms: seq<Meeting>): set<string>
  {
    set m | m in ms && m.campus != Zoom :: m.campus
  }

  /** The campus of the first in-person meeting, or "" when every meeting is on Zoom. */
  function FirstInPersonCampus(ms: seq<Meeting>): (c: string)
    ensures InPersonCampuses(ms) != {} ==> c in InPersonCampuses(ms)
  {
    if ms == [] then ""
    else if ms[0].campus != Zoom then ms[0].campus
    else
      assert InPersonCampuses(ms) == InPersonCampuses(ms[1..]);
      FirstInPersonCampus(ms[1..])
  }

  /** "Online-only" when no meeting is in person, "<campus>-only" when all
      in-person meetings share one campus, "Mixed" otherwise. */
  function CampusPattern(ms: seq<Meeting>): (r: string)
    ensures (forall m :: m in ms ==> m.campus == Zoom) ==> r == "Online-only"
    ensures forall c :: c in InPersonCampuses(ms) ==>
              |InPersonCampuses(ms)| == 1 ==> r == c + "-only"
    ensures |InPersonCampuses(ms)| >= 2 ==> r == "Mixed"
  {
    var campuses := InPersonCampuses(ms);
    if |campuses| == 0 then "Online-only"
    else if |campuses| == 1 then
      SingletonMember(campuses, FirstInPersonCampus(ms));
      FirstInPersonCampus(ms) + "-only"
    else "Mixed"
  }

  /** A set of one element holds nothing but that element. */
  lemma SingletonMember(s: set<string>, c: string)
    requires |s| == 1 && c in s
    ensures s == {c}
  {
    var rest := s - {c};
    assert |rest| == 0;
  }

  /** The earliest start among the meetings. */
  function EarliestStart(ms: seq<Meeting>): (t: int)
    requires ms != []
    ensures forall m :: m in ms ==> t <= m.start
    ensures exists m :: m in ms && m.start == t
  {
    if |ms| == 1 then ms[0].start
    else Min(ms[0].start, EarliestStart(ms[1..]))
  }

  /** The latest end among the meetings. */
  function LatestEnd(ms: seq<Meeting>): (t: int)
    requires ms != []
    ensures forall m :: m in ms ==> m.end <= t
    ensures exists m :: m in ms && m.end == t
  {
    if |ms| == 1 then ms[0].end
    else Max(ms[0].end, LatestEnd(ms[1..]))
  }

  /** For each of the days Mon to Sat, whether some meeting falls on it; other
      day names are ignored. */
  method DaysHit(meetings: seq<Meeting>) returns (daysHit: map<string, bool>)
    ensures forall d :: d in daysHit <==> d in Days
    ensures forall d :: d in daysHit ==> (daysHit[d] <==> MeetsOn(meetings, d))
  {
    daysHit := map d | d in Days :: false;
    for k := 0 to |meetings|
      invariant forall d :: d in daysHit <==> d in Days
      invariant forall d :: d in daysHit ==>
                  (daysHit[d] <==> exists i :: 0 <= i < k && meetings[i].day == d)
    {
      if meetings[k].day in daysHit {
        daysHit := daysHit[meetings[k].day := true];
      }
    }
  }

  /** The summary of one schedule: credits, rating, section count, the days it
      uses, its campus pattern and the span of its day. Fails when the
      schedule has no meetings, since there is no earliest start. */
  method ComputeScheduleSummary(sections: seq<Section>) returns (r: Result<Summary, SummaryError>)
    ensures r.Failure? <==> AllMeetings(sections) == []
    ensures r.Success? ==> r.value.totalCredits == TotalCredits(sections)
    ensures r.Success? ==> r.value.numSections == |sections|
    ensures r.Success? ==>
              (r.value.instructorScore.None? <==> forall s :: s in sections ==> s.rating.None?)
    ensures r.Success? ==> r.value.meetsMon == MeetsOn(AllMeetings(sections), "Mon")
    ensures r.Success? ==> r.value.meetsTue == MeetsOn(AllMeetings(sections), "Tue")
    ensures r.Success? ==> r.value.meetsWed == MeetsOn(AllMeetings(sections), "Wed")
    ensures r.Success? ==> r.value.meetsThu == MeetsOn(AllMeetings(sections), "Thu")
    ensures r.Success? ==> r.value.meetsFri == MeetsOn(AllMeetings(sections), "Fri")
    ensures r.Success? ==> r.value.meetsSat == MeetsOn(AllMeetings(sections), "Sat")
    ensures r.Success? ==> r.value.campusPattern == CampusPattern(AllMeetings(sections))
    ensures r.Success? ==>
              (forall m :: m in AllMeetings(sections) ==> r.value.earliestStart <= m.start) &&
              (exists m :: m in AllMeetings(sections) && m.start == r.value.earliestStart)
    ensures r.Success? ==>
              (forall m :: m in AllMeetings(sections) ==> m.end <= r.value.latestEnd) &&
              (exists m :: m in AllMeetings(sections) && m.end == r.value.latestEnd)
  {
    var meetings := AllMeetings(sections);
    var credits := TotalCredits(sections);

    var ratings := Ratings(sections);
    var score: Option<real> := None;
    if ratings != [] {
      score := Some(Sum(ratings) / (|ratings| as real));
    }

    var numSections := |sections|;

    var daysHit := DaysHit(meetings);
    assert Days[0] == "Mon" && Days[1] == "Tue" && Days[2] == "Wed";
    assert Days[3] == "Thu" && Days[4] == "Fri" && Days[5] == "Sat";

    var pattern := CampusPattern(meetings);

    if meetings == [] {
      return Failure(NoMeetings);
    }
    var earliest := EarliestStart(meetings);
    var latest := LatestEnd(meetings);

    return Success(Summary(
      credits, score, numSections,
      daysHit["Mon"], daysHit["Tue"], daysHit["Wed"],
      daysHit["Thu"], daysHit["Fri"], daysHit["Sat"],
      earliest, latest, pattern));
  }

  /** Day names outside Mon to Sat leave every day flag of the summary as it was. */
  lemma OtherDaysIgnored(ms: seq<Meeting>, m: Meeting, d: string)
    requires m.day !in Days && d in Days
    ensures MeetsOn(ms + [m], d) <==> MeetsOn(ms, d)
  {
    if MeetsOn(ms + [m], d) {
      var w :| w in ms + [m] && w.day == d;
      assert w in ms;
    }
  }
}
