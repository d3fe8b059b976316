/** Group formation of api-db.php: the Fridays of a month and the
    functions that draw a week's group from the roster.  `shuffle` is
    modelled as a choice of any permutation, so every contract below holds
    whichever order the random shuffle produces. */
module Grouping {
  import opened Common
  import opened Calendar

  type Name = string
  type Group = seq<Name>

  /** One generated week: its Friday, its 1-based number and its groups. */
  datatype Week = Week(date: Date, weekNumber: int, groups: seq<Group>)

  /** Every name in any of the groups. */
  function NamesIn(gs: seq<Group>): set<Name> {
    if gs == [] then {} else NamesIn(gs[..|gs| - 1]) + Elems(gs[|gs| - 1])
  }

  /** The groups laid end to end. */
  function Concat(gs: seq<Group>): seq<Name> {
    if gs == [] then [] else Concat(gs[..|gs| - 1]) + gs[|gs| - 1]
  }

  lemma ConcatSnoc(gs: seq<Group>, g: Group)
    ensures Concat(gs + [g]) == Concat(gs) + g
  {
    assert (gs + [g])[..|gs|] == gs;
  }

  /** Names of week `i`; a week that does not exist contributes nothing
      (the `isset($weekGroups[$i])` test). */
  function WeekNames(weeks: seq<Week>, i: int): set<Name> {
    if 0 <= i < |weeks| then NamesIn(weeks[i].groups) else {}
  }

  /** Names of weeks lo..hi-1, as the exclusion loops visit them. */
  function WindowNames(weeks: seq<Week>, lo: int, hi: int): set<Name>
    decreases hi - lo
  {
    if lo >= hi then {} else WindowNames(weeks, lo, hi - 1) + WeekNames(weeks, hi - 1)
  }

  /** The previous month's last group, which only week 0 excludes, and only
      when it is non-empty. */
  function CarryOver(w: int, last: Option<seq<Name>>): set<Name> {
    if w == 0 && last.Some? && last.value != [] then Elems(last.value) else {}
  }

  /** `array_diff($people, $excluded)`: the roster entries not excluded, in roster order. */
  function Without(people: seq<Name>, excluded: set<Name>): seq<Name> {
    Filter(people, Outside(excluded))
  }

  function Outside(excluded: set<Name>): Name -> bool {
    x => x !in excluded
  }

  /** The pool the week's group is drawn from: the roster minus the carry-over
      and the two previous weeks; failing `groupSize` people, the roster minus
      the previous week only; failing that, the whole roster. */
  function Pool(people: seq<Name>, groupSize: int, weeks: seq<Week>, w: int, last: Option<seq<Name>>): (pool: seq<Name>)
    ensures |pool| >= groupSize || pool == people
    ensures pool == people || forall x :: x in pool ==> x !in WeekNames(weeks, w - 1)
  {
    var first := Without(people, CarryOver(w, last) + WindowNames(weeks, Max(0, w - 2), w));
    WithoutSub(people, CarryOver(w, last) + WindowNames(weeks, Max(0, w - 2), w));
    WindowsArePreviousWeeks(weeks, w);
    if |first| >= groupSize then first
    else
      var second := Without(people, WindowNames(weeks, Max(0, w - 1), w));
      WithoutSub(people, WindowNames(weeks, Max(0, w - 1), w));
      if |second| >= groupSize then second else people
  }

  /** The Fridays `getFridays` lists for a month number in 0..12: month 0
      reads as December of the year before. */
  function RequestedFridays(year: int, month: int): seq<Date>
    requires 0 <= month <= 12
  {
    if month == 0 then Fridays(year - 1, 12) else Fridays(year, month)
  }

  /** `getFridays` (api-db.php:340-361): walks days 1..t of the month and
      keeps those whose ISO weekday (`N`) is 5.  Both `mktime` and the
      `DateTime` constructor read month 0 as December of the year before;
      for a month above 12 the constructor throws, modelled as None. */
  method GetFridays(year: int, month: int) returns (r: Option<seq<Date>>)
    ensures 1 <= month <= 12 ==> r == Some(Fridays(year, month))
    ensures month == 0 ==> r == Some(Fridays(year - 1, 12))
    ensures !(0 <= month <= 12) ==> r == None
  {
    if !(0 <= month <= 12) {
      return None;
    }
    var y := if month == 0 then year - 1 else year;
    var m := if month == 0 then 12 else month;
    var fridays: seq<Date> := [];
    var daysInMonth := DaysInMonth(y, m);
    for day := 1 to daysInMonth + 1
      invariant fridays == FridaysUpTo(y, m, day - 1)
    {
      var date := Date(y, m, day);
      if IsoWeekday(date) == 5 {
        fridays := fridays + [date];
      }
    }
    r := Some(fridays);
  }

  /** `g` is the first `k` entries of some shuffle of `pool`. */
  predicate IsShuffledPrefix(g: seq<Name>, pool: seq<Name>, k: int) {
    |g| == Min(k, |pool|) && multiset(g) <= multiset(pool)
  }

  /** What `createGroupsWithCooldown` may return for week `w`. */
  predicate IsCooldownOutcome(people: seq<Name>, groupSize: int, weeks: seq<Week>, w: int, last: Option<seq<Name>>, groups: seq<Group>) {
    if people == [] || groupSize <= 0 then groups == []
    else |groups| == 1 && IsShuffledPrefix(groups[0], Pool(people, groupSize, weeks, w, last), groupSize)
  }

  /** The first `k` entries of a shuffle are a shuffled prefix. */
  lemma PrefixOfShuffle(shuffled: seq<Name>, pool: seq<Name>, k: int)
    requires multiset(shuffled) == multiset(pool) && k >= 0
    ensures IsShuffledPrefix(shuffled[..Min(k, |shuffled|)], pool, k)
  {
    var n := Min(k, |shuffled|);
    assert shuffled == shuffled[..n] + shuffled[n..];
    assert |shuffled| == |pool| by {
      assert |multiset(shuffled)| == |shuffled| && |multiset(pool)| == |pool|;
    }
  }

  /** Gathers the names of weeks from..to-1 after `seed`, as the loops at
      api-db.php:411-417 and 429-435 do with `array_merge`. */
  method CollectRecent(weekGroups: seq<Week>, from: int, to: int, seed: seq<Name>) returns (recent: seq<Name>)
    ensures Elems(recent) == Elems(seed) + WindowNames(weekGroups, from, to)
  {
    recent := seed;
    var i := from;
    if to <= from {
      return;
    }
    while i < to
      invariant from <= i <= to
      invariant Elems(recent) == Elems(seed) + WindowNames(weekGroups, from, i)
    {
      if i < |weekGroups| && 0 <= i {
        var gs := weekGroups[i].groups;
        var j := 0;
        while j < |gs|
          invariant 0 <= j <= |gs|
          invariant Elems(recent) == Elems(seed) + WindowNames(weekGroups, from, i) + NamesIn(gs[..j])
        {
          assert gs[..j + 1][..j] == gs[..j];
          ElemsAppend(recent, gs[j]);
          recent := recent + gs[j];
          j := j + 1;
        }
        assert gs[..j] == gs;
      }
      assert WindowNames(weekGroups, from, i + 1) == WindowNames(weekGroups, from, i) + WeekNames(weekGroups, i);
      i := i + 1;
    }
  }

  /** The exclusion and relaxation steps of `createGroupsWithCooldown`
      (api-db.php:401-443), which leave `$availablePeople` equal to the pool. */
  method AvailablePeople(people: seq<Name>, groupSize: int, weekGroups: seq<Week>, currentWeekIndex: int, last: Option<seq<Name>>)
    returns (available: seq<Name>)
    ensures available == Pool(people, groupSize, weekGroups, currentWeekIndex, last)
  {
    var seed: seq<Name> := [];
    if currentWeekIndex == 0 && last.Some? && last.value != [] {
      seed := last.value;
    }
    assert Elems(seed) == CarryOver(currentWeekIndex, last);
    var recent := CollectRecent(weekGroups, Max(0, currentWeekIndex - 2), currentWeekIndex, seed);
    // array_unique does not change which names are excluded
    available := Without(people, Elems(recent));
    if |available| < groupSize {
      recent := CollectRecent(weekGroups, Max(0, currentWeekIndex - 1), currentWeekIndex, []);
      assert Elems(recent) == WindowNames(weekGroups, Max(0, currentWeekIndex - 1), currentWeekIndex);
      available := Without(people, Elems(recent));
      if |available| < groupSize {
        available := people;
      }
    }
  }

  /** `createGroupsWithCooldown` (api-db.php:396-452): one group of at most
      `groupSize` people for week `currentWeekIndex`, avoiding the people of
      the recent weeks as far as the roster allows. */
  method CreateGroupsWithCooldown(people: seq<Name>, groupSize: int, weekGroups: seq<Week>, currentWeekIndex: int, last: Option<seq<Name>>)
    returns (groups: seq<Group>)
    ensures IsCooldownOutcome(people, groupSize, weekGroups, currentWeekIndex, last, groups)
  {
    if |people| == 0 || groupSize <= 0 {
      return [];
    }
    var available := AvailablePeople(people, groupSize, weekGroups, currentWeekIndex, last);
    var shuffled :| multiset(shuffled) == multiset(available);
    PrefixOfShuffle(shuffled, available, groupSize);
    groups := [shuffled[..Min(groupSize, |shuffled|)]];
  }

  /** The two exclusion windows are "the two previous weeks" and "the previous week". */
  lemma WindowsArePreviousWeeks(weeks: seq<Week>, w: int)
    ensures WindowNames(weeks, Max(0, w - 2), w) == WeekNames(weeks, w - 2) + WeekNames(weeks, w - 1)
    ensures WindowNames(weeks, Max(0, w - 1), w) == WeekNames(weeks, w - 1)
  {
    if w >= 2 {
      assert WindowNames(weeks, w - 2, w - 2) == {};
      assert WindowNames(weeks, w - 2, w - 1) == WeekNames(weeks, w - 2);
    } else if w == 1 {
      assert WindowNames(weeks, 0, 0) == {};
    }
  }

  lemma WithoutSub(people: seq<Name>, excluded: set<Name>)
    ensures multiset(Without(people, excluded)) <= multiset(people)
    ensures forall x :: x in Without(people, excluded) <==> x in people && x !in excluded
  {
    FilterSpec(people, Outside(excluded));
  }

  /** The pool is drawn from the roster. */
  lemma PoolInRoster(people: seq<Name>, groupSize: int, weeks: seq<Week>, w: int, last: Option<seq<Name>>)
    ensures multiset(Pool(people, groupSize, weeks, w, last)) <= multiset(people)
    ensures |Pool(people, groupSize, weeks, w, last)| <= |people|
  {
    WithoutSub(people, CarryOver(w, last) + WindowNames(weeks, Max(0, w - 2), w));
    WithoutSub(people, WindowNames(weeks, Max(0, w - 1), w));
  }

  /** On a non-empty roster with a positive size there is exactly one group,
      of `min(groupSize, |people|)` members, all from the roster, and distinct
      when the roster is; otherwise there is no group. */
  lemma OutcomeShape(people: seq<Name>, groupSize: int, weeks: seq<Week>, w: int, last: Option<seq<Name>>, groups: seq<Group>)
    requires IsCooldownOutcome(people, groupSize, weeks, w, last, groups)
    ensures people == [] || groupSize <= 0 <==> groups == []
    ensures groups != [] ==> |groups| == 1 && |groups[0]| == Min(groupSize, |people|)
    ensures groups != [] ==> multiset(groups[0]) <= multiset(people) && Elems(groups[0]) <= Elems(people)
    ensures groups != [] && Distinct(people) ==> Distinct(groups[0])
  {
    if people != [] && groupSize > 0 {
      var pool := Pool(people, groupSize, weeks, w, last);
      PoolInRoster(people, groupSize, weeks, w, last);
      assert |pool| >= groupSize || pool == people;
      var g := groups[0];
      forall x | x in g ensures x in people {
        assert multiset(g)[x] > 0;
      }
      if Distinct(people) {
        DistinctSubMultiset(g, people);
      }
    }
  }

  /** The cooldown: when the roster minus the recent people still holds
      `groupSize` people, nobody of weeks w-2 and w-1 (nor, in week 0, of the
      previous month's last group) is in the group. */
  lemma CooldownHonoured(people: seq<Name>, groupSize: int, weeks: seq<Week>, w: int, last: Option<seq<Name>>, groups: seq<Group>)
    requires IsCooldownOutcome(people, groupSize, weeks, w, last, groups)
    requires people != [] && groupSize > 0
    requires |Without(people, CarryOver(w, last) + WeekNames(weeks, w - 2) + WeekNames(weeks, w - 1))| >= groupSize
    ensures forall x :: x in groups[0] ==> x !in CarryOver(w, last) && x !in WeekNames(weeks, w - 2) && x !in WeekNames(weeks, w - 1)
  {
    WindowsArePreviousWeeks(weeks, w);
    var ex := CarryOver(w, last) + WeekNames(weeks, w - 2) + WeekNames(weeks, w - 1);
    assert CarryOver(w, last) + WindowNames(weeks, Max(0, w - 2), w) == ex;
    WithoutSub(people, ex);
    forall x | x in groups[0] ensures x !in ex {
      assert multiset(groups[0])[x] > 0;
    }
  }

  /** The two relaxation tiers: with too few people after the full exclusion,
      only week w-1 is excluded (the carry-over and week w-2 are dropped);
      with too few even then, the group is drawn from the whole roster. */
  lemma RelaxationTiers(people: seq<Name>, groupSize: int, weeks: seq<Week>, w: int, last: Option<seq<Name>>, groups: seq<Group>)
    requires IsCooldownOutcome(people, groupSize, weeks, w, last, groups)
    requires people != [] && groupSize > 0
    requires |Without(people, CarryOver(w, last) + WeekNames(weeks, w - 2) + WeekNames(weeks, w - 1))| < groupSize
    ensures |Without(people, WeekNames(weeks, w - 1))| >= groupSize ==>
      Pool(people, groupSize, weeks, w, last) == Without(people, WeekNames(weeks, w - 1)) &&
      forall x :: x in groups[0] ==> x !in WeekNames(weeks, w - 1)
    ensures |Without(people, WeekNames(weeks, w - 1))| < groupSize ==>
      Pool(people, groupSize, weeks, w, last) == people && |groups[0]| == Min(groupSize, |people|)
  {
    WindowsArePreviousWeeks(weeks, w);
    assert CarryOver(w, last) + WindowNames(weeks, Max(0, w - 2), w) == CarryOver(w, last) + WeekNames(weeks, w - 2) + WeekNames(weeks, w - 1);
    WithoutSub(people, WeekNames(weeks, w - 1));
    forall x | x in groups[0] ensures multiset(groups[0])[x] > 0 { }
  }

  /** Without exclusions `array_diff` keeps the whole roster. */
  lemma {:induction false} WithoutNothing(people: seq<Name>)
    ensures Without(people, {}) == people
  {
    if people != [] {
      var init := people[..|people| - 1];
      WithoutNothing(init);
      assert people == init + [people[|people| - 1]];
    }
  }

  /** `createOneGroupPerWeek` (api-db.php:383-394): the first `groupSize`
      entries of the shuffled roster as the only group.  `shuffled` is the
      order `shuffle` produced. */
  function CreateOneGroupPerWeek(people: seq<Name>, groupSize: int, shuffled: seq<Name>): (r: seq<Group>)
    requires multiset(shuffled) == multiset(people)
    ensures people == [] || groupSize <= 0 ==> r == []
    ensures people != [] && groupSize > 0 ==> |r| == 1 && IsShuffledPrefix(r[0], people, groupSize)
  {
    if people == [] || groupSize <= 0 then []
    else
      PrefixOfShuffle(shuffled, people, groupSize);
      [shuffled[..Min(groupSize, |shuffled|)]]
  }

  /** With no earlier weeks and no carry-over, the cooldown draw is the plain
      one-group draw of `createOneGroupPerWeek`. */
  lemma CooldownWithoutHistory(people: seq<Name>, groupSize: int, shuffled: seq<Name>)
    requires multiset(shuffled) == multiset(people)
    ensures IsCooldownOutcome(people, groupSize, [], 0, None, CreateOneGroupPerWeek(people, groupSize, shuffled))
  {
    assert WindowNames([], 0, 0) == {};
    assert CarryOver(0, None) + WindowNames([], Max(0, 0 - 2), 0) == {};
    assert WindowNames([], Max(0, 0 - 1), 0) == {};
    WithoutNothing(people);
  }

  /** `createSingleGroup` (api-db.php:363-381): the shuffled roster cut into
      consecutive chunks of `groupSize`; the last chunk may be shorter.  With
      a non-empty roster and `groupSize <= 0` the source loops forever, hence
      the precondition. */
  method CreateSingleGroup(people: seq<Name>, groupSize: int) returns (groups: seq<Group>)
    requires people == [] || groupSize > 0
    ensures multiset(Concat(groups)) == multiset(people)
    ensures forall i :: 0 <= i < |groups| ==> 0 < |groups[i]| <= groupSize
    ensures forall i :: 0 <= i < |groups| - 1 ==> |groups[i]| == groupSize
  {
    if |people| == 0 {
      return [];
    }
    var shuffled :| multiset(shuffled) == multiset(people);
    assert |shuffled| == |people| by {
      assert |multiset(shuffled)| == |shuffled| && |multiset(people)| == |people|;
    }
    groups := [];
    var total := |shuffled|;
    var i := 0;
    while i < total
      invariant 0 <= i <= total
      invariant Concat(groups) == shuffled[..i]
      invariant forall k :: 0 <= k < |groups| ==> 0 < |groups[k]| <= groupSize
      invariant forall k :: 0 <= k < |groups| - 1 ==> |groups[k]| == groupSize
      invariant i < total ==> forall k :: 0 <= k < |groups| ==> |groups[k]| == groupSize
    {
      var next := Min(i + groupSize, total);
      var group := shuffled[i..next];
      assert shuffled[..next] == shuffled[..i] + group;
      ConcatSnoc(groups, group);
      groups := groups + [group];
      i := next;
    }
    assert shuffled[..i] == shuffled;
  }
}
