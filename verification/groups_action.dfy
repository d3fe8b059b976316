/** The `groups` request of api-db.php (lines 91-235): reuse the month's
    stored groups when they still fit the roster, otherwise generate new
    ones week by week and store them. */
module GroupsAction {
  import opened Common
  import opened Calendar
  import opened Grouping
  import opened Storage

  /** `max(2, min(15, intval(groupSize)))`, or 2 when the parameter is absent
      (api-db.php:93); the argument is the result of `intval`. */
  function ClampGroupSize(requested: Option<int>): (k: int)
    ensures 2 <= k <= 15
    ensures requested.None? ==> k == 2
    ensures requested.Some? && 2 <= requested.value <= 15 ==> k == requested.value
    ensures requested.Some? && requested.value < 2 ==> k == 2
    ensures requested.Some? && requested.value > 15 ==> k == 15
  {
    match requested
    case None => 2
    case Some(v) => Max(2, Min(15, v))
  }

  /** `preg_match('/^\d{4}-\d{2}$/', $month)`: without the D modifier, `$`
      also matches just before a final newline. */
  predicate MatchesMonthPattern(s: string)
    ensures MatchesMonthPattern(s) ==> |s| >= 7 && IsMonthKey(s[..7])
  {
    assert |s| == 7 ==> s[..7] == s;
    IsMonthKey(s) || (|s| == 8 && s[7] == '\n' && IsMonthKey(s[..7]))
  }

  /** Every formatted month key passes the check, and reads back as the same
      year and month. */
  lemma FormattedKeyAccepted(y: int, m: int)
    requires 0 <= y <= 9999 && 0 <= m <= 99
    ensures MatchesMonthPattern(FormatMonthKey(y, m))
    ensures KeyYear(FormatMonthKey(y, m)) == y && KeyMonth(FormatMonthKey(y, m)) == m
  {
    MonthKeyRoundTrip(y, m);
  }

  /** A key followed by a newline passes the check although it is not a
      stored key; keys of other lengths never pass. */
  lemma TrailingNewlineAccepted()
    ensures MatchesMonthPattern("2024-05\n") && !IsMonthKey("2024-05\n")
    ensures forall s :: MatchesMonthPattern(s) ==> |s| == 7 || |s| == 8
  {
    assert "2024-05\n"[..7] == "2024-05";
    assert "2024-05\n"[..4] == "2024";
    assert "2024-05\n"[5..7] == "05";
    assert "2024-05"[..4] == "2024" && "2024-05"[5..] == "05";
  }

  /** `$formation === 'single'`; every other value takes the multiple path. */
  function ParseFormation(s: string): (f: Formation)
    ensures f == Single <==> s == "single"
  {
    if s == "single" then Single else Multiple
  }

  // ---------------------------------------------------------------------
  // Staleness of the stored rows (api-db.php:106-140)

  /** `array_merge` of the decoded members of the week-1 rows, in row order;
      Err when one of them does not decode (`array_merge` with null is a
      TypeError). */
  function WeekOneNames(saved: seq<Row>): Result<seq<Name>, ()> {
    if saved == [] then Ok([])
    else
      var prior := WeekOneNames(saved[..|saved| - 1]);
      var r := saved[|saved| - 1];
      if prior.Err? || r.week != 1 then prior
      else match r.members
        case Decoded(ns) => Ok(prior.value + ns)
        case Undecodable(_) => Err(())
  }

  /** Whether the stored rows no longer fit a roster of `total` people: for
      single, the first row's member count differs from it; otherwise the
      number of distinct names in week 1 does.  Err when `count` meets a
      failed decode (a TypeError).  No rows: nothing to discard. */
  function StaleSpec(formation: Formation, saved: seq<Row>, total: int): Result<bool, ()> {
    if saved == [] then Ok(false)
    else if formation == Single then
      match saved[0].members
      case Decoded(ns) => Ok(|ns| != total)
      case Undecodable(_) => Err(())
    else
      match WeekOneNames(saved)
      case Err(_) => Err(())
      case Ok(ns) => Ok(|Elems(ns)| != total)
  }

  /** The staleness check as the source runs it, with the loop over the rows
      for the multiple formation. */
  method CheckStale(formation: Formation, saved: seq<Row>, total: int) returns (r: Result<bool, ()>)
    ensures r == StaleSpec(formation, saved, total)
  {
    if saved == [] {
      return Ok(false);
    }
    if formation == Single {
      var first := saved[0];
      if first.members.Undecodable? {
        return Err(());
      }
      return Ok(|first.members.names| != total);
    }
    var merged: seq<Name> := [];
    for i := 0 to |saved|
      invariant WeekOneNames(saved[..i]) == Ok(merged)
    {
      assert saved[..i + 1][..i] == saved[..i];
      if saved[i].week == 1 {
        if saved[i].members.Undecodable? {
          assert WeekOneNames(saved[..i + 1]) == Err(());
          WeekOneNamesErr(saved, i + 1);
          return Err(());
        }
        merged := merged + saved[i].members.names;
      }
    }
    assert saved[..|saved|] == saved;
    r := Ok(|Elems(merged)| != total);
  }

  /** Once a prefix fails to decode, the whole sequence does. */
  lemma {:induction false} WeekOneNamesErr(saved: seq<Row>, n: int)
    requires 0 <= n <= |saved| && WeekOneNames(saved[..n]).Err?
    ensures WeekOneNames(saved).Err?
    decreases |saved| - n
  {
    if n < |saved| {
      assert saved[..n + 1][..n] == saved[..n];
      WeekOneNamesErr(saved, n + 1);
    } else {
      assert saved[..n] == saved;
    }
  }

  // ---------------------------------------------------------------------
  // Rows back into weeks (api-db.php:142-182)

  /** One entry of a week's `groups` array: PHP integer key and value. */
  datatype Slot = Slot(key: int, group: Group)

  /** The week being built (`$currentWeek`). */
  datatype Pending = Pending(date: Date, weekNumber: int, slots: seq<Slot>)

  /** `$weekGroups` so far and `$currentWeek`. */
  datatype ReshapeState = ReshapeState(done: seq<Week>, current: Option<Pending>)

  const Start := ReshapeState([], None)

  /** Position of `key` among the slots, if present. */
  function KeyIndex(slots: seq<Slot>, key: int): (r: Option<nat>)
    ensures r.Some? ==> r.value < |slots| && slots[r.value].key == key
    ensures r.None? <==> forall j :: 0 <= j < |slots| ==> slots[j].key != key
  {
    if slots == [] then None
    else if slots[0].key == key then Some(0)
    else
      var rest := KeyIndex(slots[1..], key);
      assert forall j :: 1 <= j < |slots| ==> slots[j] == slots[1..][j - 1];
      if rest.Some? then Some(rest.value + 1) else None
  }

  /** `$groups[$key] = $g` on a PHP array: an existing key keeps its place and
      gets the new value; a new key goes at the end. */
  function Place(slots: seq<Slot>, key: int, g: Group): (r: seq<Slot>)
    ensures KeyIndex(slots, key).Some? ==> |r| == |slots| && r[KeyIndex(slots, key).value] == Slot(key, g)
    ensures KeyIndex(slots, key).None? ==> r == slots + [Slot(key, g)]
    ensures forall j :: 0 <= j < |slots| && slots[j].key != key ==> r[j] == slots[j]
  {
    match KeyIndex(slots, key)
    case Some(i) => slots[i := Slot(key, g)]
    case None => slots + [Slot(key, g)]
  }

  /** `array_values`: the values in insertion order. */
  function Values(slots: seq<Slot>): (gs: seq<Group>)
    ensures |gs| == |slots| && forall i :: 0 <= i < |slots| ==> gs[i] == slots[i].group
  {
    seq(|slots|, i requires 0 <= i < |slots| => slots[i].group)
  }

  /** The group a row contributes: its decoded members, or the raw text as a
      one-name group when decoding fails, so no stored row is dropped. */
  function RowGroup(r: Row): (g: Group)
    ensures r.members.Decoded? ==> g == r.members.names
    ensures r.members.Undecodable? ==> |g| == 1 && g[0] == r.members.raw
  {
    match r.members
    case Decoded(ns) => ns
    case Undecodable(raw) => [raw]
  }

  function Close(p: Pending): Week {
    Week(p.date, p.weekNumber, Values(p.slots))
  }

  /** One iteration of the loop: a row whose week differs from the current
      one closes it and opens a new week; the row's group goes to key
      `numero_grupo - 1`. */
  function Step(st: ReshapeState, r: Row): ReshapeState {
    if st.current.Some? && st.current.value.weekNumber == r.week then
      var p := st.current.value;
      st.(current := Some(p.(slots := Place(p.slots, r.groupNumber - 1, RowGroup(r)))))
    else
      var done := if st.current.Some? then st.done + [Close(st.current.value)] else st.done;
      ReshapeState(done, Some(Pending(r.date, r.week, Place([], r.groupNumber - 1, RowGroup(r)))))
  }

  function FoldRows(st: ReshapeState, rows: seq<Row>): ReshapeState {
    if rows == [] then st else Step(FoldRows(st, rows[..|rows| - 1]), rows[|rows| - 1])
  }

  function Finish(st: ReshapeState): seq<Week> {
    if st.current.Some? then st.done + [Close(st.current.value)] else st.done
  }

  /** The weeks the reuse path responds with. */
  function Reshape(rows: seq<Row>): seq<Week> {
    Finish(FoldRows(Start, rows))
  }

  /** The reshape loop as the source runs it. */
  method ReshapeRows(saved: seq<Row>) returns (weekGroups: seq<Week>)
    ensures weekGroups == Reshape(saved)
  {
    var done: seq<Week> := [];
    var current: Option<Pending> := None;
    for i := 0 to |saved|
      invariant ReshapeState(done, current) == FoldRows(Start, saved[..i])
    {
      assert saved[..i + 1][..i] == saved[..i];
      done, current := ReshapeStep(done, current, saved[i]);
    }
    assert saved[..|saved|] == saved;
    weekGroups := done + (if current.Some? then [Close(current.value)] else []);
  }

  /** One iteration of the reshape loop on `$weekGroups` and `$currentWeek`. */
  method ReshapeStep(done: seq<Week>, current: Option<Pending>, row: Row) returns (done': seq<Week>, current': Option<Pending>)
    ensures ReshapeState(done', current') == Step(ReshapeState(done, current), row)
  {
    done', current' := done, current;
    if current'.None? || current'.value.weekNumber != row.week {
      if current'.Some? {
        done' := done' + [Close(current'.value)];
      }
      current' := Some(Pending(row.date, row.week, []));
    }
    var slots := Place(current'.value.slots, row.groupNumber - 1, RowGroup(row));
    current' := Some(current'.value.(slots := slots));
  }

  lemma {:induction false} FoldRowsAppend(st: ReshapeState, a: seq<Row>, b: seq<Row>)
    ensures FoldRows(st, a + b) == FoldRows(FoldRows(st, a), b)
    decreases |b|
  {
    if b == [] {
      assert a + b == a;
    } else {
      var b' := b[..|b| - 1];
      assert (a + b)[..|a + b| - 1] == a + b' && (a + b)[|a + b| - 1] == b[|b| - 1];
      FoldRowsAppend(st, a, b');
    }
  }

  /** The slots of groups numbered 0..n-1 in order. */
  function Enumerate(gs: seq<Group>): (s: seq<Slot>)
    ensures |s| == |gs| && Values(s) == gs
  {
    seq(|gs|, j requires 0 <= j < |gs| => Slot(j, gs[j]))
  }

  /** Placing group n - 1 after the slots of groups 0..n-2 appends it. */
  lemma EnumeratePlace(gs: seq<Group>, n: int)
    requires 1 <= n <= |gs|
    ensures Place(Enumerate(gs[..n - 1]), n - 1, gs[n - 1]) == Enumerate(gs[..n])
  {
    var slots := Enumerate(gs[..n - 1]);
    assert KeyIndex(slots, n - 1).None? by {
      forall j | 0 <= j < |slots| ensures slots[j].key != n - 1 { }
    }
    assert slots + [Slot(n - 1, gs[n - 1])] == Enumerate(gs[..n]);
  }

  /** Folding the rows of one saved week after a state whose current week
      has another number closes that week and rebuilds this one. */
  lemma {:induction false} FoldWeekRows(st: ReshapeState, month: string, size: int, formation: Formation, w: Week, n: int)
    requires st.current.None? || st.current.value.weekNumber != w.weekNumber
    requires 1 <= n <= |w.groups|
    ensures FoldRows(st, WeekRows(month, size, formation, w)[..n])
      == ReshapeState(Finish(st), Some(Pending(w.date, w.weekNumber, Enumerate(w.groups[..n]))))
  {
    var rs := WeekRows(month, size, formation, w);
    var r := rs[n - 1];
    var prev := FoldRows(st, rs[..n - 1]);
    assert FoldRows(st, rs[..n]) == Step(prev, r) by {
      var s := rs[..n];
      assert s[..|s| - 1] == rs[..n - 1] && s[|s| - 1] == r;
    }
    assert r.week == w.weekNumber && r.date == w.date && r.groupNumber == n && RowGroup(r) == w.groups[n - 1];
    if n == 1 {
      assert prev == st by { assert rs[..0] == []; }
      StepOpensWeek(st, r, w.groups);
    } else {
      FoldWeekRows(st, month, size, formation, w, n - 1);
      StepJoinsWeek(Finish(st), w.date, w.weekNumber, w.groups, n, r);
    }
  }

  /** The first row of another week closes the current week and opens its own. */
  lemma StepOpensWeek(st: ReshapeState, r: Row, gs: seq<Group>)
    requires st.current.None? || st.current.value.weekNumber != r.week
    requires gs != [] && r.groupNumber == 1 && RowGroup(r) == gs[0]
    ensures Step(st, r) == ReshapeState(Finish(st), Some(Pending(r.date, r.week, Enumerate(gs[..1]))))
  {
    EnumeratePlace(gs, 1);
    assert Enumerate(gs[..0]) == [];
  }

  /** Row n of the current week places group n after groups 1..n-1. */
  lemma StepJoinsWeek(done: seq<Week>, date: Date, weekNumber: int, gs: seq<Group>, n: int, r: Row)
    requires 1 <= n <= |gs| && r.week == weekNumber && r.groupNumber == n && RowGroup(r) == gs[n - 1]
    ensures Step(ReshapeState(done, Some(Pending(date, weekNumber, Enumerate(gs[..n - 1])))), r)
      == ReshapeState(done, Some(Pending(date, weekNumber, Enumerate(gs[..n]))))
  {
    EnumeratePlace(gs, n);
  }

  /** Reading back what `salvarGrupos` stored gives the weeks that were
      saved, provided week numbers increase and no week is empty (a week
      without groups leaves no row behind). */
  lemma ReshapeSaved(month: string, size: int, formation: Formation, weeks: seq<Week>)
    requires forall i, j :: 0 <= i < j < |weeks| ==> weeks[i].weekNumber < weeks[j].weekNumber
    requires forall i :: 0 <= i < |weeks| ==> weeks[i].groups != []
    ensures Reshape(RowsOf(month, size, formation, weeks)) == weeks
  {
    SavedFold(month, size, formation, weeks);
    FinishOpened(weeks);
  }

  /** The loop state after the rows of `weeks`: every week but the last
      closed, the last one open. */
  function Opened(weeks: seq<Week>): ReshapeState {
    if weeks == [] then Start
    else
      var last := weeks[|weeks| - 1];
      ReshapeState(weeks[..|weeks| - 1], Some(Pending(last.date, last.weekNumber, Enumerate(last.groups))))
  }

  lemma FinishOpened(weeks: seq<Week>)
    ensures Finish(Opened(weeks)) == weeks
  {
    if weeks != [] {
      var last := weeks[|weeks| - 1];
      assert Close(Pending(last.date, last.weekNumber, Enumerate(last.groups))) == last;
      assert weeks[..|weeks| - 1] + [last] == weeks;
    }
  }

  /** Week numbers increase and no week is empty. */
  predicate SavedShape(weeks: seq<Week>) {
    (forall i, j :: 0 <= i < j < |weeks| ==> weeks[i].weekNumber < weeks[j].weekNumber) &&
    (forall i :: 0 <= i < |weeks| ==> weeks[i].groups != [])
  }

  lemma SavedShapeInit(weeks: seq<Week>)
    requires SavedShape(weeks) && weeks != []
    ensures SavedShape(weeks[..|weeks| - 1])
    ensures |weeks| >= 2 ==> weeks[|weeks| - 2].weekNumber < weeks[|weeks| - 1].weekNumber
  {
  }

  lemma {:induction false} SavedFold(month: string, size: int, formation: Formation, weeks: seq<Week>)
    requires SavedShape(weeks)
    ensures FoldRows(Start, RowsOf(month, size, formation, weeks)) == Opened(weeks)
  {
    if weeks != [] {
      SavedShapeInit(weeks);
      SavedFold(month, size, formation, weeks[..|weeks| - 1]);
      SavedFoldStep(month, size, formation, weeks);
    }
  }

  /** Folding the rows of the last week, numbered above the open one, closes
      that week and opens the last. */
  lemma SavedFoldStep(month: string, size: int, formation: Formation, weeks: seq<Week>)
    requires weeks != [] && weeks[|weeks| - 1].groups != []
    requires |weeks| >= 2 ==> weeks[|weeks| - 2].weekNumber < weeks[|weeks| - 1].weekNumber
    requires FoldRows(Start, RowsOf(month, size, formation, weeks[..|weeks| - 1])) == Opened(weeks[..|weeks| - 1])
    ensures FoldRows(Start, RowsOf(month, size, formation, weeks)) == Opened(weeks)
  {
    var init := weeks[..|weeks| - 1];
    var w := weeks[|weeks| - 1];
    var st := Opened(init);
    assert init != [] ==> init[|init| - 1] == weeks[|weeks| - 2];
    FinishOpened(init);
    var rs := WeekRows(month, size, formation, w);
    FoldRowsAppend(Start, RowsOf(month, size, formation, init), rs);
    FoldWeekRows(st, month, size, formation, w, |w.groups|);
    assert rs[..|w.groups|] == rs;
    assert w.groups[..|w.groups|] == w.groups;
  }

  // ---------------------------------------------------------------------
  // Generation (api-db.php:185-229)

  /** Week `i` of a generation: its Friday, its number, and a draw of
      `createGroupsWithCooldown` against the weeks before it, with the
      previous month's group only in week 0. */
  predicate IsGeneratedWeek(people: seq<Name>, groupSize: int, fridays: seq<Date>, carry: Option<seq<Name>>, weeks: seq<Week>, i: int)
    requires 0 <= i < |weeks| && i < |fridays|
  {
    weeks[i].date == fridays[i] && weeks[i].weekNumber == i + 1 &&
    IsCooldownOutcome(people, groupSize, weeks[..i], i, if i == 0 then carry else None, weeks[i].groups)
  }

  /** What the generation loop may produce: one week per Friday, in order. */
  predicate IsGeneratedMonth(people: seq<Name>, groupSize: int, fridays: seq<Date>, carry: Option<seq<Name>>, weeks: seq<Week>) {
    |weeks| == |fridays| && GeneratedUpTo(people, groupSize, fridays, carry, weeks)
  }

  predicate GeneratedUpTo(people: seq<Name>, groupSize: int, fridays: seq<Date>, carry: Option<seq<Name>>, weeks: seq<Week>) {
    |weeks| <= |fridays| &&
    forall i :: 0 <= i < |weeks| ==> IsGeneratedWeek(people, groupSize, fridays, carry, weeks, i)
  }

  /** A generated month has one week per Friday, numbered 1, 2, 3, … */
  lemma GeneratedNumbering(people: seq<Name>, groupSize: int, fridays: seq<Date>, carry: Option<seq<Name>>, weeks: seq<Week>)
    requires IsGeneratedMonth(people, groupSize, fridays, carry, weeks)
    ensures |weeks| == |fridays|
    ensures forall i :: 0 <= i < |weeks| ==> weeks[i].date == fridays[i] && weeks[i].weekNumber == i + 1
  {
    forall i | 0 <= i < |weeks| ensures weeks[i].date == fridays[i] && weeks[i].weekNumber == i + 1 {
      assert IsGeneratedWeek(people, groupSize, fridays, carry, weeks, i);
    }
  }

  /** Appending the next generated week keeps the earlier weeks generated. */
  lemma GeneratedSnoc(people: seq<Name>, groupSize: int, fridays: seq<Date>, carry: Option<seq<Name>>, weeks: seq<Week>, groups: seq<Group>)
    requires GeneratedUpTo(people, groupSize, fridays, carry, weeks) && |weeks| < |fridays|
    requires IsCooldownOutcome(people, groupSize, weeks, |weeks|, if |weeks| == 0 then carry else None, groups)
    ensures GeneratedUpTo(people, groupSize, fridays, carry, weeks + [Week(fridays[|weeks|], |weeks| + 1, groups)])
  {
    var next := weeks + [Week(fridays[|weeks|], |weeks| + 1, groups)];
    forall i | 0 <= i < |next| ensures IsGeneratedWeek(people, groupSize, fridays, carry, next, i) {
      assert next[..i] == weeks[..i] || i == |weeks|;
      if i < |weeks| {
        assert next[..i] == weeks[..i] && next[i] == weeks[i];
        assert IsGeneratedWeek(people, groupSize, fridays, carry, weeks, i);
      } else {
        assert next[..i] == weeks;
      }
    }
  }

  /** The generation loop; for the single formation it keeps the first group
      only, which changes nothing because each call returns at most one. */
  method GenerateWeeks(people: seq<Name>, groupSize: int, formation: Formation, fridays: seq<Date>, carry: Option<seq<Name>>)
    returns (weeks: seq<Week>)
    ensures IsGeneratedMonth(people, groupSize, fridays, carry, weeks)
  {
    weeks := [];
    for i := 0 to |fridays|
      invariant |weeks| == i
      invariant GeneratedUpTo(people, groupSize, fridays, carry, weeks)
    {
      var lastForWeek := if i == 0 then carry else None;
      var groups := CreateGroupsWithCooldown(people, groupSize, weeks, i, lastForWeek);
      if formation == Single {
        OutcomeShape(people, groupSize, weeks, i, lastForWeek, groups);
        groups := if groups != [] then [groups[0]] else [];
      }
      GeneratedSnoc(people, groupSize, fridays, carry, weeks, groups);
      weeks := weeks + [Week(fridays[i], i + 1, groups)];
    }
  }

  /** `|A - B| >= |A| - |B|` for the roster: a distinct roster loses at most
      one person per excluded name. */
  lemma WithoutLowerBound(people: seq<Name>, ex: set<Name>)
    requires Distinct(people)
    ensures |Without(people, ex)| >= |people| - |ex|
  {
    var w := Without(people, ex);
    WithoutSub(people, ex);
    DistinctSubMultiset(w, people);
    DistinctCard(w);
    DistinctCard(people);
    assert Elems(w) == Elems(people) - ex;
    assert Elems(people) - ex == Elems(people) - (Elems(people) * ex);
    SubsetCard(Elems(people) * ex, ex);
  }

  lemma SubsetCard<T>(a: set<T>, b: set<T>)
    requires a <= b
    ensures |a| <= |b|
  {
    assert b == a + (b - a);
  }

  /** Names of one generated week are at most `groupSize`. */
  lemma GeneratedWeekSize(people: seq<Name>, groupSize: int, fridays: seq<Date>, carry: Option<seq<Name>>, weeks: seq<Week>, i: int)
    requires IsGeneratedMonth(people, groupSize, fridays, carry, weeks) && groupSize > 0
    ensures |WeekNames(weeks, i)| <= groupSize
  {
    if 0 <= i < |weeks| {
      var gs := weeks[i].groups;
      assert gs == [] || (|gs| == 1 && |gs[0]| <= groupSize) by {
        assert IsGeneratedWeek(people, groupSize, fridays, carry, weeks, i);
        OutcomeShape(people, groupSize, weeks[..i], i, if i == 0 then carry else None, gs);
      }
      if gs != [] {
        assert NamesIn(gs) == Elems(gs[0]) by {
          assert gs[..0] == [];
        }
        ElemsCard(gs[0]);
      }
    }
  }

  /** With a distinct roster of at least three groups' worth of people and a
      carried-over group no larger than a group, no one in a generated week
      was in either of the two weeks before it, and week 0 avoids the
      previous month's last group. */
  lemma GeneratedMonthCooldown(people: seq<Name>, groupSize: int, fridays: seq<Date>, carry: Option<seq<Name>>, weeks: seq<Week>, w: int)
    requires Distinct(people) && groupSize > 0 && |people| >= 3 * groupSize
    requires carry.None? || |carry.value| <= groupSize
    requires IsGeneratedMonth(people, groupSize, fridays, carry, weeks)
    requires 0 <= w < |weeks|
    ensures |weeks[w].groups| == 1
    ensures forall x :: x in weeks[w].groups[0] ==>
      x !in WeekNames(weeks, w - 1) && x !in WeekNames(weeks, w - 2) && (w == 0 && carry.Some? ==> x !in carry.value)
  {
    var history := weeks[..w];
    var last := if w == 0 then carry else None;
    var ex := CarryOver(w, last) + WeekNames(history, w - 2) + WeekNames(history, w - 1);
    assert WeekNames(history, w - 2) == WeekNames(weeks, w - 2);
    assert WeekNames(history, w - 1) == WeekNames(weeks, w - 1);
    GeneratedWeekSize(people, groupSize, fridays, carry, weeks, w - 2);
    GeneratedWeekSize(people, groupSize, fridays, carry, weeks, w - 1);
    if w == 0 {
      assert WeekNames(history, -1) == {} && WeekNames(history, -2) == {};
      if carry.Some? {
        ElemsCard(carry.value);
      }
      assert |ex| <= groupSize;
    } else {
      assert CarryOver(w, last) == {};
      assert |ex| <= 2 * groupSize;
    }
    WithoutLowerBound(people, ex);
    assert IsGeneratedWeek(people, groupSize, fridays, carry, weeks, w);
    CooldownHonoured(people, groupSize, history, w, last, weeks[w].groups);
    OutcomeShape(people, groupSize, history, w, last, weeks[w].groups);
  }

  // ---------------------------------------------------------------------
  // What the next request sees

  /** Rows of weeks numbered after 1 contribute nothing to week 1. */
  lemma {:induction false} WeekOneNamesOfWeek(month: string, size: int, formation: Formation, w: Week, n: int)
    requires 0 <= n <= |w.groups|
    ensures WeekOneNames(WeekRows(month, size, formation, w)[..n]) == Ok(if w.weekNumber == 1 then Concat(w.groups[..n]) else [])
  {
    var rs := WeekRows(month, size, formation, w);
    if n > 0 {
      assert rs[..n][..n - 1] == rs[..n - 1];
      WeekOneNamesOfWeek(month, size, formation, w, n - 1);
      assert w.groups[..n][..n - 1] == w.groups[..n - 1];
    } else {
      assert rs[..0] == [];
      assert w.groups[..0] == [];
    }
  }

  lemma {:induction false} WeekOneNamesAppend(a: seq<Row>, b: seq<Row>, na: seq<Name>, nb: seq<Name>)
    requires WeekOneNames(a) == Ok(na) && WeekOneNames(b) == Ok(nb)
    ensures WeekOneNames(a + b) == Ok(na + nb)
    decreases |b|
  {
    if b == [] {
      assert a + b == a && na + [] == na;
      assert nb == [];
    } else {
      var b' := b[..|b| - 1];
      var r := b[|b| - 1];
      assert (a + b)[..|a + b| - 1] == a + b' && (a + b)[|a + b| - 1] == r;
      var nb' := WeekOneNames(b').value;
      assert WeekOneNames(b').Ok?;
      WeekOneNamesAppend(a, b', na, nb');
      if r.week == 1 {
        assert na + nb == (na + nb') + r.members.names;
      }
    }
  }

  /** The week-1 names stored for a generated month are those of its first week. */
  lemma {:induction false} WeekOneNamesSaved(month: string, size: int, formation: Formation, weeks: seq<Week>)
    requires forall i :: 0 <= i < |weeks| ==> weeks[i].weekNumber == i + 1
    ensures WeekOneNames(RowsOf(month, size, formation, weeks)) == Ok(if weeks == [] then [] else Concat(weeks[0].groups))
  {
    if weeks != [] {
      var init := weeks[..|weeks| - 1];
      var w := weeks[|weeks| - 1];
      WeekOneNamesSaved(month, size, formation, init);
      WeekOneNamesWeek(month, size, formation, w);
      var na := if init == [] then [] else Concat(init[0].groups);
      var nb := if w.weekNumber == 1 then Concat(w.groups) else [];
      WeekOneNamesAppend(RowsOf(month, size, formation, init), WeekRows(month, size, formation, w), na, nb);
      assert na + nb == Concat(weeks[0].groups) by {
        if init != [] {
          assert init[0] == weeks[0];
          assert w.weekNumber == |weeks| && |weeks| >= 2;
        } else {
          assert w == weeks[0] && w.weekNumber == 1;
        }
      }
    }
  }

  /** The week-1 names among the rows of one whole week. */
  lemma WeekOneNamesWeek(month: string, size: int, formation: Formation, w: Week)
    ensures WeekOneNames(WeekRows(month, size, formation, w)) == Ok(if w.weekNumber == 1 then Concat(w.groups) else [])
  {
    WeekOneNamesOfWeek(month, size, formation, w, |w.groups|);
    assert WeekRows(month, size, formation, w)[..|w.groups|] == WeekRows(month, size, formation, w);
    assert w.groups[..|w.groups|] == w.groups;
  }

  /** For a month the source has just generated and stored from a distinct,
      non-empty roster, the next request finds the rows stale exactly when
      the roster is larger than the group size, for both formations: each
      week holds a single group of at most `groupSize` people, while the
      check expects the whole roster. */
  lemma SavedGenerationStaleIff(people: seq<Name>, groupSize: int, formation: Formation, fridays: seq<Date>,
                                carry: Option<seq<Name>>, weeks: seq<Week>, month: string)
    requires Distinct(people) && people != [] && groupSize > 0 && fridays != []
    requires IsGeneratedMonth(people, groupSize, fridays, carry, weeks)
    ensures StaleSpec(formation, RowsOf(month, groupSize, formation, weeks), |people|) == Ok(|people| > groupSize)
  {
    var g := weeks[0].groups;
    assert |g| == 1 && |g[0]| == Min(groupSize, |people|) && Distinct(g[0]) by {
      assert IsGeneratedWeek(people, groupSize, fridays, carry, weeks, 0);
      OutcomeShape(people, groupSize, weeks[..0], 0, carry, g);
    }
    var rows := RowsOf(month, groupSize, formation, weeks);
    FirstSavedRow(month, groupSize, formation, weeks);
    if formation != Single {
      assert WeekOneNames(rows) == Ok(g[0]) by {
        GeneratedNumbering(people, groupSize, fridays, carry, weeks);
        WeekOneNamesSaved(month, groupSize, formation, weeks);
        ConcatSingleton(g);
      }
      DistinctCard(g[0]);
    }
  }

  /** The first stored row holds the first group of the first week. */
  lemma FirstSavedRow(month: string, size: int, formation: Formation, weeks: seq<Week>)
    requires weeks != [] && |weeks[0].groups| == 1
    ensures |RowsOf(month, size, formation, weeks)| >= 1
    ensures RowsOf(month, size, formation, weeks)[0].members == Decoded(weeks[0].groups[0])
  {
    var rows := RowsOf(month, size, formation, weeks);
    var pre := WeekRows(month, size, formation, weeks[0]);
    assert RowsOf(month, size, formation, weeks[..1]) == pre by {
      assert weeks[..1][..0] == [];
    }
    RowsOfPrefix(month, size, formation, weeks, 1);
    assert rows[..1] == pre;
    assert rows[0] == rows[..1][0] == pre[0];
  }

  lemma ConcatSingleton(g: seq<Group>)
    requires |g| == 1
    ensures Concat(g) == g[0]
  {
    assert g[..0] == [];
  }

  /** The rows of a prefix of the weeks are a prefix of the rows. */
  lemma {:induction false} RowsOfPrefix(month: string, size: int, formation: Formation, weeks: seq<Week>, n: int)
    requires 0 <= n <= |weeks|
    ensures |RowsOf(month, size, formation, weeks[..n])| <= |RowsOf(month, size, formation, weeks)|
    ensures RowsOf(month, size, formation, weeks)[..|RowsOf(month, size, formation, weeks[..n])|] == RowsOf(month, size, formation, weeks[..n])
    decreases |weeks| - n
  {
    if n == |weeks| {
      assert weeks[..n] == weeks;
    } else {
      RowsOfPrefix(month, size, formation, weeks, n + 1);
      assert weeks[..n + 1][..n] == weeks[..n];
      assert weeks[..n + 1] == weeks[..n] + [weeks[n]];
      RowsOfSnoc(month, size, formation, weeks[..n], weeks[n]);
    }
  }

  /** Every week of a generation from a non-empty roster holds a group. */
  lemma GeneratedWeeksNonEmpty(people: seq<Name>, groupSize: int, fridays: seq<Date>, carry: Option<seq<Name>>, weeks: seq<Week>)
    requires people != [] && groupSize > 0
    requires IsGeneratedMonth(people, groupSize, fridays, carry, weeks)
    ensures forall i :: 0 <= i < |weeks| ==> weeks[i].groups != []
  {
    forall i | 0 <= i < |weeks| ensures weeks[i].groups != [] {
      assert IsGeneratedWeek(people, groupSize, fridays, carry, weeks, i);
    }
  }

  /** What the next `groups` request for the same month, formation and size
      sees after a generation from a distinct, non-empty roster was stored:
      the query returns exactly the stored rows, reading them back gives the
      generated weeks, and they count as stale exactly when the roster is
      larger than the group size. */
  lemma NextRequestAfterGeneration(oldRows: seq<Row>, people: seq<Name>, groupSize: int, formation: Formation,
                                   fridays: seq<Date>, carry: Option<seq<Name>>, weeks: seq<Week>, month: string)
    requires Distinct(people) && people != [] && groupSize > 0 && fridays != []
    requires IsGeneratedMonth(people, groupSize, fridays, carry, weeks)
    ensures Query(WithoutMonth(oldRows, month, Some(formation)) + RowsOf(month, groupSize, formation, weeks), month, formation, groupSize)
      == RowsOf(month, groupSize, formation, weeks)
    ensures Reshape(RowsOf(month, groupSize, formation, weeks)) == weeks
    ensures StaleSpec(formation, RowsOf(month, groupSize, formation, weeks), |people|) == Ok(|people| > groupSize)
  {
    GeneratedNumbering(people, groupSize, fridays, carry, weeks);
    GeneratedWeeksNonEmpty(people, groupSize, fridays, carry, weeks);
    QueryAfterSave(oldRows, month, groupSize, formation, weeks);
    ReshapeSaved(month, groupSize, formation, weeks);
    SavedGenerationStaleIff(people, groupSize, formation, fridays, carry, weeks, month);
  }

  /** A week of the multiple formation as the "several groups per week"
      branch describes it: its groups, laid end to end, are a rearrangement
      of the roster. */
  predicate PartitionsRoster(people: seq<Name>, groups: seq<Group>) {
    multiset(Concat(groups)) == multiset(people)
  }

  /** When week 1 partitions the roster, the staleness check does what it is
      for: the next request with the same roster reuses the stored month. */
  lemma PartitionedMonthReused(people: seq<Name>, groupSize: int, weeks: seq<Week>, month: string)
    requires Distinct(people) && weeks != []
    requires forall i :: 0 <= i < |weeks| ==> weeks[i].weekNumber == i + 1
    requires PartitionsRoster(people, weeks[0].groups)
    ensures StaleSpec(Multiple, RowsOf(month, groupSize, Multiple, weeks), |people|) == Ok(false)
  {
    WeekOneNamesSaved(month, groupSize, Multiple, weeks);
    var ns := Concat(weeks[0].groups);
    assert Elems(ns) == Elems(people) by {
      forall x ensures x in ns <==> x in people {
        assert x in ns <==> x in multiset(ns);
        assert x in people <==> x in multiset(people);
      }
    }
    DistinctCard(people);
  }

  // ---------------------------------------------------------------------
  // The request (api-db.php:91-235)

  /** How a `groups` request fails: the month parameter does not match the
      pattern; building a DateTime for the month throws (months 13-99);
      or PHP stops with an uncaught error (`count` or `array_merge`
      on a failed decode, `modify` on the `false` that `createFromFormat`
      returns for a key with a trailing newline). */
  datatype ActionError = BadMonthFormat | RequestFailed | Fatal

  /** The table after the staleness check: the month's rows of this
      formation are deleted when stored rows were found stale. */
  function AfterCheck(rows: seq<Row>, month: string, formation: Formation, size: int, total: int): seq<Row> {
    var saved := Query(rows, month, formation, size);
    if saved != [] && StaleSpec(formation, saved, total) == Ok(true) then WithoutMonth(rows, month, Some(formation)) else rows
  }

  /** The generation branch: the Fridays of the month, the previous
      month's last group, a generated month, stored. */
  method Regenerate(db: Database, formation: Formation, groupSize: int, month: string)
    returns (r: Result<seq<Week>, ActionError>)
    requires db.Valid() && MatchesMonthPattern(month)
    modifies db
    ensures db.Valid() && db.people == old(db.people)
    ensures !(0 <= KeyMonth(month[..7]) <= 12) ==> r == Err(RequestFailed) && db.rows == old(db.rows)
    ensures 0 <= KeyMonth(month[..7]) <= 12 && !IsMonthKey(month) ==> r == Err(Fatal) && db.rows == old(db.rows)
    ensures IsMonthKey(month) && 0 <= KeyMonth(month) <= 12 ==>
      r.Ok? &&
      IsGeneratedMonth(Roster(old(db.people)), groupSize, RequestedFridays(KeyYear(month), KeyMonth(month)), PreviousGroup(old(db.rows), month, groupSize), r.value) &&
      db.rows == WithoutMonth(old(db.rows), month, Some(formation)) + RowsOf(month, groupSize, formation, r.value)
  {
    var key := month[..7];
    assert IsMonthKey(month) ==> key == month;
    var fridays := GetFridays(KeyYear(key), KeyMonth(key));
    if fridays.None? {
      return Err(RequestFailed);
    }
    assert 0 <= KeyMonth(key) <= 12 && fridays.value == RequestedFridays(KeyYear(key), KeyMonth(key));
    var people := db.GetPessoas();
    var last := db.GetUltimoGrupoDoMesAnterior(month, groupSize);
    if last.Err? {
      return Err(Fatal);
    }
    assert key == month;
    ghost var rows0 := db.rows;
    var weeks := GenerateWeeks(people, groupSize, formation, fridays.value, last.value);
    assert IsGeneratedMonth(people, groupSize, RequestedFridays(KeyYear(month), KeyMonth(month)), PreviousGroup(rows0, month, groupSize), weeks);
    db.SalvarGrupos(month, groupSize, weeks, formation);
    r := Ok(weeks);
  }

  /** The outcome of a `groups` request whose month passed the pattern,
      from the table and roster before it (`rows0`, `people0`) to the table
      after it (`rows1`). */
  predicate GroupsOutcome(rows0: seq<Row>, people0: seq<Person>, rows1: seq<Row>, formation: Formation, k: int, month: string,
                          r: Result<seq<Week>, ActionError>)
    requires MatchesMonthPattern(month)
  {
    var saved := Query(rows0, month, formation, k);
    var total := |Roster(people0)|;
    var regenerate := saved == [] || StaleSpec(formation, saved, total) == Ok(true);
    (saved != [] && StaleSpec(formation, saved, total).Err? ==> r == Err(Fatal) && rows1 == rows0) &&
    (saved != [] && StaleSpec(formation, saved, total) == Ok(false) ==> r == Ok(Reshape(saved)) && rows1 == rows0) &&
    (regenerate && !(0 <= KeyMonth(month[..7]) <= 12) ==>
      r == Err(RequestFailed) && rows1 == AfterCheck(rows0, month, formation, k, total)) &&
    (regenerate && 0 <= KeyMonth(month[..7]) <= 12 && !IsMonthKey(month) ==>
      r == Err(Fatal) && rows1 == AfterCheck(rows0, month, formation, k, total)) &&
    (regenerate && IsMonthKey(month) && 0 <= KeyMonth(month) <= 12 ==>
      r.Ok? &&
      IsGeneratedMonth(Roster(people0), k, RequestedFridays(KeyYear(month), KeyMonth(month)), PreviousGroup(rows0, month, k), r.value) &&
      rows1 == WithoutMonth(rows0, month, Some(formation)) + RowsOf(month, k, formation, r.value))
  }

  /** The `groups` action: `month` is the raw parameter, `sizeParam` the
      `intval` of the size parameter when present. */
  method HandleGroups(db: Database, formationParam: string, sizeParam: Option<int>, month: string)
    returns (r: Result<seq<Week>, ActionError>)
    requires db.Valid()
    modifies db
    ensures db.Valid() && db.people == old(db.people)
    ensures !MatchesMonthPattern(month) ==> r == Err(BadMonthFormat) && db.rows == old(db.rows)
    ensures MatchesMonthPattern(month) ==>
      GroupsOutcome(old(db.rows), old(db.people), db.rows, ParseFormation(formationParam), ClampGroupSize(sizeParam), month, r)
  {
    var formation := ParseFormation(formationParam);
    var groupSize := ClampGroupSize(sizeParam);
    if !MatchesMonthPattern(month) {
      return Err(BadMonthFormat);
    }
    ghost var rows0 := db.rows;
    var people := db.GetPessoas();
    var total := |people|;
    var saved := db.GetGruposPorMesComFormacao(month, formation, groupSize);
    if saved != [] {
      var stale := CheckStale(formation, saved, total);
      if stale.Err? {
        return Err(Fatal);
      }
      if !stale.value {
        var weekGroups := ReshapeRows(saved);
        return Ok(weekGroups);
      }
      db.LimparGruposMes(month, Some(formation));
    }
    assert db.rows == AfterCheck(rows0, month, formation, groupSize, total);
    ghost var cleared := db.rows;
    r := Regenerate(db, formation, groupSize, month);
    WithoutMonthTwice(rows0, month, Some(formation));
    if IsMonthKey(month) {
      PreviousGroupUnaffected(rows0, month, Some(formation), groupSize);
    }
  }
}
