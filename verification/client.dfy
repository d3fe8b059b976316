/** The calendar and numbering logic of the browser client (script.js):
    the Fridays shown for a month, stepping the selected month, when the
    generate button is enabled, and the numbering of the displayed groups. */
module Client {
  import opened Common
  import opened Calendar
  import opened Grouping
  import opened GroupsAction
  import opened Storage

  // ---------------------------------------------------------------------
  // Fridays of a month (script.js:126-138)

  /** `new Date(year, ...)` reads a year from 0 to 99 as 1900 + year. */
  function JsYear(year: int): (y: int)
    ensures 0 <= year <= 99 ==> y == 1900 + year
    ensures !(0 <= year <= 99) ==> y == year
  {
    if 0 <= year <= 99 then 1900 + year else year
  }

  /** `getFridaysInMonth`: walks a date from the first of the month, one day
      at a time, while it stays in the month, keeping the Fridays (`getDay()`
      numbers Friday 5 like ISO 8601).  A month outside 1..12 makes the
      first date fall in another month, so the walk does not start. */
  method GetFridaysInMonth(year: int, month: int) returns (fridays: seq<Date>)
    ensures 1 <= month <= 12 ==> fridays == Fridays(JsYear(year), month)
    ensures !(1 <= month <= 12) ==> fridays == []
  {
    fridays := [];
    if !(1 <= month <= 12) {
      return;
    }
    var y := JsYear(year);
    var date := Date(y, month, 1);
    while date.month == month
      invariant ValidDate(date)
      invariant date.month == month ==> date.year == y && fridays == FridaysUpTo(y, month, date.day - 1)
      invariant date.month != month ==> fridays == Fridays(y, month)
      decreases if date.month == month then DaysInMonth(y, month) - date.day + 1 else 0
    {
      WalkStep(y, month, date, fridays);
      if IsFriday(date) {
        fridays := fridays + [date];
      }
      date := NextDay(date);
    }
  }

  /** One day of the walk: the Fridays seen so far grow by this day when it
      is a Friday; leaving the month means every Friday has been seen. */
  lemma WalkStep(y: int, month: int, date: Date, fridays: seq<Date>)
    requires ValidDate(date) && date.year == y && date.month == month
    requires fridays == FridaysUpTo(y, month, date.day - 1)
    ensures var seen := fridays + (if IsFriday(date) then [date] else []);
      var next := NextDay(date);
      ValidDate(next) &&
      (next.month == month ==> next.year == y && next.day == date.day + 1 && seen == FridaysUpTo(y, month, next.day - 1)) &&
      (next.month != month ==> seen == Fridays(y, month))
  {
  }

  // ---------------------------------------------------------------------
  // Month navigation (script.js:352-359)

  /** `new Date(year, month - 1 + direction, 1)`: the month index overflows
      into the year with floor division. */
  function ChangeMonth(year: int, month: int, direction: int): (r: (int, int))
    ensures 1 <= r.1 <= 12
    ensures MonthIndex(r.0, r.1) == MonthIndex(JsYear(year), month) + direction
  {
    var total := month - 1 + direction;
    (JsYear(year) + total / 12, total % 12 + 1)
  }

  /** Stepping forward and back is the calendar's next and previous month;
      December rolls over to January of the next year and back. */
  lemma ChangeMonthSteps(year: int, month: int)
    requires 1 <= month <= 12 && !(0 <= year <= 99)
    ensures ChangeMonth(year, month, 1) == NextMonth(year, month)
    ensures ChangeMonth(year, month, -1) == PreviousMonth(year, month)
    ensures ChangeMonth(year, 12, 1) == (year + 1, 1)
    ensures ChangeMonth(year, 1, -1) == (year - 1, 12)
  {
    var n := ChangeMonth(year, month, 1);
    var p := ChangeMonth(year, month, -1);
    MonthIndexInjective(n.0, n.1, NextMonth(year, month).0, NextMonth(year, month).1);
    MonthIndexInjective(p.0, p.1, PreviousMonth(year, month).0, PreviousMonth(year, month).1);
  }

  /** Stepping back undoes a step, unless the step lands on a year that
      `Date` would read as 19xx. */
  lemma ChangeMonthRoundTrip(year: int, month: int, direction: int)
    requires 1 <= month <= 12 && !(0 <= year <= 99)
    requires !(0 <= ChangeMonth(year, month, direction).0 <= 99)
    ensures ChangeMonth(ChangeMonth(year, month, direction).0, ChangeMonth(year, month, direction).1, -direction) == (year, month)
  {
    var r := ChangeMonth(year, month, direction);
    var b := ChangeMonth(r.0, r.1, -direction);
    MonthIndexInjective(b.0, b.1, year, month);
  }

  /** Decimal text of a natural number, as JavaScript prints it. */
  function NatText(n: nat): (s: string)
    ensures |s| >= 1 && forall i :: 0 <= i < |s| ==> IsDigit(s[i])
  {
    if n < 10 then [Digit(n)] else NatText(n / 10) + [Digit(n % 10)]
  }

  /** `${year}`: a minus sign before a negative year. */
  function IntText(n: int): string {
    if n < 0 then "-" + NatText(-n) else NatText(n)
  }

  /** The month string `changeMonth` hands to `updateMonth`: the year
      unpadded, the month padded to two digits. */
  function ChangeMonthText(year: int, month: int, direction: int): (s: string)
    ensures |s| >= 4 && s[|s| - 3] == '-' && IsDigit(s[|s| - 2]) && IsDigit(s[|s| - 1])
  {
    var r := ChangeMonth(year, month, direction);
    IntText(r.0) + "-" + Pad2(r.1)
  }

  /** A four-digit year prints as its zero-padded form. */
  lemma NatTextFourDigits(y: int)
    requires 1000 <= y <= 9999
    ensures NatText(y) == Pad4(y)
  {
    var a, b, c := y / 10, y / 100, y / 1000;
    assert a / 10 == b && b / 10 == c;
    assert 1 <= c <= 9;
    assert NatText(b) == [Digit(c), Digit(b % 10)];
    assert b / 10 == c && y % 100 / 10 == a % 10 && y % 100 % 10 == y % 10;
  }

  /** For a four-digit year the client's month string is the server's month
      key: it passes the server's pattern and names the month stepped to. */
  lemma ChangeMonthTextIsKey(year: int, month: int, direction: int)
    requires 1000 <= ChangeMonth(year, month, direction).0 <= 9999
    ensures ChangeMonthText(year, month, direction) == FormatMonthKey(ChangeMonth(year, month, direction).0, ChangeMonth(year, month, direction).1)
    ensures MatchesMonthPattern(ChangeMonthText(year, month, direction))
    ensures KeyYear(ChangeMonthText(year, month, direction)) == ChangeMonth(year, month, direction).0
    ensures KeyMonth(ChangeMonthText(year, month, direction)) == ChangeMonth(year, month, direction).1
  {
    var r := ChangeMonth(year, month, direction);
    NatTextFourDigits(r.0);
    FormattedKeyAccepted(r.0, r.1);
  }

  /** Below year 1000 the text is shorter than a key and the server refuses
      it: stepping back from January 100 gives "99-12". */
  lemma ShortYearRefused()
    ensures ChangeMonthText(100, 1, -1) == "99-12"
    ensures !MatchesMonthPattern("99-12")
  {
    assert ChangeMonth(100, 1, -1) == (99, 12);
    assert NatText(99) == "99";
  }

  // ---------------------------------------------------------------------
  // The generate button (script.js:184-188, 361-374)

  /** JavaScript truthiness of `this.currentMonth`: set and non-empty. */
  predicate MonthSet(currentMonth: Option<string>) {
    currentMonth.Some? && currentMonth.value != ""
  }

  /** `checkCanGenerate`: a month, a non-empty roster, and the single
      formation or a non-zero group size. */
  predicate CanGenerate(currentMonth: Option<string>, peopleCount: int, formation: string, selectedSize: int): (enabled: bool)
    ensures enabled ==> peopleCount > 0 && !GenerateRefused(currentMonth, formation, selectedSize)
    ensures formation == "single" || formation == "multiple" ==>
      (enabled <==> peopleCount > 0 && !GenerateRefused(currentMonth, formation, selectedSize))
  {
    MonthSet(currentMonth) && peopleCount > 0 && (formation == "single" || selectedSize != 0)
  }

  /** The guard at the top of `generateGroups`. */
  predicate GenerateRefused(currentMonth: Option<string>, formation: string, selectedSize: int): (refused: bool)
    ensures !refused ==> currentMonth.Some? && RequestedSize(formation, selectedSize) != Some(0)
    ensures currentMonth.None? ==> refused
  {
    !MonthSet(currentMonth) || (formation == "multiple" && selectedSize == 0)
  }

  /** The group size the request carries: only the multiple formation
      sends one. */
  function RequestedSize(formation: string, selectedSize: int): (r: Option<int>)
    ensures r.Some? <==> formation == "multiple"
    ensures r.Some? ==> r.value == selectedSize
  {
    if formation == "multiple" then Some(selectedSize) else None
  }

  /** An enabled button always gets past the guard of `generateGroups`; the
      guard alone also lets an empty roster through. */
  lemma EnabledButtonPassesGuard(currentMonth: Option<string>, peopleCount: int, formation: string, selectedSize: int)
    ensures CanGenerate(currentMonth, peopleCount, formation, selectedSize) ==> !GenerateRefused(currentMonth, formation, selectedSize)
    ensures !GenerateRefused(Some("2026-05"), "single", 0) && !CanGenerate(Some("2026-05"), 0, "single", 0)
  {
  }

  /** What the server makes of the size the client sends: the single
      formation falls back to 2, a size button from 2 to 15 is kept. */
  lemma RequestedSizeOnServer(formation: string, selectedSize: int)
    ensures formation != "multiple" ==> ClampGroupSize(RequestedSize(formation, selectedSize)) == 2
    ensures formation == "multiple" && 2 <= selectedSize <= 15 ==> ClampGroupSize(RequestedSize(formation, selectedSize)) == selectedSize
    ensures ParseFormation(formation) == Multiple <==> formation != "single"
  {
  }

  // ---------------------------------------------------------------------
  // Group titles (script.js:390-441)

  /** The number of groups in the given weeks. */
  function TotalGroups(weeks: seq<Week>): nat {
    if weeks == [] then 0 else TotalGroups(weeks[..|weeks| - 1]) + |weeks[|weeks| - 1].groups|
  }

  /** Title numbers per week and group: one counter across all weeks. */
  function Numbering(weeks: seq<Week>): (r: seq<seq<int>>)
    ensures |r| == |weeks|
  {
    if weeks == [] then []
    else
      var init := weeks[..|weeks| - 1];
      Numbering(init) + [seq(|weeks[|weeks| - 1].groups|, j => TotalGroups(init) + j + 1)]
  }

  function Flatten<T>(ss: seq<seq<T>>): seq<T> {
    if ss == [] then [] else Flatten(ss[..|ss| - 1]) + ss[|ss| - 1]
  }

  /** The title counter of `displayGroups`, a loop over weeks and groups. */
  method DisplayGroups(weeks: seq<Week>) returns (titles: seq<seq<int>>)
    ensures titles == Numbering(weeks)
  {
    titles := [];
    if weeks == [] {
      return;
    }
    var counter := 1;
    for i := 0 to |weeks|
      invariant titles == Numbering(weeks[..i])
      invariant counter == TotalGroups(weeks[..i]) + 1
    {
      var row: seq<int> := [];
      for j := 0 to |weeks[i].groups|
        invariant row == seq(j, k => TotalGroups(weeks[..i]) + k + 1)
        invariant counter == TotalGroups(weeks[..i]) + j + 1
      {
        row := row + [counter];
        counter := counter + 1;
      }
      assert weeks[..i + 1][..i] == weeks[..i];
      titles := titles + [row];
    }
    assert weeks[..|weeks|] == weeks;
  }

  /** Group `j` of week `i` is titled with the number of groups before it
      plus one. */
  lemma {:induction false} NumberingPositions(weeks: seq<Week>)
    ensures forall i :: 0 <= i < |weeks| ==> |Numbering(weeks)[i]| == |weeks[i].groups|
    ensures forall i, j :: 0 <= i < |weeks| && 0 <= j < |weeks[i].groups| ==>
      Numbering(weeks)[i][j] == TotalGroups(weeks[..i]) + j + 1
  {
    if weeks != [] {
      var init := weeks[..|weeks| - 1];
      NumberingPositions(init);
      forall i | 0 <= i < |init| ensures weeks[..i] == init[..i] && weeks[i] == init[i] { }
    }
  }

  /** Read in display order, the titles are 1, 2, 3, … up to the number of
      groups: consecutive across weeks, never restarting. */
  lemma {:induction false} NumberingConsecutive(weeks: seq<Week>)
    ensures Flatten(Numbering(weeks)) == seq(TotalGroups(weeks), k => k + 1)
  {
    if weeks != [] {
      var init := weeks[..|weeks| - 1];
      var last := seq(|weeks[|weeks| - 1].groups|, j => TotalGroups(init) + j + 1);
      NumberingConsecutive(init);
      var ns := Numbering(init) + [last];
      assert ns[..|ns| - 1] == Numbering(init);
      assert Flatten(ns) == Flatten(Numbering(init)) + last;
    }
  }
}
