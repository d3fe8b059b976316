/** The two tables of database.php, `pessoas` and `grupos_gerados`, held
    in memory by the `Database` class.  SQL statements become updates of
    the sequence fields; `ORDER BY` is the stable sort `SortBy`. */
module Storage {
  import opened Common
  import opened Calendar
  import opened Grouping

  /** A `pessoas` row. */
  datatype Person = Person(name: Name, active: bool)

  /** The `pessoas` TEXT column: the JSON list of names, or text that does not
      decode as one. */
  datatype Members = Decoded(names: seq<Name>) | Undecodable(raw: string)

  /** A `grupos_gerados` row: month key (`mes`), group size (`tamanho_grupo`),
      formation (`formacao`), week (`semana`), Friday (`data_sexta`), members
      (`pessoas`) and 1-based group number (`numero_grupo`). */
  datatype Row = Row(month: string, size: int, formation: Formation, week: int, date: Date, members: Members, groupNumber: int)

  datatype Formation = Single | Multiple

  datatype DbError = AlreadyExists | NotFound | UniqueViolation | NoGroupsForDate | InvalidGroupIndex

  /** The default roster inserted into an empty `pessoas` table (database.php:71-72). */
  const DefaultRoster: seq<Name> := ["Samuel", "Tavares", "Anderson Ramos", "Anderson Mazzuchello",
    "Diego", "Gustavo", "Iza", "Natali", "Bruno", "Alessandro", "Luquinha"]

  /** Names are unique in `pessoas` (the UNIQUE constraint on `nome`). */
  predicate UniqueNames(people: seq<Person>) {
    forall i, j :: 0 <= i < j < |people| ==> people[i].name != people[j].name
  }

  predicate HasActive(people: seq<Person>, name: Name) {
    exists i :: 0 <= i < |people| && people[i].name == name && people[i].active
  }

  predicate HasName(people: seq<Person>, name: Name) {
    exists i :: 0 <= i < |people| && people[i].name == name
  }

  /** Names of the active people, in table order. */
  function ActiveNames(people: seq<Person>): (r: seq<Name>)
    ensures forall n :: n in r <==> HasActive(people, n)
    ensures |r| <= |people|
  {
    if people == [] then []
    else
      var init := people[..|people| - 1];
      var p := people[|people| - 1];
      var rest := ActiveNames(init);
      assert forall n :: HasActive(people, n) <==> HasActive(init, n) || (p.name == n && p.active) by {
        forall n ensures HasActive(people, n) <==> HasActive(init, n) || (p.name == n && p.active) {
          if HasActive(people, n) {
            var i :| 0 <= i < |people| && people[i].name == n && people[i].active;
            if i < |init| { assert init[i] == people[i]; }
          }
          if HasActive(init, n) {
            var i :| 0 <= i < |init| && init[i].name == n && init[i].active;
            assert people[i] == init[i];
          }
        }
      }
      if p.active then rest + [p.name] else rest
  }

  /** `UPDATE pessoas SET ativo = 0 WHERE nome = ? AND ativo = 1`. */
  function Deactivate(people: seq<Person>, name: Name): (r: seq<Person>)
    ensures |r| == |people|
    ensures forall i :: 0 <= i < |r| ==> r[i].name == people[i].name
  {
    seq(|people|, i requires 0 <= i < |people| =>
      if people[i].name == name && people[i].active then people[i].(active := false) else people[i])
  }

  /** Soft removal takes exactly that name out of the active set and keeps
      its row, so the table stays as long and the names stay unique. */
  lemma DeactivateSpec(people: seq<Person>, name: Name)
    requires UniqueNames(people)
    ensures UniqueNames(Deactivate(people, name))
    ensures forall n :: HasActive(Deactivate(people, name), n) <==> HasActive(people, n) && n != name
    ensures forall n :: HasName(Deactivate(people, name), n) <==> HasName(people, n)
  {
    var r := Deactivate(people, name);
    forall n ensures HasActive(r, n) <==> HasActive(people, n) && n != name {
      if HasActive(r, n) {
        var i :| 0 <= i < |r| && r[i].name == n && r[i].active;
        assert people[i].name == n && people[i].active;
      }
      if HasActive(people, n) && n != name {
        var i :| 0 <= i < |people| && people[i].name == n && people[i].active;
        assert r[i] == people[i];
      }
    }
    forall n ensures HasName(r, n) <==> HasName(people, n) {
      if HasName(r, n) {
        var i :| 0 <= i < |r| && r[i].name == n;
        assert people[i].name == n;
      }
      if HasName(people, n) {
        var i :| 0 <= i < |people| && people[i].name == n;
        assert r[i].name == n;
      }
    }
  }

  /** A removed name stays in the table as an inactive row, so adding it
      again runs into the UNIQUE constraint rather than reactivating it. */
  lemma RemovedNameBlocksReadd(people: seq<Person>, name: Name)
    requires UniqueNames(people) && HasActive(people, name)
    ensures !HasActive(Deactivate(people, name), name) && HasName(Deactivate(people, name), name)
  {
    DeactivateSpec(people, name);
    var i :| 0 <= i < |people| && people[i].name == name && people[i].active;
    assert HasName(people, name);
  }

  /** The roster `getPessoas` returns: the active names ordered by name. */
  function Roster(people: seq<Person>): seq<Name> {
    SortBy(ActiveNames(people), NameKey)
  }

  /** The roster holds each active name once, in name order, and nothing else. */
  lemma RosterSpec(people: seq<Person>)
    requires UniqueNames(people)
    ensures SortedBy(Roster(people), NameKey)
    ensures Distinct(Roster(people))
    ensures forall n :: n in Roster(people) <==> HasActive(people, n)
  {
    var names := Roster(people);
    SortBySorted(ActiveNames(people), NameKey);
    SortByPermutation(ActiveNames(people), NameKey);
    ActiveNamesDistinct(people);
    DistinctSubMultiset(names, ActiveNames(people));
    forall n ensures n in names <==> n in ActiveNames(people) {
      assert n in names <==> multiset(names)[n] > 0;
    }
  }

  /** Code-point order on names, the stand-in for the table's collation. */
  function NameKey(n: Name): seq<int> {
    seq(|n|, i requires 0 <= i < |n| => n[i] as int)
  }

  /** `ORDER BY semana, numero_grupo`. */
  function WeekOrder(r: Row): seq<int> { [r.week, r.groupNumber] }

  /** `ORDER BY numero_grupo`. */
  function GroupOrder(r: Row): seq<int> { [r.groupNumber] }

  /** `ORDER BY data_sexta`. */
  function DateKey(d: Date): seq<int> { [d.year, d.month, d.day] }

  /** The rows `DELETE ... WHERE mes = ? [AND formacao = ?]` removes. */
  predicate InMonth(r: Row, month: string, formation: Option<Formation>) {
    r.month == month && (formation.None? || r.formation == formation.value)
  }

  /** The table after `DELETE ... WHERE mes = ? [AND formacao = ?]`: the
      other rows, in their order. */
  function WithoutMonth(rows: seq<Row>, month: string, formation: Option<Formation>): seq<Row> {
    if rows == [] then []
    else
      var x := rows[|rows| - 1];
      WithoutMonth(rows[..|rows| - 1], month, formation) + (if InMonth(x, month, formation) then [] else [x])
  }

  /** The deletion keeps exactly the rows outside the month (and formation),
      each as often as before. */
  lemma {:induction false} WithoutMonthSpec(rows: seq<Row>, month: string, formation: Option<Formation>)
    ensures forall x :: x in WithoutMonth(rows, month, formation) <==> x in rows && !InMonth(x, month, formation)
    ensures forall x :: multiset(WithoutMonth(rows, month, formation))[x] == if InMonth(x, month, formation) then 0 else multiset(rows)[x]
  {
    if rows != [] {
      var init := rows[..|rows| - 1];
      WithoutMonthSpec(init, month, formation);
      assert rows == init + [rows[|rows| - 1]];
    }
  }

  /** The rows of `getGruposPorMesComFormacao`: month and formation, and for a
      formation other than single also the size. */
  predicate Selected(r: Row, month: string, formation: Formation, size: int) {
    r.month == month && r.formation == formation && (formation == Single || r.size == size)
  }

  /** The rows `salvarGrupos` inserts for one week: one per group, numbered from 1. */
  function WeekRows(month: string, size: int, formation: Formation, w: Week): (r: seq<Row>)
    ensures |r| == |w.groups|
  {
    seq(|w.groups|, j requires 0 <= j < |w.groups| =>
      Row(month, size, formation, w.weekNumber, w.date, Decoded(w.groups[j]), j + 1))
  }

  /** All rows `salvarGrupos` inserts, week by week. */
  function RowsOf(month: string, size: int, formation: Formation, weeks: seq<Week>): seq<Row> {
    if weeks == [] then []
    else RowsOf(month, size, formation, weeks[..|weeks| - 1]) + WeekRows(month, size, formation, weeks[|weeks| - 1])
  }

  /** Adds the rows of one week after the rows of the weeks before it. */
  lemma RowsOfSnoc(month: string, size: int, formation: Formation, weeks: seq<Week>, w: Week)
    ensures RowsOf(month, size, formation, weeks + [w]) == RowsOf(month, size, formation, weeks) + WeekRows(month, size, formation, w)
  {
    assert (weeks + [w])[..|weeks + [w]| - 1] == weeks;
  }

  /** The rows of the first w + 1 weeks extend those of the first w weeks. */
  lemma RowsOfStep(month: string, size: int, formation: Formation, weeks: seq<Week>, w: int)
    requires 0 <= w < |weeks|
    ensures RowsOf(month, size, formation, weeks[..w + 1]) == RowsOf(month, size, formation, weeks[..w]) + WeekRows(month, size, formation, weeks[w])
  {
    assert weeks[..w + 1][..w] == weeks[..w];
  }

  class Database {
    /** The `pessoas` table, in insertion order. */
    var people: seq<Person>
    /** The `grupos_gerados` table, in insertion order; a row's position stands
        for its AUTO_INCREMENT id. */
    var rows: seq<Row>

    ghost predicate Valid()
      reads this
    {
      UniqueNames(people)
    }

    /** A fresh database: the default roster, all active, and no groups
        (database.php:68-80). */
    constructor ()
      ensures Valid()
      ensures people == seq(|DefaultRoster|, i requires 0 <= i < |DefaultRoster| => Person(DefaultRoster[i], true))
      ensures rows == []
    {
      people := seq(|DefaultRoster|, i requires 0 <= i < |DefaultRoster| => Person(DefaultRoster[i], true));
      rows := [];
    }

    /** `getPessoas` (database.php:86-97): the active names sorted by name. */
    method GetPessoas() returns (names: seq<Name>)
      requires Valid()
      ensures names == Roster(people)
      ensures SortedBy(names, NameKey)
      ensures Distinct(names)
      ensures forall n :: n in names <==> HasActive(people, n)
    {
      names := SortBy(ActiveNames(people), NameKey);
      RosterSpec(people);
    }

    /** `limparTodosGrupos` (database.php:155-159). */
    method LimparTodosGrupos()
      modifies this
      ensures people == old(people) && rows == []
    {
      rows := [];
    }

    /** `adicionarPessoa` (database.php:99-125). */
    method AdicionarPessoa(name: Name) returns (r: Result<(), DbError>)
      requires Valid()
      modifies this
      ensures Valid()
      ensures HasActive(old(people), name) ==>
        r == Err(AlreadyExists) && people == old(people) && rows == old(rows)
      ensures !HasActive(old(people), name) && HasName(old(people), name) ==>
        r == Err(UniqueViolation) && people == old(people) && rows == old(rows)
      ensures !HasName(old(people), name) ==>
        r == Ok(()) && people == old(people) + [Person(name, true)] && rows == []
    {
      if HasActive(people, name) {
        return Err(AlreadyExists);
      }
      if HasName(people, name) {
        // the INSERT violates UNIQUE(nome) before the groups are cleared
        return Err(UniqueViolation);
      }
      people := people + [Person(name, true)];
      LimparTodosGrupos();
      r := Ok(());
    }

    /** `removerPessoa` (database.php:127-153): a soft delete. */
    method RemoverPessoa(name: Name) returns (r: Result<(), DbError>)
      requires Valid()
      modifies this
      ensures Valid()
      ensures !HasActive(old(people), name) ==>
        r == Err(NotFound) && people == old(people) && rows == old(rows)
      ensures HasActive(old(people), name) ==>
        r == Ok(()) && people == Deactivate(old(people), name) && rows == []
    {
      if !HasActive(people, name) {
        return Err(NotFound);
      }
      people := Deactivate(people, name);
      LimparTodosGrupos();
      r := Ok(());
    }

    /** `getUltimoGrupoDoMesAnterior` (database.php:162-181): the members of
        the row of the previous month and this size with the greatest
        (week, group number), whatever its formation; None when there is no
        such row or its members do not decode.  The key has passed the
        `groups` action's pattern check; one that is not exactly `YYYY-MM`
        (a trailing newline passes that check) makes
        `DateTime::createFromFormat` fail and the call on its result end the
        request with an Error, modelled as Err.  Every other key parses,
        a month number outside 1..12 overflowing into the neighbouring
        years (`2024-00` is December 2023, `2024-13` January 2025).  The
        previous month is the month before that one: the source's
        dependence on today's day of the month is modelled separately by
        `PreviousMonthAsWritten`. */
    method GetUltimoGrupoDoMesAnterior(month: string, size: int) returns (r: Result<Option<seq<Name>>, ()>)
      ensures r.Err? <==> !IsMonthKey(month)
      ensures IsMonthKey(month) ==> r == Ok(PreviousGroup(rows, month, size))
    {
      if !IsMonthKey(month) {
        return Err(());
      }
      var p := PreviousMonth(KeyYear(month), KeyMonth(month));
      if !(0 <= p.0 <= 9999) {
        return Ok(None);
      }
      r := Ok(LastGroupOf(rows, FormatMonthKey(p.0, p.1), size));
    }

    /** `getGruposPorMesComFormacao` (database.php:197-208). */
    method GetGruposPorMesComFormacao(month: string, formation: Formation, size: int) returns (result: seq<Row>)
      ensures result == Query(rows, month, formation, size)
    {
      result := Query(rows, month, formation, size);
    }

    /** `limparGruposMes` (database.php:233-243): deletes the month's rows,
        of one formation when one is given. */
    method LimparGruposMes(month: string, formation: Option<Formation>)
      modifies this
      ensures people == old(people)
      ensures rows == WithoutMonth(old(rows), month, formation)
    {
      rows := WithoutMonth(rows, month, formation);
    }

    /** `salvarGrupos` (database.php:210-231): deletes the month's rows of this
        formation, whatever their size, then inserts one row per group. */
    method SalvarGrupos(month: string, size: int, weeks: seq<Week>, formation: Formation)
      modifies this
      ensures people == old(people)
      ensures rows == WithoutMonth(old(rows), month, Some(formation)) + RowsOf(month, size, formation, weeks)
    {
      LimparGruposMes(month, Some(formation));
      ghost var kept := rows;
      for w := 0 to |weeks|
        invariant people == old(people)
        invariant rows == kept + RowsOf(month, size, formation, weeks[..w])
      {
        ghost var before := rows;
        InsertWeek(month, size, formation, weeks[w]);
        RowsOfStep(month, size, formation, weeks, w);
        assert rows == kept + (RowsOf(month, size, formation, weeks[..w]) + WeekRows(month, size, formation, weeks[w])) by {
          assert rows == before + WeekRows(month, size, formation, weeks[w]);
        }
      }
      assert weeks[..|weeks|] == weeks;
    }

    /** The inner loop of `salvarGrupos`: one INSERT per group of a week. */
    method InsertWeek(month: string, size: int, formation: Formation, weekData: Week)
      modifies this
      ensures people == old(people)
      ensures rows == old(rows) + WeekRows(month, size, formation, weekData)
    {
      for g := 0 to |weekData.groups|
        invariant people == old(people)
        invariant rows == old(rows) + WeekRows(month, size, formation, weekData)[..g]
      {
        rows := rows + [Row(month, size, formation, weekData.weekNumber, weekData.date, Decoded(weekData.groups[g]), g + 1)];
      }
    }

    /** `updateGrupoEspecifico` (database.php:255-283): the rows of that date,
        all months and formations together, ordered by group number; the
        `groupIndex`-th of them gets the new members. */
    method UpdateGrupoEspecifico(date: Date, groupIndex: int, members: seq<Name>) returns (r: Result<(), DbError>)
      modifies this
      ensures people == old(people)
      ensures r == Err(NoGroupsForDate) <==> forall i :: 0 <= i < |old(rows)| ==> old(rows)[i].date != date
      ensures DatePositions(old(rows), date) == [] ==> r == Err(NoGroupsForDate) && rows == old(rows)
      ensures DatePositions(old(rows), date) != [] && !(0 <= groupIndex < |DatePositions(old(rows), date)|) ==>
        r == Err(InvalidGroupIndex) && rows == old(rows)
      ensures 0 <= groupIndex < |DatePositions(old(rows), date)| ==>
        (var p := DatePositions(old(rows), date)[groupIndex];
         r == Ok(()) && 0 <= p < |old(rows)| && old(rows)[p].date == date &&
         rows == old(rows)[p := old(rows)[p].(members := Decoded(members))])
    {
      var positions := DatePositions(rows, date);
      DatePositionsSpec(rows, date);
      assert |positions| > 0 ==> rows[positions[0]].date == date;
      if |positions| == 0 {
        return Err(NoGroupsForDate);
      }
      if groupIndex < 0 || groupIndex >= |positions| {
        return Err(InvalidGroupIndex);
      }
      var p := positions[groupIndex];
      rows := rows[p := rows[p].(members := Decoded(members))];
      r := Ok(());
    }

    /** `getDatasDisponiveisDoMes` (database.php:285-294): the distinct dates
        (`data_sexta`) stored for the month, ascending. */
    method GetDatasDisponiveisDoMes(month: string) returns (dates: seq<Date>)
      ensures forall i, j :: 0 <= i < j < |dates| ==> LexLess(DateKey(dates[i]), DateKey(dates[j]))
      ensures forall d :: d in dates <==> exists r :: r in rows && r.month == month && r.date == d
    {
      dates := DistinctDates(SortBy(MonthDates(rows, month), DateKey));
      SortBySorted(MonthDates(rows, month), DateKey);
      SortByPermutation(MonthDates(rows, month), DateKey);
      DistinctDatesSpec(SortBy(MonthDates(rows, month), DateKey));
      forall d ensures d in SortBy(MonthDates(rows, month), DateKey) <==> d in MonthDates(rows, month) {
        assert d in SortBy(MonthDates(rows, month), DateKey) <==> multiset(SortBy(MonthDates(rows, month), DateKey))[d] > 0;
      }
    }
  }

  /** Active names are distinct when the table's names are. */
  lemma {:induction false} ActiveNamesDistinct(people: seq<Person>)
    requires UniqueNames(people)
    ensures Distinct(ActiveNames(people))
  {
    if people != [] {
      var init := people[..|people| - 1];
      var p := people[|people| - 1];
      assert UniqueNames(init) by {
        forall i, j | 0 <= i < j < |init| ensures init[i].name != init[j].name { assert init[i] == people[i] && init[j] == people[j]; }
      }
      ActiveNamesDistinct(init);
      var rest := ActiveNames(init);
      if p.active {
        forall n | HasActive(init, n) ensures n != p.name {
          var i :| 0 <= i < |init| && init[i].name == n && init[i].active;
          assert people[i] == init[i];
        }
        var r := rest + [p.name];
        assert ActiveNames(people) == r;
        forall i, j | 0 <= i < j < |r| ensures r[i] != r[j] {
          if j == |rest| {
            assert r[i] == rest[i] && rest[i] in rest;
          } else {
            assert r[i] == rest[i] && r[j] == rest[j];
          }
        }
      } else {
        assert ActiveNames(people) == rest;
      }
    }
  }

  /** The rows `getGruposPorMesComFormacao` selects, in table order. */
  function SelectedRows(rows: seq<Row>, month: string, formation: Formation, size: int): seq<Row> {
    if rows == [] then []
    else
      SelectedRows(rows[..|rows| - 1], month, formation, size)
      + (if Selected(rows[|rows| - 1], month, formation, size) then [rows[|rows| - 1]] else [])
  }

  /** Each selected row occurs as often as in the table, the others not at all. */
  lemma {:induction false} SelectedRowsCount(rows: seq<Row>, month: string, formation: Formation, size: int)
    ensures forall x :: multiset(SelectedRows(rows, month, formation, size))[x] == if Selected(x, month, formation, size) then multiset(rows)[x] else 0
  {
    if rows != [] {
      var init := rows[..|rows| - 1];
      assert rows == init + [rows[|rows| - 1]];
      SelectedRowsCount(init, month, formation, size);
    }
  }

  /** The selected rows in (week, group number) order. */
  function Query(rows: seq<Row>, month: string, formation: Formation, size: int): (r: seq<Row>)
    ensures forall x :: multiset(r)[x] == if Selected(x, month, formation, size) then multiset(rows)[x] else 0
    ensures SortedBy(r, WeekOrder)
  {
    SelectedRowsCount(rows, month, formation, size);
    SortBySorted(SelectedRows(rows, month, formation, size), WeekOrder);
    SortByPermutation(SelectedRows(rows, month, formation, size), WeekOrder);
    SortBy(SelectedRows(rows, month, formation, size), WeekOrder)
  }

  lemma {:induction false} SelectedRowsAll(rows: seq<Row>, month: string, formation: Formation, size: int)
    requires forall x :: x in rows ==> Selected(x, month, formation, size)
    ensures SelectedRows(rows, month, formation, size) == rows
  {
    if rows != [] {
      var init := rows[..|rows| - 1];
      assert rows == init + [rows[|rows| - 1]];
      SelectedRowsAll(init, month, formation, size);
    }
  }

  /** Every row `salvarGrupos` inserts carries its month, size and formation,
      and a week number below any bound on the weeks'. */
  lemma {:induction false} RowsOfFields(month: string, size: int, formation: Formation, weeks: seq<Week>, bound: int)
    requires forall i :: 0 <= i < |weeks| ==> weeks[i].weekNumber < bound
    ensures forall x :: x in RowsOf(month, size, formation, weeks) ==>
      x.month == month && x.size == size && x.formation == formation && x.week < bound
  {
    if weeks != [] {
      RowsOfFields(month, size, formation, weeks[..|weeks| - 1], bound);
    }
  }

  /** Weeks in strictly increasing week order are saved in (week, group number) order. */
  lemma {:induction false} RowsOfSorted(month: string, size: int, formation: Formation, weeks: seq<Week>)
    requires forall i, j :: 0 <= i < j < |weeks| ==> weeks[i].weekNumber < weeks[j].weekNumber
    ensures SortedBy(RowsOf(month, size, formation, weeks), WeekOrder)
  {
    if weeks != [] {
      var init := weeks[..|weeks| - 1];
      var w := weeks[|weeks| - 1];
      RowsOfSorted(month, size, formation, init);
      RowsOfFields(month, size, formation, init, w.weekNumber);
      var a := RowsOf(month, size, formation, init);
      var b := WeekRows(month, size, formation, w);
      var r := a + b;
      forall i, j | 0 <= i < j < |r| ensures !LexLess(WeekOrder(r[j]), WeekOrder(r[i])) {
        if j < |a| {
          assert r[i] == a[i] && r[j] == a[j];
        } else if i < |a| {
          assert r[i] in a;
          assert r[j].week == w.weekNumber;
        } else {
          assert r[i] == b[i - |a|] && r[j] == b[j - |a|];
        }
      }
    }
  }

  /** Querying right after `salvarGrupos` gives back exactly the rows it
      inserted, in insertion order, when the weeks are in increasing week
      order. */
  lemma QueryAfterSave(old_rows: seq<Row>, month: string, size: int, formation: Formation, weeks: seq<Week>)
    requires forall i, j :: 0 <= i < j < |weeks| ==> weeks[i].weekNumber < weeks[j].weekNumber
    ensures Query(WithoutMonth(old_rows, month, Some(formation)) + RowsOf(month, size, formation, weeks), month, formation, size)
      == RowsOf(month, size, formation, weeks)
  {
    var kept := WithoutMonth(old_rows, month, Some(formation));
    var saved := RowsOf(month, size, formation, weeks);
    SavedRowsSelected(month, size, formation, weeks);
    SelectedRowsAll(saved, month, formation, size);
    SelectedRowsNone(old_rows, month, formation, size);
    SelectedRowsAfterSave(kept, saved, month, formation, size);
    RowsOfSorted(month, size, formation, weeks);
    SortByIdentity(saved, WeekOrder);
  }

  lemma SelectedRowsAfterSave(kept: seq<Row>, saved: seq<Row>, month: string, formation: Formation, size: int)
    requires SelectedRows(kept, month, formation, size) == []
    requires SelectedRows(saved, month, formation, size) == saved
    ensures SelectedRows(kept + saved, month, formation, size) == saved
  {
    SelectedRowsAppend(kept, saved, month, formation, size);
    assert [] + saved == saved;
  }

  lemma SavedRowsSelected(month: string, size: int, formation: Formation, weeks: seq<Week>)
    requires forall i, j :: 0 <= i < j < |weeks| ==> weeks[i].weekNumber < weeks[j].weekNumber
    ensures forall x :: x in RowsOf(month, size, formation, weeks) ==> Selected(x, month, formation, size)
  {
    var bound := if weeks == [] then 0 else weeks[|weeks| - 1].weekNumber + 1;
    forall i | 0 <= i < |weeks| ensures weeks[i].weekNumber < bound {
      if i < |weeks| - 1 { assert weeks[i].weekNumber < weeks[|weeks| - 1].weekNumber; }
    }
    RowsOfFields(month, size, formation, weeks, bound);
  }

  /** No row the month's deletion kept is selected again. */
  lemma {:induction false} SelectedRowsNone(rows: seq<Row>, month: string, formation: Formation, size: int)
    ensures SelectedRows(WithoutMonth(rows, month, Some(formation)), month, formation, size) == []
  {
    var kept := WithoutMonth(rows, month, Some(formation));
    WithoutMonthSpec(rows, month, Some(formation));
    SelectedRowsCount(kept, month, formation, size);
    assert multiset(SelectedRows(kept, month, formation, size)) == multiset{};
  }

  lemma {:induction false} SelectedRowsAppend(a: seq<Row>, b: seq<Row>, month: string, formation: Formation, size: int)
    ensures SelectedRows(a + b, month, formation, size) == SelectedRows(a, month, formation, size) + SelectedRows(b, month, formation, size)
    decreases |b|
  {
    if b == [] {
      assert a + b == a;
    } else {
      var b' := b[..|b| - 1];
      var x := b[|b| - 1];
      assert (a + b)[..|a + b| - 1] == a + b' && (a + b)[|a + b| - 1] == x;
      SelectedRowsAppend(a, b', month, formation, size);
    }
  }

  /** The positions 0..n-1 of a table of n rows. */
  function Positions(n: nat): seq<int> { seq(n, i => i) }

  /** `WHERE data_sexta = ?`, on table positions. */
  function OnDate(rows: seq<Row>, date: Date): int -> bool {
    i => 0 <= i < |rows| && rows[i].date == date
  }

  /** `ORDER BY numero_grupo`, on table positions. */
  function ByGroup(rows: seq<Row>): int -> seq<int> {
    i => if 0 <= i < |rows| then GroupOrder(rows[i]) else []
  }

  /** Table positions of the rows of a date, in group-number order (ties in
      table order). */
  function DatePositions(rows: seq<Row>, date: Date): (ps: seq<int>)
    ensures forall k :: 0 <= k < |ps| ==> 0 <= ps[k] < |rows| && rows[ps[k]].date == date
  {
    var all := Filter(Positions(|rows|), OnDate(rows, date));
    FilterSpec(Positions(|rows|), OnDate(rows, date));
    var sorted := SortBy(all, ByGroup(rows));
    SortByPermutation(all, ByGroup(rows));
    assert forall k :: 0 <= k < |sorted| ==> sorted[k] in multiset(all);
    sorted
  }

  /** Every row of the date has its position in `DatePositions`, exactly
      once, and the positions run in non-decreasing group number: the
      result of `SELECT id ... WHERE data_sexta = ? ORDER BY numero_grupo`. */
  lemma DatePositionsSpec(rows: seq<Row>, date: Date)
    ensures forall i :: 0 <= i < |rows| && rows[i].date == date ==> i in DatePositions(rows, date)
    ensures Distinct(DatePositions(rows, date))
    ensures forall j, k :: 0 <= j < k < |DatePositions(rows, date)| ==>
      rows[DatePositions(rows, date)[j]].groupNumber <= rows[DatePositions(rows, date)[k]].groupNumber
  {
    DatePositionsComplete(rows, date);
    DatePositionsDistinct(rows, date);
    DatePositionsOrdered(rows, date);
  }

  lemma DatePositionsComplete(rows: seq<Row>, date: Date)
    ensures forall i :: 0 <= i < |rows| && rows[i].date == date ==> i in DatePositions(rows, date)
  {
    var indices := Positions(|rows|);
    var all := Filter(indices, OnDate(rows, date));
    var ps := DatePositions(rows, date);
    assert ps == SortBy(all, ByGroup(rows));
    FilterSpec(indices, OnDate(rows, date));
    SortByPermutation(all, ByGroup(rows));
    forall i | 0 <= i < |rows| && rows[i].date == date
      ensures i in ps
    {
      assert indices[i] == i;
      assert i in all;
      assert i in multiset(ps);
    }
  }

  lemma DatePositionsDistinct(rows: seq<Row>, date: Date)
    ensures Distinct(DatePositions(rows, date))
  {
    var indices := Positions(|rows|);
    var all := Filter(indices, OnDate(rows, date));
    var ps := DatePositions(rows, date);
    assert ps == SortBy(all, ByGroup(rows));
    FilterSpec(indices, OnDate(rows, date));
    SortByPermutation(all, ByGroup(rows));
    assert Distinct(indices);
    assert multiset(all) <= multiset(indices);
    DistinctSubMultiset(ps, indices);
  }

  lemma DatePositionsOrdered(rows: seq<Row>, date: Date)
    ensures forall j, k :: 0 <= j < k < |DatePositions(rows, date)| ==>
      rows[DatePositions(rows, date)[j]].groupNumber <= rows[DatePositions(rows, date)[k]].groupNumber
  {
    var all := Filter(Positions(|rows|), OnDate(rows, date));
    var ps := DatePositions(rows, date);
    assert ps == SortBy(all, ByGroup(rows));
    SortBySorted(all, ByGroup(rows));
    forall j, k | 0 <= j < k < |ps|
      ensures rows[ps[j]].groupNumber <= rows[ps[k]].groupNumber
    {
      var a, b := rows[ps[j]].groupNumber, rows[ps[k]].groupNumber;
      assert ByGroup(rows)(ps[j]) == [a] && ByGroup(rows)(ps[k]) == [b];
      assert !LexLess([b], [a]);
    }
  }

  /** The row `ORDER BY semana DESC, numero_grupo DESC LIMIT 1` returns among
      the rows of that month and size: one with the greatest (week, group
      number), the last in table order among equals. */
  function LastRow(rows: seq<Row>, month: string, size: int): (r: Option<Row>)
    ensures r.None? <==> forall x :: x in rows ==> !(x.month == month && x.size == size)
    ensures r.Some? ==> r.value in rows && r.value.month == month && r.value.size == size
    ensures r.Some? ==> forall x :: x in rows && x.month == month && x.size == size ==> !LexLess(WeekOrder(r.value), WeekOrder(x))
  {
    if rows == [] then None
    else
      var init := rows[..|rows| - 1];
      var x := rows[|rows| - 1];
      assert rows == init + [x];
      var best := LastRow(init, month, size);
      if x.month == month && x.size == size && best.Some? then
        if !LexLess(WeekOrder(x), WeekOrder(best.value)) then
          assert forall y :: y in init && y.month == month && y.size == size ==> !LexLess(WeekOrder(x), WeekOrder(y)) by {
            forall y | y in init && y.month == month && y.size == size ensures !LexLess(WeekOrder(x), WeekOrder(y)) {
              LexNotLessTransitive(WeekOrder(y), WeekOrder(best.value), WeekOrder(x));
            }
          }
          LexIrreflexive(WeekOrder(x));
          Later(best, x, month, size)
        else
          LexAsym(WeekOrder(x), WeekOrder(best.value));
          Later(best, x, month, size)
      else
        LexIrreflexive(WeekOrder(x));
        Later(best, x, month, size)
  }

  /** One step of the scan: a matching row not below the best so far replaces it. */
  function Later(best: Option<Row>, x: Row, month: string, size: int): Option<Row> {
    if x.month == month && x.size == size && (best.None? || !LexLess(WeekOrder(x), WeekOrder(best.value))) then Some(x) else best
  }

  /** The previous month's last group of this size, or None.  Before
      January of year 0, or past December 9999, the previous month has no
      four-digit `YYYY-MM` key, and every saved month passed the four-digit
      pattern, so there is no row. */
  function PreviousGroup(rows: seq<Row>, month: string, size: int): (g: Option<seq<Name>>)
    requires IsMonthKey(month)
    ensures g.Some? ==> exists x :: x in rows && x.size == size && x.members == Decoded(g.value) && MonthBefore(x.month, month)
  {
    var p := PreviousMonth(KeyYear(month), KeyMonth(month));
    if !(0 <= p.0 <= 9999) then None
    else
      var key := FormatMonthKey(p.0, p.1);
      MonthKeyRoundTrip(p.0, p.1);
      assert MonthBefore(key, month);
      LastGroupOf(rows, key, size)
  }

  /** With no row of the previous month and this size there is nothing to
      carry over. */
  lemma PreviousGroupAbsent(rows: seq<Row>, month: string, size: int)
    requires IsMonthKey(month)
    requires forall x :: x in rows && x.size == size ==> !MonthBefore(x.month, month)
    ensures PreviousGroup(rows, month, size) == None
  {
  }

  /** `earlier` is the key of the month just before `month`'s. */
  predicate MonthBefore(earlier: string, month: string)
    requires IsMonthKey(month)
  {
    IsMonthKey(earlier) && MonthIndex(KeyYear(earlier), KeyMonth(earlier)) == MonthIndex(KeyYear(month), KeyMonth(month)) - 1
  }

  /** Deleting one month's rows leaves every other month's last row alone. */
  lemma {:induction false} LastRowUnaffected(rows: seq<Row>, month: string, formation: Option<Formation>, other: string, size: int)
    requires other != month
    ensures LastRow(WithoutMonth(rows, month, formation), other, size) == LastRow(rows, other, size)
  {
    if rows != [] {
      var init := rows[..|rows| - 1];
      var x := rows[|rows| - 1];
      LastRowUnaffected(init, month, formation, other, size);
      var a := WithoutMonth(init, month, formation);
      assert LastRow(rows, other, size) == Later(LastRow(init, other, size), x, other, size);
      if InMonth(x, month, formation) {
        assert WithoutMonth(rows, month, formation) == a;
      } else {
        assert WithoutMonth(rows, month, formation) == a + [x];
        assert (a + [x])[..|a|] == a;
        assert LastRow(a + [x], other, size) == Later(LastRow(a, other, size), x, other, size);
      }
    }
  }

  /** The carried-over group does not depend on the requested month's own rows. */
  lemma PreviousGroupUnaffected(rows: seq<Row>, month: string, formation: Option<Formation>, size: int)
    requires IsMonthKey(month)
    ensures PreviousGroup(WithoutMonth(rows, month, formation), month, size) == PreviousGroup(rows, month, size)
  {
    var p := PreviousMonth(KeyYear(month), KeyMonth(month));
    if 0 <= p.0 <= 9999 {
      var key := FormatMonthKey(p.0, p.1);
      MonthKeyRoundTrip(p.0, p.1);
      assert MonthIndex(KeyYear(key), KeyMonth(key)) != MonthIndex(KeyYear(month), KeyMonth(month));
      LastRowUnaffected(rows, month, formation, key, size);
    }
  }

  /** Deleting a month's rows twice deletes nothing more. */
  lemma {:induction false} WithoutMonthTwice(rows: seq<Row>, month: string, formation: Option<Formation>)
    ensures WithoutMonth(WithoutMonth(rows, month, formation), month, formation) == WithoutMonth(rows, month, formation)
  {
    if rows != [] {
      var init := rows[..|rows| - 1];
      var x := rows[|rows| - 1];
      WithoutMonthTwice(init, month, formation);
      var a := WithoutMonth(init, month, formation);
      if InMonth(x, month, formation) {
        assert WithoutMonth(rows, month, formation) == a + [] == a;
      } else {
        assert WithoutMonth(rows, month, formation) == a + [x];
        assert (a + [x])[..|a|] == a;
        assert WithoutMonth(a + [x], month, formation) == WithoutMonth(a, month, formation) + [x];
      }
    }
  }

  /** Members of that row, None when there is none or `json_decode` fails. */
  function LastGroupOf(rows: seq<Row>, month: string, size: int): Option<seq<Name>> {
    match LastRow(rows, month, size)
    case None => None
    case Some(r) => if r.members.Decoded? then Some(r.members.names) else None
  }

  /** `data_sexta` of the month's rows, in table order. */
  function MonthDates(rows: seq<Row>, month: string): (ds: seq<Date>)
    ensures forall d :: d in ds <==> exists r :: r in rows && r.month == month && r.date == d
  {
    if rows == [] then []
    else
      var init := rows[..|rows| - 1];
      var last := rows[|rows| - 1];
      assert rows == init + [last];
      MonthDates(init, month) + (if last.month == month then [last.date] else [])
  }

  /** Drops repeats from a date-sorted sequence (`SELECT DISTINCT`). */
  function DistinctDates(ds: seq<Date>): seq<Date> {
    if |ds| <= 1 then ds
    else if ds[0] == ds[1] then DistinctDates(ds[1..])
    else [ds[0]] + DistinctDates(ds[1..])
  }

  lemma {:induction false} DistinctDatesSpec(ds: seq<Date>)
    requires SortedBy(ds, DateKey)
    ensures forall d :: d in DistinctDates(ds) <==> d in ds
    ensures forall i, j :: 0 <= i < j < |DistinctDates(ds)| ==> LexLess(DateKey(DistinctDates(ds)[i]), DateKey(DistinctDates(ds)[j]))
  {
    if |ds| > 1 {
      assert SortedBy(ds[1..], DateKey) by {
        forall i, j | 0 <= i < j < |ds[1..]| ensures !LexLess(DateKey(ds[1..][j]), DateKey(ds[1..][i])) {
          assert ds[1..][i] == ds[i + 1] && ds[1..][j] == ds[j + 1];
        }
      }
      DistinctDatesSpec(ds[1..]);
      assert ds == [ds[0]] + ds[1..];
      if ds[0] != ds[1] {
        var rest := DistinctDates(ds[1..]);
        var r := [ds[0]] + rest;
        LexTotal(DateKey(ds[0]), DateKey(ds[1]));
        assert DateKey(ds[0]) != DateKey(ds[1]);
        assert LexLess(DateKey(ds[0]), DateKey(ds[1]));
        forall j | 0 < j < |r| ensures LexLess(DateKey(ds[0]), DateKey(r[j])) {
          assert r[j] in ds[1..];
          var k :| 0 <= k < |ds[1..]| && ds[1..][k] == r[j];
          if k > 0 {
            assert !LexLess(DateKey(ds[k + 1]), DateKey(ds[1]));
            LexTotal(DateKey(ds[1]), DateKey(ds[k + 1]));
            if DateKey(ds[1]) != DateKey(ds[k + 1]) {
              LexTransitive(DateKey(ds[0]), DateKey(ds[1]), DateKey(ds[k + 1]));
            }
          }
        }
      }
    }
  }
}
