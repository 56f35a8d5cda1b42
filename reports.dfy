/**
 * The chart tab: for one year, the loaded sessions are summed per month,
 * per semester, per audience segment, over Sundays, per room, and per room
 * and month. Every chart is a function of the loaded rows; drawing is not
 * modelled.
 */
module Reports {
  import opened Wrappers
  import opened Numerals
  import opened Calendar
  import opened StringOrder
  import opened SessionTable
  import opened History

  /** The rooms of the registration form, and the columns of the room-by-month chart. */
  const Rooms: seq<string> := ["Arena", "Multiuso", "Mezanino"]

  /** The chart kinds offered by the kind selector. */
  const RoomMonthKind: string := "Comparativo de Salas por Mês"
  const AnnualKind: string := "Comparativo Anual"
  const MonthlyKind: string := "Comparativo Mensal"
  const SemesterKind: string := "Comparativo Semestral"
  const SundayKind: string := "Comparativo de Domingos"
  const RoomKind: string := "Comparativo por Sala"

  /** `df[df['Data'].dt.year == ano]`. */
  function OfYear(rows: seq<Loaded>, year: int): (r: seq<Loaded>)
    ensures |r| <= |rows|
    ensures forall y :: y in r <==> y in rows && y.date.year == year
  {
    if |rows| == 0 then []
    else
      var tail := OfYear(rows[1..], year);
      assert forall y :: y in rows <==> y == rows[0] || y in rows[1..];
      if rows[0].date.year == year then [rows[0]] + tail else tail
  }

  /** The year filter keeps each session of the year as often as the table has it,
      and no other session. */
  lemma {:induction false} OfYearCount(rows: seq<Loaded>, year: int)
    ensures forall y :: multiset(OfYear(rows, year))[y] == if y.date.year == year then multiset(rows)[y] else 0
  {
    if |rows| > 0 {
      OfYearCount(rows[1..], year);
      assert rows == [rows[0]] + rows[1..];
    }
  }

  /** The year filter keeps the table order. */
  lemma {:induction false} OfYearAscending(rows: seq<Loaded>, year: int)
    requires LoadedAscending(rows)
    ensures LoadedAscending(OfYear(rows, year))
  {
    if |rows| > 0 {
      OfYearAscending(rows[1..], year);
      forall y | y in OfYear(rows[1..], year) ensures rows[0].id < y.id {
        var k :| 0 <= k < |rows[1..]| && rows[1..][k] == y;
        assert y == rows[k + 1];
      }
    }
  }

  /** Which rows a sum is taken over. */
  datatype Group =
    | All
    | InMonth(m: int)
    | UpToMonth(n: int)
    | InSemester(half: int)
    | InRoom(room: string)
    | InRooms(rooms: seq<string>)
    | InCell(month: int, cellRoom: string)
    | InMonthRooms(rowMonth: int, rowRooms: seq<string>)
    | OnSunday

  predicate InGroup(g: Group, y: Loaded) {
    match g
    case All => true
    case InMonth(m) => y.date.month == m
    case UpToMonth(n) => y.date.month <= n
    case InSemester(h) => (if y.date.month <= 6 then 1 else 2) == h
    case InRoom(room) => y.s.sala == room
    case InRooms(rooms) => y.s.sala in rooms
    case InCell(m, room) => y.date.month == m && y.s.sala == room
    case InMonthRooms(m, rooms) => y.date.month == m && y.s.sala in rooms
    case OnSunday => Valid(y.date) && Weekday(y.date) == 6
  }

  /** The sum of the `total` column over the rows of a group; a group no row
      belongs to sums to zero, the `fill_value=0` of the charts. */
  function SumWhere(rows: seq<Loaded>, g: Group): (r: int)
    ensures (forall y :: y in rows ==> !InGroup(g, y)) ==> r == 0
  {
    if |rows| == 0 then 0
    else
      assert forall y :: y in rows[1..] ==> y in rows;
      (if InGroup(g, rows[0]) then rows[0].s.total else 0) + SumWhere(rows[1..], g)
  }

  /** A group whose sessions all have a zero total sums to 0. */
  lemma {:induction false} SumWhereZero(rows: seq<Loaded>, g: Group)
    requires forall y :: y in rows && InGroup(g, y) ==> y.s.total == 0
    ensures SumWhere(rows, g) == 0
  {
    if |rows| > 0 {
      assert rows[0] in rows;
      assert forall y :: y in rows[1..] ==> y in rows;
      SumWhereZero(rows[1..], g);
    }
  }

  /** With no negative total, a group's sum is not negative, and it is positive when the
      group has a session with a positive total. */
  lemma {:induction false} SumWhereNonNegative(rows: seq<Loaded>, g: Group)
    requires forall y :: y in rows ==> y.s.total >= 0
    ensures SumWhere(rows, g) >= 0
    ensures (exists y :: y in rows && InGroup(g, y) && y.s.total > 0) ==> SumWhere(rows, g) > 0
  {
    if |rows| > 0 {
      assert rows == [rows[0]] + rows[1..];
      assert forall y :: y in rows[1..] ==> y in rows;
      SumWhereNonNegative(rows[1..], g);
    }
  }

  /** The sums of the three audience columns. */
  datatype Segments = Segments(pcg: int, com: int, adv: int)

  /** The sums of the PCG, COM and adverse columns over the rows of a group;
      zero for a group no row belongs to. */
  function SegmentsWhere(rows: seq<Loaded>, g: Group): (r: Segments)
    ensures (forall y :: y in rows ==> !InGroup(g, y)) ==> r == Segments(0, 0, 0)
  {
    if |rows| == 0 then Segments(0, 0, 0)
    else
      assert forall y :: y in rows[1..] ==> y in rows;
      var rest := SegmentsWhere(rows[1..], g);
      if InGroup(g, rows[0]) then Segments(rows[0].s.pcg + rest.pcg, rows[0].s.com + rest.com, rows[0].s.adv + rest.adv)
      else rest
  }

  function Sum(xs: seq<int>): int {
    if |xs| == 0 then 0 else Sum(xs[..|xs| - 1]) + xs[|xs| - 1]
  }

  /** Two groups with the same rows have the same sum. */
  lemma {:induction false} SumWhereSame(rows: seq<Loaded>, g: Group, h: Group)
    requires forall y :: y in rows ==> (InGroup(g, y) <==> InGroup(h, y))
    ensures SumWhere(rows, g) == SumWhere(rows, h)
  {
    if |rows| > 0 {
      assert rows[0] in rows;
      SumWhereSame(rows[1..], g, h);
    }
  }

  /** A group split into two disjoint groups: the sum splits the same way. */
  lemma {:induction false} SumWhereSplit(rows: seq<Loaded>, whole: Group, a: Group, b: Group)
    requires forall y :: y in rows ==> (InGroup(whole, y) <==> InGroup(a, y) || InGroup(b, y))
    requires forall y :: y in rows ==> !(InGroup(a, y) && InGroup(b, y))
    ensures SumWhere(rows, whole) == SumWhere(rows, a) + SumWhere(rows, b)
  {
    if |rows| > 0 {
      assert rows[0] in rows;
      SumWhereSplit(rows[1..], whole, a, b);
    }
  }

  /** Sessions whose dates are real calendar days. */
  predicate AllValid(rows: seq<Loaded>) {
    forall y :: y in rows ==> Valid(y.date)
  }

  // ---------------------------------------------------------------- monthly

  /** "Comparativo Mensal": `groupby(month).sum().reindex(range(1, 13), fill_value=0)`. */
  function Monthly(rows: seq<Loaded>): (buckets: seq<int>)
    ensures |buckets| == 12
  {
    seq(12, i requires 0 <= i < 12 => SumWhere(rows, InMonth(i + 1)))
  }

  lemma {:induction false} MonthlyPrefix(rows: seq<Loaded>, n: int)
    requires 0 <= n <= 12
    ensures Sum(Monthly(rows)[..n]) == SumWhere(rows, UpToMonth(n)) - SumWhere(rows, UpToMonth(0))
  {
    if n > 0 {
      var b := Monthly(rows);
      assert b[..n][..n - 1] == b[..n - 1];
      MonthlyPrefix(rows, n - 1);
      SumWhereSplit(rows, UpToMonth(n), UpToMonth(n - 1), InMonth(n));
    }
  }

  /** The twelve monthly buckets add up to the year's total audience. */
  lemma MonthlySum(rows: seq<Loaded>)
    requires AllValid(rows)
    ensures Sum(Monthly(rows)) == SumWhere(rows, All)
  {
    MonthlyPrefix(rows, 12);
    assert Monthly(rows)[..12] == Monthly(rows);
    SumWhereSame(rows, UpToMonth(12), All);
  }

  /** A month without sessions has a zero bucket; any other bucket is that month's sum. */
  lemma MonthlyBucket(rows: seq<Loaded>, m: int)
    requires 1 <= m <= 12
    ensures Monthly(rows)[m - 1] == SumWhere(rows, InMonth(m))
    ensures (forall y :: y in rows ==> y.date.month != m) ==> Monthly(rows)[m - 1] == 0
  {
    if forall y :: y in rows ==> y.date.month != m {
    }
  }

  // --------------------------------------------------------------- semester

  /** The two semesters add up to the year's total audience, and the first one
      is the sum of the first six monthly buckets. */
  lemma SemesterSum(rows: seq<Loaded>)
    requires AllValid(rows)
    ensures SumWhere(rows, InSemester(1)) + SumWhere(rows, InSemester(2)) == SumWhere(rows, All)
    ensures SumWhere(rows, InSemester(1)) == Sum(Monthly(rows)[..6])
  {
    SumWhereSplit(rows, All, InSemester(1), InSemester(2));
    MonthlyPrefix(rows, 6);
    SumWhereSame(rows, InSemester(1), UpToMonth(6));
  }

  // ----------------------------------------------------------------- annual

  /** The segments of sessions whose derived columns are consistent add up to their total. */
  lemma {:induction false} SegmentsMakeTotal(rows: seq<Loaded>, g: Group)
    requires forall y :: y in rows ==> y.s.pcgCom == y.s.pcg + y.s.com && y.s.total == y.s.pcgCom + y.s.adv
    ensures var t := SegmentsWhere(rows, g); t.pcg + t.com + t.adv == SumWhere(rows, g)
  {
    if |rows| > 0 {
      assert rows[0] in rows;
      SegmentsMakeTotal(rows[1..], g);
    }
  }

  // ---------------------------------------------------------------- Sundays

  /** Rows that are not on a Sunday do not change the Sunday chart. */
  lemma {:induction false} SundaysIgnoreWeekdays(rows: seq<Loaded>, other: seq<Loaded>)
    requires forall y :: y in other ==> !InGroup(OnSunday, y)
    ensures SegmentsWhere(other + rows, OnSunday) == SegmentsWhere(rows, OnSunday)
  {
    if |other| > 0 {
      var all := other + rows;
      assert all[0] == other[0] && all[1..] == other[1..] + rows;
      assert other[0] in other;
      assert SegmentsWhere(all, OnSunday) == SegmentsWhere(all[1..], OnSunday);
      SundaysIgnoreWeekdays(rows, other[1..]);
    } else {
      assert other + rows == rows;
    }
  }

  // ------------------------------------------------------------------ rooms

  function RoomNames(rows: seq<Loaded>): (names: seq<string>)
    ensures |names| == |rows|
    ensures forall k :: 0 <= k < |rows| ==> names[k] == rows[k].s.sala
  {
    seq(|rows|, k requires 0 <= k < |rows| => rows[k].s.sala)
  }

  /** `groupby('Sala')['Total'].sum()`: the sum of each room's sessions. */
  function RoomTotals(rows: seq<Loaded>, rooms: seq<string>): (totals: seq<int>)
    ensures |totals| == |rooms|
  {
    seq(|rooms|, i requires 0 <= i < |rooms| => SumWhere(rows, InRoom(rooms[i])))
  }

  /** Distinct room names: their totals add up to the sum over all of them. */
  lemma {:induction false} RoomTotalsSum(rows: seq<Loaded>, rooms: seq<string>)
    requires forall i, j :: 0 <= i < j < |rooms| ==> rooms[i] != rooms[j]
    ensures Sum(RoomTotals(rows, rooms)) == SumWhere(rows, InRooms(rooms))
  {
    if |rooms| == 0 {
    } else {
      var init := rooms[..|rooms| - 1];
      var last := rooms[|rooms| - 1];
      assert RoomTotals(rows, rooms)[..|rooms| - 1] == RoomTotals(rows, init);
      RoomTotalsSum(rows, init);
      assert forall y :: y in rows ==> (y.s.sala in rooms <==> y.s.sala in init || y.s.sala == last);
      assert last !in init;
      SumWhereSplit(rows, InRooms(rooms), InRooms(init), InRoom(last));
    }
  }

  /** "Comparativo por Sala": the rooms in ascending order with their sums; the
      sums add up to the year's total audience. */
  lemma RoomChartSum(rows: seq<Loaded>)
    ensures var rooms := SortedSet(RoomNames(rows));
      Sum(RoomTotals(rows, rooms)) == SumWhere(rows, All)
  {
    var rooms := SortedSet(RoomNames(rows));
    forall i, j | 0 <= i < j < |rooms| ensures rooms[i] != rooms[j] {
      LessIrreflexive(rooms[i]);
    }
    RoomTotalsSum(rows, rooms);
    forall y | y in rows ensures y.s.sala in rooms {
      var k :| 0 <= k < |rows| && rows[k] == y;
      assert RoomNames(rows)[k] == y.s.sala;
    }
    SumWhereSame(rows, InRooms(rooms), All);
  }

  // ------------------------------------------------------ rooms by month

  /** "Comparativo de Salas por Mês": months 1..12 by the three rooms, zero where empty. */
  function Grid(rows: seq<Loaded>): (grid: seq<seq<int>>)
    ensures |grid| == 12 && forall i :: 0 <= i < 12 ==> |grid[i]| == |Rooms|
  {
    seq(12, i requires 0 <= i < 12 =>
      seq(|Rooms|, j requires 0 <= j < |Rooms| => SumWhere(rows, InCell(i + 1, Rooms[j]))))
  }

  /** A session in a room outside the three columns does not change the grid. */
  lemma GridIgnoresOtherRooms(rows: seq<Loaded>, y: Loaded)
    requires y.s.sala !in Rooms
    ensures Grid([y] + rows) == Grid(rows)
  {
    var a, b := Grid([y] + rows), Grid(rows);
    assert ([y] + rows)[1..] == rows;
    forall i | 0 <= i < 12 ensures a[i] == b[i] {
      forall j | 0 <= j < |Rooms| ensures a[i][j] == b[i][j] {
        assert Rooms[j] in Rooms;
        assert !InGroup(InCell(i + 1, Rooms[j]), y);
      }
    }
  }

  lemma SumOfThree(xs: seq<int>)
    requires |xs| == 3
    ensures Sum(xs) == xs[0] + xs[1] + xs[2]
  {
    assert xs[..3] == xs && xs[..3][..2] == xs[..2];
    assert xs[..2][..1] == xs[..1] && xs[..1][..0] == [];
    assert Sum(xs[..1]) == xs[0];
    assert Sum(xs[..2]) == xs[0] + xs[1];
  }

  /** When every session is in one of the three rooms, each month's row of the
      grid adds up to that month's bucket of the monthly chart. */
  lemma GridRowSum(rows: seq<Loaded>, m: int)
    requires 1 <= m <= 12
    requires forall y :: y in rows ==> y.s.sala in Rooms
    ensures Sum(Grid(rows)[m - 1]) == Monthly(rows)[m - 1]
  {
    var row := Grid(rows)[m - 1];
    SumOfThree(row);
    GridCells(rows, m);
    MonthByRooms(rows, m);
  }

  /** Row m of the grid holds month m's Total sums for Arena, Multiuso and Mezanino, in that column
      order; a room with no session that month reads 0 (`fill_value=0`). */
  lemma GridCells(rows: seq<Loaded>, m: int)
    requires 1 <= m <= 12
    ensures Grid(rows)[m - 1] ==
      [SumWhere(rows, InCell(m, "Arena")), SumWhere(rows, InCell(m, "Multiuso")), SumWhere(rows, InCell(m, "Mezanino"))]
  {
    var row := Grid(rows)[m - 1];
    assert row[0] == SumWhere(rows, InCell(m, "Arena"));
    assert row[1] == SumWhere(rows, InCell(m, "Multiuso"));
    assert row[2] == SumWhere(rows, InCell(m, "Mezanino"));
  }

  /** When every session is in one of the three rooms, a month's sum is the sum of its three room cells. */
  lemma MonthByRooms(rows: seq<Loaded>, m: int)
    requires forall y :: y in rows ==> y.s.sala in Rooms
    ensures SumWhere(rows, InCell(m, "Arena")) + SumWhere(rows, InCell(m, "Multiuso"))
      + SumWhere(rows, InCell(m, "Mezanino")) == SumWhere(rows, InMonth(m))
  {
    SumWhereSplit(rows, InMonthRooms(m, ["Multiuso", "Mezanino"]), InCell(m, "Multiuso"), InCell(m, "Mezanino"));
    SumWhereSplit(rows, InMonthRooms(m, Rooms), InCell(m, "Arena"), InMonthRooms(m, ["Multiuso", "Mezanino"]));
    SumWhereSame(rows, InMonthRooms(m, Rooms), InMonth(m));
  }

  // ------------------------------------------------------------------ plotar

  /** What one of the two chart panels shows. */
  datatype Chart =
    | NoDataForYear                               // "Sem dados para <ano>"
    | RoomMonthChart(grid: seq<seq<int>>)
    | AnnualChart(segments: Segments)
    | MonthlyChart(buckets: seq<int>)
    | SemesterChart(first: int, second: int)
    | SundayChart(sundays: Segments)
    | NoSundayData                                // "Sem dados para domingos"
    | RoomChart(rooms: seq<string>, totals: seq<int>)
    | NoRoomData                                  // "Sem dados de sala"
    | Blank                                       // an unknown kind draws nothing

  predicate KnownKind(kind: string) {
    kind in [RoomMonthKind, AnnualKind, MonthlyKind, SemesterKind, SundayKind, RoomKind]
  }

  /** `plotar(ax, df, ano, tipo)`. */
  function Plot(rows: seq<Loaded>, year: int, kind: string): (r: Chart)
    ensures r == NoDataForYear <==> forall y :: y in rows ==> y.date.year != year
    ensures r == Blank <==> (exists y :: y in rows && y.date.year == year) && !KnownKind(kind)
    ensures r == NoSundayData <==>
      (kind == SundayKind && (exists y :: y in rows && y.date.year == year)
       && forall y :: y in rows && y.date.year == year ==> !InGroup(OnSunday, y))
    ensures r != NoRoomData
  {
    var ofYear := OfYear(rows, year);
    if ofYear == [] then
      NoDataForYear
    else
      assert ofYear[0] in rows && ofYear[0].date.year == year;
      if kind == RoomMonthKind then RoomMonthChart(Grid(ofYear))
      else if kind == AnnualKind then AnnualChart(SegmentsWhere(ofYear, All))
      else if kind == MonthlyKind then MonthlyChart(Monthly(ofYear))
      else if kind == SemesterKind then SemesterChart(SumWhere(ofYear, InSemester(1)), SumWhere(ofYear, InSemester(2)))
      else if kind == SundayKind then
        if forall k :: 0 <= k < |ofYear| ==> !InGroup(OnSunday, ofYear[k]) then NoSundayData
        else SundayChart(SegmentsWhere(ofYear, OnSunday))
      else if kind == RoomKind then
        var rooms := SortedSet(RoomNames(ofYear));
        assert RoomNames(ofYear)[0] in rooms;
        if rooms == [] then NoRoomData else RoomChart(rooms, RoomTotals(ofYear, rooms))
      else Blank
  }

  /** The monthly chart of a year with sessions: twelve buckets, month `m` in
      position `m - 1`, summing to the year's total audience. */
  lemma PlotMonthly(rows: seq<Loaded>, year: int)
    requires AllValid(rows)
    requires exists y :: y in rows && y.date.year == year
    ensures var r := Plot(rows, year, MonthlyKind);
      r.MonthlyChart? && |r.buckets| == 12
      && (forall m :: 1 <= m <= 12 ==> r.buckets[m - 1] == SumWhere(OfYear(rows, year), InMonth(m)))
      && Sum(r.buckets) == SumWhere(OfYear(rows, year), All)
  {
    var ofYear := OfYear(rows, year);
    var y :| y in rows && y.date.year == year;
    assert y in ofYear;
    MonthlySum(ofYear);
  }

  /** The semester chart of a year with sessions: its two bars add up to the
      year's total audience, and the first is the January..June part of the
      monthly chart. */
  lemma PlotSemester(rows: seq<Loaded>, year: int)
    requires AllValid(rows)
    requires exists y :: y in rows && y.date.year == year
    ensures var r := Plot(rows, year, SemesterKind);
      r.SemesterChart? && r.first + r.second == SumWhere(OfYear(rows, year), All)
      && r.first == Sum(Monthly(OfYear(rows, year))[..6])
  {
    var ofYear := OfYear(rows, year);
    var y :| y in rows && y.date.year == year;
    assert y in ofYear;
    SemesterSum(ofYear);
  }

  /** The annual chart of a year with sessions: its three bars are the year's
      PCG, COM and adverse column sums, and for consistent sessions they add up
      to the year's total audience. */
  lemma PlotAnnual(rows: seq<Loaded>, year: int)
    requires exists y :: y in rows && y.date.year == year
    ensures var r := Plot(rows, year, AnnualKind);
      r.AnnualChart? && r.segments == SegmentsWhere(OfYear(rows, year), All)
    ensures (forall y :: y in rows ==> y.s.pcgCom == y.s.pcg + y.s.com && y.s.total == y.s.pcgCom + y.s.adv) ==>
      var r := Plot(rows, year, AnnualKind);
      r.segments.pcg + r.segments.com + r.segments.adv == SumWhere(OfYear(rows, year), All)
  {
    var ofYear := OfYear(rows, year);
    var y :| y in rows && y.date.year == year;
    assert y in ofYear;
    if forall y :: y in rows ==> y.s.pcgCom == y.s.pcg + y.s.com && y.s.total == y.s.pcgCom + y.s.adv {
      SegmentsMakeTotal(ofYear, All);
    }
  }

  /** The Sunday chart of a year with a Sunday session: its three bars are the
      PCG, COM and adverse column sums over the year's Sunday sessions, and for
      consistent sessions they add up to the Sunday total audience. */
  lemma PlotSundays(rows: seq<Loaded>, year: int)
    requires exists y :: y in rows && y.date.year == year && InGroup(OnSunday, y)
    ensures var r := Plot(rows, year, SundayKind);
      r.SundayChart? && r.sundays == SegmentsWhere(OfYear(rows, year), OnSunday)
    ensures (forall y :: y in rows ==> y.s.pcgCom == y.s.pcg + y.s.com && y.s.total == y.s.pcgCom + y.s.adv) ==>
      var r := Plot(rows, year, SundayKind);
      r.sundays.pcg + r.sundays.com + r.sundays.adv == SumWhere(OfYear(rows, year), OnSunday)
  {
    var ofYear := OfYear(rows, year);
    var y :| y in rows && y.date.year == year && InGroup(OnSunday, y);
    assert y in ofYear;
    var k :| 0 <= k < |ofYear| && ofYear[k] == y;
    assert InGroup(OnSunday, ofYear[k]);
    if forall y :: y in rows ==> y.s.pcgCom == y.s.pcg + y.s.com && y.s.total == y.s.pcgCom + y.s.adv {
      SegmentsMakeTotal(ofYear, OnSunday);
    }
  }

  /** The room column holds exactly the rooms of the sessions. */
  lemma RoomNamesMembers(rows: seq<Loaded>)
    ensures forall room :: room in RoomNames(rows) <==> exists y :: y in rows && y.s.sala == room
  {
    var names := RoomNames(rows);
    forall room ensures room in names <==> exists y :: y in rows && y.s.sala == room {
      if room in names {
        var k :| 0 <= k < |names| && names[k] == room;
        assert rows[k] in rows;
      }
      if exists y :: y in rows && y.s.sala == room {
        var y :| y in rows && y.s.sala == room;
        var k :| 0 <= k < |rows| && rows[k] == y;
        assert names[k] == room;
      }
    }
  }

  /** The room chart of a year with sessions: each room of the year's sessions
      once, in ascending order, with its sum; the sums add up to the year's total
      audience. */
  lemma PlotRooms(rows: seq<Loaded>, year: int)
    requires exists y :: y in rows && y.date.year == year
    ensures var r := Plot(rows, year, RoomKind);
      r.RoomChart? && Ascending(r.rooms) && |r.totals| == |r.rooms|
      && (forall room :: room in r.rooms <==> exists y :: y in OfYear(rows, year) && y.s.sala == room)
      && (forall i :: 0 <= i < |r.rooms| ==> r.totals[i] == SumWhere(OfYear(rows, year), InRoom(r.rooms[i])))
      && Sum(r.totals) == SumWhere(OfYear(rows, year), All)
  {
    var ofYear := OfYear(rows, year);
    var y :| y in rows && y.date.year == year;
    assert y in ofYear;
    RoomChartSum(ofYear);
    RoomNamesMembers(ofYear);
  }

  /** The room-by-month chart of a year: month m's row holds the Arena, Multiuso and Mezanino
      sums of that month, and when every session is in one of the three rooms the row adds up
      to that month's bucket of the monthly chart. */
  lemma PlotGrid(rows: seq<Loaded>, year: int, m: int)
    requires 1 <= m <= 12
    requires exists y :: y in rows && y.date.year == year
    ensures var r := Plot(rows, year, RoomMonthKind);
      && r.RoomMonthChart? && |r.grid| == 12
      && r.grid[m - 1] == [SumWhere(OfYear(rows, year), InCell(m, "Arena")),
                           SumWhere(OfYear(rows, year), InCell(m, "Multiuso")),
                           SumWhere(OfYear(rows, year), InCell(m, "Mezanino"))]
    ensures (forall y :: y in rows ==> y.s.sala in Rooms) ==>
      Sum(Plot(rows, year, RoomMonthKind).grid[m - 1]) == Monthly(OfYear(rows, year))[m - 1]
  {
    var ofYear := OfYear(rows, year);
    var y :| y in rows && y.date.year == year;
    assert y in ofYear;
    GridCells(ofYear, m);
    if forall y :: y in rows ==> y.s.sala in Rooms {
      GridRowSum(ofYear, m);
    }
  }


  /** Why `_gerar_grafico_thread` shows no charts. */
  /** The chart thread's errors. `BadYear` is the "Digite anos válidos." message, which the
      thread shows for every `ValueError`: a year that is not an integer, or a pie it cannot draw. */
  datatype ChartError = MissingYear | BadYear | NoData

  /** `ax.pie` cannot draw a room chart with these totals: a negative wedge size raises
      `ValueError`, and sizes adding up to 0 give NaN percentages, which the label formatter's
      `int(round(...))` rejects with `ValueError` as well. */
  predicate PieFails(c: Chart) {
    c.RoomChart? && ((exists k :: 0 <= k < |c.totals| && c.totals[k] < 0) || Sum(c.totals) == 0)
  }

  /** `_gerar_grafico_thread`: both years must be typed and be integers, and the
      table must have loaded rows; then each panel is `plotar` for its year, and
      a room panel the pie cannot draw turns the whole result into the error. */
  function Charts(rows: seq<Loaded>, year1Text: string, year2Text: string, kind: string): (r: Result<(Chart, Chart), ChartError>)
    ensures r == Err(MissingYear) <==> year1Text == "" || year2Text == ""
    ensures r == Err(BadYear) <==>
      year1Text != "" && year2Text != "" &&
      (ParseInt(year1Text).None? || ParseInt(year2Text).None?
       || (rows != [] && (PieFails(Plot(rows, ParseInt(year1Text).value, kind))
                          || PieFails(Plot(rows, ParseInt(year2Text).value, kind)))))
    ensures r == Err(NoData) <==>
      year1Text != "" && year2Text != "" && ParseInt(year1Text).Some? && ParseInt(year2Text).Some? && rows == []
    ensures r.Ok? ==> rows != [] && ParseInt(year1Text).Some? && ParseInt(year2Text).Some?
    ensures r.Ok? ==> r.value == (Plot(rows, ParseInt(year1Text).value, kind), Plot(rows, ParseInt(year2Text).value, kind))
    ensures r.Ok? ==> !PieFails(r.value.0) && !PieFails(r.value.1)
  {
    if year1Text == "" || year2Text == "" then Err(MissingYear)
    else match (ParseInt(year1Text), ParseInt(year2Text))
      case (Some(y1), Some(y2)) =>
        if rows == [] then Err(NoData)
        else
          var left := Plot(rows, y1, kind);
          var right := Plot(rows, y2, kind);
          if PieFails(left) || PieFails(right) then Err(BadYear) else Ok((left, right))
      case _ => Err(BadYear)
  }

  /** Only the room chart can fail to draw: for every other kind, two integer years and a
      non-empty table give the two panels. */
  lemma ChartsOtherKinds(rows: seq<Loaded>, year1Text: string, year2Text: string, kind: string)
    requires kind != RoomKind && rows != []
    requires year1Text != "" && year2Text != "" && ParseInt(year1Text).Some? && ParseInt(year2Text).Some?
    ensures Charts(rows, year1Text, year2Text, kind).Ok?
  {
    PlotRoomChartKind(rows, ParseInt(year1Text).value, kind);
    PlotRoomChartKind(rows, ParseInt(year2Text).value, kind);
  }

  /** A room chart comes only from the room kind. */
  lemma PlotRoomChartKind(rows: seq<Loaded>, year: int, kind: string)
    requires kind != RoomKind
    ensures !Plot(rows, year, kind).RoomChart?
  {
  }

  /** A year whose sessions all have a zero total, as when every count was left blank
      (`int(... or 0)`), has a room chart the pie cannot draw. */
  lemma BlankYearPieFails(rows: seq<Loaded>, year: int)
    requires exists y :: y in rows && y.date.year == year
    requires forall y :: y in rows && y.date.year == year ==> y.s.total == 0
    ensures PieFails(Plot(rows, year, RoomKind))
  {
    PlotRooms(rows, year);
    SumWhereZero(OfYear(rows, year), All);
  }

  /** A year with no negative total and at least one positive total has a room chart
      the pie draws. */
  lemma PositiveYearPieDraws(rows: seq<Loaded>, year: int)
    requires forall y :: y in rows && y.date.year == year ==> y.s.total >= 0
    requires exists y :: y in rows && y.date.year == year && y.s.total > 0
    ensures !PieFails(Plot(rows, year, RoomKind))
  {
    var ofYear := OfYear(rows, year);
    PlotRooms(rows, year);
    var r := Plot(rows, year, RoomKind);
    forall k | 0 <= k < |r.totals| ensures r.totals[k] >= 0 {
      SumWhereNonNegative(ofYear, InRoom(r.rooms[k]));
    }
    var y :| y in rows && y.date.year == year && y.s.total > 0;
    assert y in ofYear && InGroup(All, y);
    SumWhereNonNegative(ofYear, All);
  }
}
