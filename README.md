# GestaoEspetaculos: the session records, the session table and the charts

GestaoEspetaculos records audience figures for shows. An event has a name, a
room (Arena, Multiuso, Mezanino), a period and a set of weekdays. It is
expanded into one session per matching day, and each session stores:
- the weekday name and the `DD/MM/YYYY` date;
- the event and the room;
- three audience segments (PCG, Comerciário, Adversos);
- the derived `PCG+COM.` and `Total`;
- a note.

The sessions live in one SQLite table, `sessoes`. From the history tab they
are searched, edited and deleted one at a time or by event. The chart tab sums
them per month, per semester, per segment, over Sundays, per room and per room
and month.

This Dafny project models that logic:

- `calendar.dfy`: the dates the application handles through `datetime`.
  - A day number equal to `toordinal()` and `weekday()` with 0 = Monday.
  - The Portuguese weekday names.
  - The strict `DD/MM/YYYY` rendering and parsing.
- `text.dfy`, `numerals.dfy`, `stringorder.dfy`: the pieces of Python's `str`
  the application relies on.
  - Digit filtering, `strip()` and `split('|')`.
  - `str(n)` and `int(text)`.
  - String ordering, `sorted(set(...))` and reverse order.
- `sqllike.dfy`: SQLite's `LIKE`, and what the two patterns of the filtered
  search mean.
- `sessiontable.dfy`: class `Database` over an in-memory table.
  - The rows, in rowid order, and the AUTOINCREMENT counter.
  - Insert, lookup by id, update by id, delete by id, delete by event name,
    filtered search and distinct years.
- `datemask.dfy`: the `DD/MM/YYYY` typing mask of the date entries, and its
  cursor placement loop.
- `registration.dfy`: registering an event.
  - Form validation and the expansion of the period into session dates.
  - The audience window's counts, and building the records with their
    derived columns.
  - Storing all the records, or none of them when a count is not an integer
    (database failures are left out).
- `editing.dfy`: the history rows' `db|N` ids, the edit form and the
  single-session actions.
- `history.dfy`: history filters, row loading (date parsing and room
  renaming), the event selector and the batch delete.
- `reports.dfy`: `plotar`'s per-year aggregations and the year entries of the
  chart tab.

Calls into the GUI become parameters:
- an entry's text becomes a `string`;
- a ticked check box becomes a member of a `set<string>`;
- a confirmation dialog's answer becomes a `bool`.

The database is the `Database` object that the operations receive.

## Model

| member | source | states |
|---|---|---|
| Text.Digits | sistema_espetaculos.py:125-126 | the digits of a text, in order: only digits, never longer than the text |
| Text.DigitsAppend | sistema_espetaculos.py:125-126 | filtering digits distributes over concatenation |
| Text.DigitsOfPrefixStep | sistema_espetaculos.py:136 | one more character adds one to the digit count exactly when it is a digit |
| Text.Strip | sistema_espetaculos.py:183 | `strip()`: no whitespace at either end of the result; all-whitespace text becomes empty; text without surrounding whitespace is unchanged |
| Text.StripMeaning | sistema_espetaculos.py:183 | `strip()` keeps the part of the text between a run of leading and a run of trailing whitespace; with the row above this fixes the result |
| Text.Split | sistema_espetaculos.py:529 | `split('|')` gives one part more than there are separators, and no part holds a separator |
| Text.JoinSplit | sistema_espetaculos.py:529 | joining the parts of a split with the separator gives back the text |
| Text.SplitAtSeparator | sistema_espetaculos.py:529 | a text with exactly one separator splits into the two pieces around it |
| Numerals.DigitValue | sistema_espetaculos.py:530 | a digit's value is 0..9 and renders back as the same digit |
| Numerals.NatToString | sistema_espetaculos.py:457 | `str(n)` of a natural number: at least one character, all digits |
| Numerals.IntToString | sistema_espetaculos.py:457 | `str(n)`: non-empty, ends in a digit, starts with a digit or `-` |
| Numerals.IntToStringAlphabet | database.py:78 | `str(n)` holds only `-` and digits, so it has no letter and no `LIKE` wildcard |
| Numerals.ParseInt | sistema_espetaculos.py:253-255 | `int(text)`: accepted only if the stripped text is non-empty; stripped all-digit text reads as its decimal value |
| Numerals.ParseIntMeaning | sistema_espetaculos.py:253-255 | `int(text)` accepts exactly a stripped text made of an optional `+` or `-` and at least one digit, and reads `-` digits as the negated value, `+` digits and plain digits as their value; anything else (such as "12a") is refused |
| Numerals.NatToStringRoundTrip | sistema_espetaculos.py:457 | reading back the rendering of a natural number gives the number |
| Numerals.IntToStringRoundTrip | sistema_espetaculos.py:530 | `int(str(n)) == n` for every integer, negative ones included |
| Numerals.ParseNegative | sistema_espetaculos.py:530 | `-` followed by digits reads as minus the value of the digits |
| Numerals.DigitsValuePositive | sistema_espetaculos.py:410 | digits that do not start with `0` have a positive value |
| Numerals.NatToStringOfDigits | sistema_espetaculos.py:410 | `str(int(s)) == s` for a numeral without leading zeros: the year chosen as text, read by `int()`, is rendered back into the `%/{ano}` pattern of database.py:78 as the same text |
| StringOrder.LessIrreflexive | sistema_espetaculos.py:423 | Python's string order is irreflexive |
| StringOrder.LessTransitive | sistema_espetaculos.py:423 | Python's string order is transitive |
| StringOrder.LessTotal | sistema_espetaculos.py:423 | any two different strings are ordered one way or the other |
| StringOrder.SortedSet | sistema_espetaculos.py:423 | `sorted(set(xs))`: strictly ascending, with exactly the members of `xs` |
| StringOrder.ReverseAscending | database.py:90 | reversing an ascending list gives a descending one with the same members |
| Calendar.Weekday | sistema_espetaculos.py:197 | `weekday()` is a number 0..6 |
| Calendar.WeekdayAnchor | sistema_espetaculos.py:197 | 1 January of year 1 is weekday 0, a Monday; with `NextDayWeekday` this fixes every weekday, so 6 is Sunday |
| Calendar.NextDay | sistema_espetaculos.py:197 | the day after a valid date is valid, and its day number is one more |
| Calendar.Ordinal | sistema_espetaculos.py:194 | the day number of a date lies after every day of the earlier years and within its own year |
| Calendar.NextDayWeekday | sistema_espetaculos.py:197 | consecutive days have consecutive weekdays, Sunday wrapping to Monday |
| Calendar.YearLength | sistema_espetaculos.py:197 | a year's first day number plus its length gives the next year's first day number |
| Calendar.OrdinalMonotone | sistema_espetaculos.py:194 | an earlier calendar date has a smaller day number |
| Calendar.OrdinalInjective | sistema_espetaculos.py:197 | two valid dates have the same day number exactly when they are equal |
| Calendar.YearNotAfter | sistema_espetaculos.py:197 | a day no later than another is in no later a year |
| Calendar.Pad2 | sistema_espetaculos.py:258 | `%d`/`%m`: exactly two digits |
| Calendar.Pad4 | sistema_espetaculos.py:258 | `%Y`: exactly four digits |
| Calendar.FormatDate | sistema_espetaculos.py:258 | `strftime('%d/%m/%Y')`: ten characters with `/` at positions 2 and 5 |
| Calendar.WeekdayName | sistema_espetaculos.py:258 | `DIAS_SEMANA_PT[weekday()]`: one of the seven names; "domingo" exactly on Sundays and "segunda-feira" exactly on Mondays |
| Calendar.TwoDigits | sistema_espetaculos.py:185 | two digits read as a number in 0..99 |
| Calendar.ParseDate | sistema_espetaculos.py:185-186 | `strptime(text, '%d/%m/%Y')`: accepts only a text that is the rendering of an existing date with a four-digit year |
| Calendar.RendersBack | sistema_espetaculos.py:185 | two digits read as a number render back as the same two digits |
| Calendar.ParseFormatRoundTrip | sistema_espetaculos.py:570 | parsing a rendered date gives the date back |
| DateMask.Take | sistema_espetaculos.py:126 | `[:n]`: the first `min(n, len)` characters |
| DateMask.MaskedText | sistema_espetaculos.py:125-131 | the masked text has at most ten characters, `/` exactly at positions 2 and 5 when present, and digits everywhere else |
| DateMask.Layout | sistema_espetaculos.py:127-130 | the laid-out digits have `/` exactly at positions 2 and 5, only when a third or a fifth digit follows, and digits elsewhere |
| DateMask.LayoutDigits | sistema_espetaculos.py:127-130 | the digits of the laid-out text are exactly the digits laid out |
| DateMask.MaskedTextShape | sistema_espetaculos.py:125-131 | the mask keeps the first eight digits in order, drops every other character, and adds one `/` per separator |
| DateMask.MaskIdempotent | sistema_espetaculos.py:131 | masking a masked text changes nothing, so the entry is left alone |
| DateMask.CursorAfterDigits | sistema_espetaculos.py:132-137 | the cursor loop stops after exactly `min(k, digits in text)` digits, at the first position where that count is reached, within the text |
| DateMask.FormatDateEntry | sistema_espetaculos.py:121-140 | the entry gets the masked text; an unchanged text keeps its cursor; otherwise the cursor has as many digits before it as the old one had, capped by the digits present, and is 0 when there were none |
| SqlLike.PercentMatchesAll | database.py:70 | the pattern `%` matches every text |
| SqlLike.Like | database.py:69 | `LIKE`: every pattern character other than `%` consumes one text character, so a pattern without `%` matches only texts of its own length |
| SqlLike.EqualIgnoringCaseStep | database.py:69 | case-insensitive equality, character by character |
| SqlLike.LikeExact | database.py:69 | a wildcard-free pattern matches exactly the texts equal to it up to ASCII case |
| SqlLike.LikePrefix | database.py:70 | `t%` matches exactly the texts that start with `t` up to case |
| SqlLike.ContainsStep | database.py:70 | containment shifts by one character |
| SqlLike.LikeContains | database.py:68-70 | the name filter `%t%` matches exactly the texts containing `t` up to ASCII case |
| SqlLike.LikeSuffix | database.py:78 | `%t` matches exactly the texts ending in `t` up to case |
| SqlLike.EqualIgnoringCaseWithoutLetters | database.py:78 | against a text without letters, case-insensitive equality is equality |
| SqlLike.LikeEndsWith | database.py:76-78 | a letter-free, wildcard-free suffix pattern `%t` matches exactly the texts ending in `t` |
| SessionTable.Lookup | database.py:95-102 | `buscar_sessao_por_id`: nothing exactly when no row has the id; otherwise a row with that id holds the returned columns |
| SessionTable.LookupFindsRow | database.py:99 | in a table with increasing ids, looking up a row's id returns that row's columns |
| SessionTable.UpdateRows | database.py:108-113 | the `UPDATE` keeps the number of rows and every id in place |
| SessionTable.UpdateReadsBackAt | database.py:104-121 | after an update, the target id reads back the new columns if it existed; every other id reads back its old columns |
| SessionTable.UpdateReadBack | database.py:104-121 | an update keeps ids increasing, reads back the new columns at the target (nothing if absent), and leaves every other row unchanged |
| SessionTable.UpdateAbsentIsNoOp | database.py:113 | updating an absent id changes nothing |
| SessionTable.RemoveId | database.py:127 | `DELETE ... WHERE id = ?`: exactly the rows with other ids remain, in order |
| SessionTable.RemoveIdReadBack | database.py:123-129 | after deleting an id it is not found, and every other id reads back as before |
| SessionTable.RemoveEvent | database.py:135 | `DELETE ... WHERE nome_evento = ?`: exactly the rows of other events remain, in order |
| SessionTable.Where | database.py:80-83 | a `WHERE` of ANDed conditions keeps exactly the rows satisfying all of them, in order |
| SessionTable.WhereKeepsAll | database.py:80 | with no failing condition (in particular none at all) the query returns every row |
| SessionTable.AllHoldAppend | database.py:81 | appending a condition to the AND adds exactly that conjunct |
| SessionTable.YearText | database.py:90 | `SUBSTR(data, 7, 4)`: characters 7 to 10 of a date text |
| SessionTable.AvailableYears | database.py:87-93 | `SELECT DISTINCT SUBSTR(data, 7, 4) ... ORDER BY ano DESC`: strictly descending, with exactly the year texts of the rows |
| SessionTable.DescendingIsDistinct | database.py:90 | the year list has no duplicates |
| SessionTable.YearPatternMeaning | database.py:76-78 | the year condition `data LIKE '%/YYYY'` holds exactly when the date text ends with `/YYYY` |
| SessionTable.Database.constructor | database.py:15-35 | `criar_tabela` on a new database file: an empty table with no id handed out |
| SessionTable.Database.Insert | database.py:37-51 | appends exactly one row with the given columns; its id is larger than every id ever issued (AUTOINCREMENT), nothing else changes, and the new row reads back with identical columns |
| SessionTable.Database.All | database.py:53-58 | every row of the table, in increasing id order |
| SessionTable.Database.FindById | database.py:95-102 | nothing exactly when no row has that id; otherwise the columns of the row with that id |
| SessionTable.Database.Years | database.py:87-93 | the distinct year texts of the stored dates, latest first |
| SessionTable.Database.Search | database.py:60-85 | returns exactly the rows satisfying the conjunction of the supplied filters, as `LIKE` patterns and, for wildcard-free names, as containment, equality and `/YYYY` suffix; no filter returns every row |
| SessionTable.Database.Update | database.py:104-121 | `atualizar_sessao`: the table becomes the update of the old table at that id; the counter is unchanged |
| SessionTable.Database.DeleteById | database.py:123-129 | `excluir_sessao_por_id`: the table becomes the old table without that id |
| SessionTable.Database.DeleteEvent | database.py:131-137 | `excluir_evento_em_lote`: the table becomes the old table without the rows of that event |
| Registration.TickedDays | sistema_espetaculos.py:187 | the weekday numbers of exactly the ticked boxes, through `DIAS_SEMANA_MAP` |
| Registration.SessionDates | sistema_espetaculos.py:197 | every listed date is valid, in the period and on a ticked weekday, and the dates strictly ascend |
| Registration.SessionDatesComplete | sistema_espetaculos.py:197 | every day of the period on a ticked weekday is listed |
| Registration.PeriodStorable | sistema_espetaculos.py:197 | a day no later than a storable end date is storable |
| Registration.PlanSessions | sistema_espetaculos.py:181-200 | a bad date gives the format error exactly; with both dates read, a missing name, room or day gives the missing-field error, before the date-order check; with the fields present, start after end gives the date error; the "no session" warning means the period has no ticked day; an accepted plan keeps the stripped name, the room, the days and a non-empty date list |
| Registration.StartOf | sistema_espetaculos.py:185 | the start entry reads only as a storable date whose `DD/MM/YYYY` text is the stripped entry |
| Registration.EndOf | sistema_espetaculos.py:186 | the end entry reads only as a storable date whose `DD/MM/YYYY` text is the stripped entry |
| Registration.PeriodDates | sistema_espetaculos.py:197 | the expansion of a storable period lists only storable days and misses no ticked day |
| Registration.PlanDates | sistema_espetaculos.py:191-200 | an accepted plan's dates are exactly the ticked weekdays of the period, each storable, strictly ascending |
| Registration.NoMatchingDaysMeaning | sistema_espetaculos.py:197-200 | the "no session found" warning comes only when no day of the period has a ticked weekday |
| Registration.AudienceCount | sistema_espetaculos.py:253 | `int(text or 0)`: a blank entry is 0; any other accepted entry has non-blank content |
| Registration.AudienceCountMeaning | sistema_espetaculos.py:253-255 | `int(text or 0)` accepts exactly the empty entry and the integer texts, and reads a non-empty entry as `int()` does |
| Registration.AudienceCountRoundTrip | sistema_espetaculos.py:238 | a number written in an audience entry (the pre-filled `0`, a quick-fill value) reads back as that number |
| Registration.SessionOf | sistema_espetaculos.py:256-261 | a built record has `PCG+COM. = pcg + com` and `Total = pcg + com + adv`, the event, room and note, and the counts read from the entries |
| Registration.SessionOfDate | sistema_espetaculos.py:258 | a record's date text parses back to its date, and its weekday name is the date's |
| Registration.BuildSucceeds | sistema_espetaculos.py:251-255 | reading the rows succeeds exactly when every row's three counts are readable, and then gives one record per row |
| Registration.Build | sistema_espetaculos.py:251-261 | a successful read gives one record per row |
| Registration.BuildAt | sistema_espetaculos.py:251-261 | after a successful read, the record in each position is the record of the row in that position, and that row is readable |
| Registration.BuildMeaning | sistema_espetaculos.py:251-261 | the records are built exactly when every count is readable; then there is one per entry, in order, each the record of its entry |
| Registration.BuildSessions | sistema_espetaculos.py:251-261 | the append loop computes the records, or the error |
| Registration.BuildStopsAt | sistema_espetaculos.py:279-280 | an unreadable count in any prefix makes the whole save fail with the integer error |
| Registration.Numbered | database.py:21 | the rows stored for consecutive inserts: one per record, in order, with consecutive ids |
| Registration.SavedRowsConsistent | sistema_espetaculos.py:257-264 | every stored record keeps the derived-column invariant and the weekday name, so a consistent table stays consistent |
| Registration.InsertAll | sistema_espetaculos.py:263-264 | the table gains exactly the records, in order, with consecutive fresh ids |
| Registration.SaveSessions | sistema_espetaculos.py:249-264 | either every count is readable and all records are appended with consecutive fresh ids, or the table is left as it was |
| Editing.FormatUid | sistema_espetaculos.py:457 | `db|N` holds exactly one separator |
| Editing.ParseUid | sistema_espetaculos.py:529-532 | a text without exactly one `|` is refused, and an accepted one has a non-blank tail |
| Editing.UidTail | sistema_espetaculos.py:529-530 | the tag before the bar is ignored and the key reads as `int()` of its tail, so a non-integer tail is refused |
| Editing.UidRoundTrip | sistema_espetaculos.py:529-530 | parsing `db|N` gives back N |
| Editing.UidInjective | sistema_espetaculos.py:457 | different rows get different ids |
| Editing.EditedSession | sistema_espetaculos.py:560-575 | the edit is accepted exactly when the date parses and the three counts are integers; the new record is consistent, stripped, and carries the counts |
| Editing.EditedSessionDate | sistema_espetaculos.py:570-571 | the edited date is stored in its stripped text, with its weekday name |
| Editing.EditRejectsBlankCount | sistema_espetaculos.py:563-565 | unlike registration, a blank count refuses the edit |
| Editing.EditTarget | sistema_espetaculos.py:527-538 | an invalid id and an unknown id are reported as such, exactly; otherwise the row with that id is edited |
| Editing.EditTargetOfListedRow | sistema_espetaculos.py:480 | the edit button of a listed row opens that row |
| Editing.SubmitEdit | sistema_espetaculos.py:560-577 | a refused edit changes nothing; an accepted one updates exactly that id with the new record |
| Editing.DeleteByUid | sistema_espetaculos.py:586-596 | an invalid id or a declined confirmation changes nothing; a valid id with the dialog confirmed deletes exactly that id |
| History.HistoryFilters | sistema_espetaculos.py:401-410 | no search exactly when name, room and year are all empty; the name is stripped; "Todas as Salas" means no room filter; an all-digit year is a filter, anything else none |
| History.YearChoiceFilter | sistema_espetaculos.py:410 | choosing a year from the year list filters on exactly that year |
| History.NormaliseRoom | sistema_espetaculos.py:386 | "Sala Multiuso" becomes "Multiuso"; other rooms stay |
| History.LoadRow | sistema_espetaculos.py:381-386 | a row is dropped exactly when its date does not parse; a kept row has its id, its parsed date and the renamed room |
| History.LoadRows | sistema_espetaculos.py:382-383 | the loaded rows are exactly the loadable rows of the table |
| History.LoadRowsAscending | sistema_espetaculos.py:375-383 | loading keeps the table order: rows in increasing id order load in increasing id order, so each loadable row appears once |
| History.LoadedRowsWellFormed | sistema_espetaculos.py:382-386 | every loaded row has a storable date that renders as its stored text, and never the room "Sala Multiuso" |
| History.Refresh | sistema_espetaculos.py:397-412 | no search without filters; otherwise exactly the loaded rows that satisfy the filters, in table order |
| History.EventChoices | sistema_espetaculos.py:422-428 | the event selector: the prompt then each event name once, ascending; or only "Nenhum evento encontrado" |
| History.DeleteEventChecked | sistema_espetaculos.py:513-525 | the prompts and a declined confirmation change nothing; a real event with the dialog confirmed deletes exactly the sessions of that event |
| Reports.OfYear | sistema_espetaculos.py:715 | exactly the sessions of the year |
| Reports.OfYearCount | sistema_espetaculos.py:715 | each session of the year is kept as often as the table has it, and no other session is kept |
| Reports.OfYearAscending | sistema_espetaculos.py:715 | the year filter keeps the table order |
| Reports.SumWhere | sistema_espetaculos.py:773 | the `Total` sum over a group is 0 when no session is in the group, the `fill_value=0` |
| Reports.SegmentsWhere | sistema_espetaculos.py:794 | the PCG, COM and adverse column sums over a group are all 0 when no session is in the group |
| Reports.SumWhereSame | sistema_espetaculos.py:773 | two groupings that select the same sessions have the same sum |
| Reports.SumWhereSplit | sistema_espetaculos.py:782 | splitting a group into two disjoint groups splits its sum |
| Reports.SumWhereZero | sistema_espetaculos.py:801 | a group whose sessions all have a zero `Total` sums to 0 |
| Reports.SumWhereNonNegative | sistema_espetaculos.py:801 | with no negative `Total`, a group sums to at least 0, and to more than 0 when one of its sessions has a positive `Total` |
| Reports.Monthly | sistema_espetaculos.py:773 | twelve buckets |
| Reports.MonthlyPrefix | sistema_espetaculos.py:773 | the first `n` buckets sum to the sessions of months up to `n` |
| Reports.MonthlySum | sistema_espetaculos.py:773 | the twelve buckets add up to the year's total audience |
| Reports.MonthlyBucket | sistema_espetaculos.py:773 | bucket `m - 1` is month `m`'s sum, and 0 for a month without sessions |
| Reports.SemesterSum | sistema_espetaculos.py:781-782 | the two semesters add up to the year's total, and the first is the sum of January..June |
| Reports.SegmentsMakeTotal | sistema_espetaculos.py:765 | for consistent records the three segment sums add up to the total |
| Reports.SundaysIgnoreWeekdays | sistema_espetaculos.py:790 | sessions not on a Sunday do not change the Sunday chart |
| Reports.RoomNames | sistema_espetaculos.py:801 | the room column, row by row |
| Reports.RoomNamesMembers | sistema_espetaculos.py:801 | the room column holds exactly the sessions' rooms |
| Reports.RoomTotals | sistema_espetaculos.py:801 | one sum per room |
| Reports.RoomTotalsSum | sistema_espetaculos.py:801 | the sums of distinct rooms add up to the sum over all of them |
| Reports.RoomChartSum | sistema_espetaculos.py:801 | the room sums add up to the year's total |
| Reports.Grid | sistema_espetaculos.py:738-745 | twelve month rows by the three room columns |
| Reports.GridCells | sistema_espetaculos.py:738-745 | month m's row holds the Total sums of Arena, Multiuso and Mezanino in that month, in that column order, 0 for a room with no session (`fill_value=0`) |
| Reports.GridIgnoresOtherRooms | sistema_espetaculos.py:745 | a session in another room does not change the grid |
| Reports.SumOfThree | sistema_espetaculos.py:740 | a three-column row's sum |
| Reports.GridRowSum | sistema_espetaculos.py:738-745 | with every session in the three rooms, each month's row adds up to that month's bucket |
| Reports.Plot | sistema_espetaculos.py:714-815 | "Sem dados para ano" exactly when the year has no session; nothing drawn exactly for an unknown kind; the Sunday placeholder exactly when the year has no Sunday session; "Sem dados de sala" never |
| Reports.PlotMonthly | sistema_espetaculos.py:772-773 | the monthly chart: twelve buckets in month order, each its month's sum, adding up to the year's total |
| Reports.PlotSemester | sistema_espetaculos.py:780-782 | the semester chart: the halves add up to the year's total, and the first is January..June |
| Reports.PlotAnnual | sistema_espetaculos.py:764-765 | the annual chart: its bars are the year's PCG, COM and adverse column sums, which add up to the year's total for consistent records |
| Reports.PlotSundays | sistema_espetaculos.py:790-794 | the Sunday chart of a year with a Sunday session: its bars are the PCG, COM and adverse column sums over the year's Sunday sessions, which add up to their total for consistent records |
| Reports.PlotRooms | sistema_espetaculos.py:800-803 | the room chart: each room of the year once, ascending, with its sum, the sums adding up to the year's total |
| Reports.BlankYearPieFails | sistema_espetaculos.py:805-811 | a year whose sessions all have a zero `Total` (every count left blank, read as 0 at :253-255) gives room totals the pie cannot draw |
| Reports.PositiveYearPieDraws | sistema_espetaculos.py:805-811 | a year with no negative `Total` and one positive `Total` gives room totals the pie draws |
| Reports.PlotGrid | sistema_espetaculos.py:735-745 | the room-by-month chart: twelve rows, and month m's row is the year's Arena, Multiuso and Mezanino sums for month m; the row adds up to that month's bucket when every room is one of the three |
| Reports.Charts | sistema_espetaculos.py:645-674 | the missing-year error exactly when a year entry is empty; the invalid-year error exactly when both are typed and one is not an integer, before the table is read; the no-data error exactly when both are integers and no row of the table loads (an empty table, or one whose dates all fail to parse); the same invalid-year error exactly when both are integers, rows load, and either panel is a room chart the pie cannot draw (a negative total, or totals adding up to 0), as the `ValueError` handler at :673-674 catches it; otherwise the two panels are `plotar` for each year |
| Reports.ChartsOtherKinds | sistema_espetaculos.py:666-667 | for every kind but the room chart, two integer years and loaded rows always give the two panels |

## Left out

- The GUI is not modelled. This covers widgets, layout, icons, colours, status-bar messages, the debounce timers, message boxes, file dialogs, and the sorting of the history grid by date (the model keeps table order).
- The chart thread is not modelled. `Reports.Charts` is the sequential computation it performs.
- Drawing is not modelled, because it is floating-point rendering. This covers matplotlib, bar labels, the 1.18 y-limit factor and the pie percentages. The one drawing failure that changes the result is modelled: see `Reports.Charts` below.
- Reports.Charts: when `ax.pie` cannot draw a room chart, the thread shows "Digite anos válidos." and no charts; the model returns `BadYear` then (`PieFails`). The condition (a negative total, or totals adding up to 0) follows matplotlib's `pie`, which rejects negative wedge sizes and turns a zero sum into NaN percentages that `format_pie_labels` (:805-807) cannot round; matplotlib itself is not part of this model, and other library failures are left out.
- The summary line of the chart tab is not modelled, because its "Sala Mais Usada" depends on pandas' tie-break in `mode()`.
- Excel export, PDF export and file backup are not modelled, because they are file I/O. The migration script is not part of this model.
- Opening and closing connections (`_conectar`) is not modelled. Neither is any database failure behind the generic `except Exception` paths.
- SQLite's 64-bit integer columns are not modelled: counts are unbounded integers. A count above 2^63-1 passes `int()` but makes `adicionar_sessao` raise after the earlier sessions of the batch were already committed one by one (database.py:50), so "all records or none" holds only while the database accepts every insert.
- SessionTable.Database.constructor: models `criar_tabela` on a new database file. `CREATE TABLE IF NOT EXISTS` on an existing file keeps its rows and its AUTOINCREMENT counter; such a file is any `Valid()` state, which every other operation accepts.
- SQL result order is modelled as rowid order. SQLite does not promise it without `ORDER BY`.
- SessionTable.Database.Insert: a missing dictionary key or a NaN cell would be stored as NULL, and NULL columns are not modelled. Only `salvar_sessoes_editadas` supplies every key (sistema_espetaculos.py:256-261); the migration script, which is not part of this model, passes whatever columns the sheet had and copies `PCG_COM` and `Total` without recomputing them. With NULL rooms in a year, the source reaches "Sem dados de sala", which `Reports.Plot` proves unreachable for the model's rows.
- Calendar.ParseDate: only the strict two-digit day, two-digit month and four-digit year form is accepted. `strptime` also takes one-digit days and months, and pandas' `to_datetime(dayfirst=True)` in `carregar_dados` is more lenient still.
- Calendar.FormatDate: only years 1..9999 with four digits are rendered. Python's `strftime` writes years below 1000 without padding on some platforms.
- Numerals.ParseInt: covers ASCII digits, ASCII whitespace and an optional sign. Underscore separators and non-ASCII digits and spaces, which Python's `int()` also accepts, are not modelled.
- Text.Strip: strips ASCII whitespace only. Python's `str.strip()` also strips Unicode spaces.
- SqlLike.Like: case is folded for ASCII letters only, as in SQLite's default `LIKE`. `%` and `_` typed in the name filter act as wildcards; the exact meaning as containment (`SessionTable.Database.Search`) is proved only for wildcard-free names.
- Text.Digits: digits are the ASCII digits `0`..`9`. Python's `str.isdigit`, which the date mask (`DateMask.*`, sistema_espetaculos.py:125-126 and :136) filters with, also keeps other Unicode digits such as `²` or `٣`; the model drops them.
- History.HistoryFilters: `isdigit()` is taken on ASCII digits. A year typed with leading zeros is searched by its integer value, as the source does.
- History.LoadRow: the numeric coercion `pd.to_numeric(...).fillna(0)` is not modelled. The counts are integers already in the model.
- Reports.Plot: the `'Data' not in df_ano.columns` guard is not modelled. The column always exists after loading. For the room kind it returns the chart data even when the pie cannot draw it (all-zero or negative totals); `Reports.Charts` turns that case into the error the source shows.
- Reports.PlotAnnual: the three bars are proved to add up to the total only for consistent records. Every record the application writes is consistent (`Registration.SavedRowsConsistent`, `Editing.EditedSession`).
