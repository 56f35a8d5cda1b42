/**
 * The history tab: the three filter widgets become the arguments of the
 * filtered search, the rows that come back are loaded (dates parsed, the
 * old room name rewritten), and the batch delete removes every session of
 * one event.
 */
module History {
  import opened Wrappers
  import opened Text
  import opened Numerals
  import opened Calendar
  import opened StringOrder
  import opened SessionTable

  /** The room selector's entry meaning "any room". */
  const AllRooms: string := "Todas as Salas"

  /** The arguments passed to the filtered search. */
  datatype Filters = Filters(name: string, room: string, year: Option<int>)

  /** `atualizar_historico` up to the search: no search at all when every filter
      is empty, "any room" becomes no room filter, and a year that is not all
      digits becomes no year filter. */
  function HistoryFilters(nameText: string, roomChoice: string, yearText: string): (r: Option<Filters>)
    ensures r.None? <==> Strip(nameText) == "" && roomChoice == AllRooms && yearText == ""
    ensures r.Some? ==> r.value.name == Strip(nameText)
    ensures r.Some? ==> (r.value.room == "" <==> roomChoice == AllRooms || roomChoice == "")
    ensures r.Some? && r.value.room != "" ==> r.value.room == roomChoice
    ensures r.Some? ==> (r.value.year.Some? <==> yearText != "" && AllDigits(yearText))
    ensures r.Some? && r.value.year.Some? ==> r.value.year.value >= 0
  {
    var name := Strip(nameText);
    if name == "" && roomChoice == AllRooms && yearText == "" then None
    else
      var room := if roomChoice != AllRooms then roomChoice else "";
      var year := if yearText != "" && AllDigits(yearText) then Some(DigitsValue(yearText) as int) else None;
      Some(Filters(name, room, year))
  }

  /** A year picked from the list of years (digits without a leading zero)
      filters on exactly that year text: the search asks for dates ending in
      `/` followed by the same digits. */
  lemma YearChoiceFilter(nameText: string, roomChoice: string, yearText: string)
    requires |yearText| >= 1 && AllDigits(yearText) && yearText[0] != '0'
    ensures HistoryFilters(nameText, roomChoice, yearText).Some?
    ensures var f := HistoryFilters(nameText, roomChoice, yearText).value;
      HasYear(f.year) && IntToString(f.year.value) == yearText
  {
    DigitsValuePositive(yearText);
    NatToStringOfDigits(yearText);
  }

  /** A session as the history and the charts see it: its id, its parsed date,
      and its columns with the room name normalised. */
  datatype Loaded = Loaded(id: int, date: Date, s: Session)

  /** Loaded sessions in increasing id order, as the table keeps its rows. */
  predicate LoadedAscending(r: seq<Loaded>) {
    forall i, j :: 0 <= i < j < |r| ==> r[i].id < r[j].id
  }

  /** `replace('Sala Multiuso', 'Multiuso')` on the room column. */
  function NormaliseRoom(sala: string): (r: string)
    ensures r != "Sala Multiuso"
    ensures sala != "Sala Multiuso" ==> r == sala
  {
    if sala == "Sala Multiuso" then "Multiuso" else sala
  }

  /** One row of `carregar_dados`: dropped when its date does not parse. */
  function LoadRow(row: Row): (r: Option<Loaded>)
    ensures r.None? <==> ParseDate(row.s.data).None?
    ensures r.Some? ==> r.value.id == row.id && Storable(r.value.date) && FormatDate(r.value.date) == row.s.data
    ensures r.Some? ==> r.value.s == row.s.(sala := NormaliseRoom(row.s.sala))
  {
    match ParseDate(row.s.data)
    case None => None
    case Some(d) => Some(Loaded(row.id, d, row.s.(sala := NormaliseRoom(row.s.sala))))
  }

  /** `carregar_dados`: the rows whose date parses, in table order. */
  function LoadRows(rows: seq<Row>): (r: seq<Loaded>)
    ensures |r| <= |rows|
    ensures forall y :: y in r <==> exists x :: x in rows && LoadRow(x) == Some(y)
  {
    if |rows| == 0 then []
    else
      var tail := LoadRows(rows[1..]);
      assert forall x :: x in rows <==> x == rows[0] || x in rows[1..];
      match LoadRow(rows[0])
      case None => tail
      case Some(y) => [y] + tail
  }

  /** Loading keeps every id above a bound that the table's ids are above. */
  lemma {:induction false} LoadRowsAbove(rows: seq<Row>, bound: int)
    requires forall k :: 0 <= k < |rows| ==> bound < rows[k].id
    ensures forall i :: 0 <= i < |LoadRows(rows)| ==> bound < LoadRows(rows)[i].id
  {
    if |rows| > 0 {
      LoadRowsAbove(rows[1..], bound);
    }
  }

  /** Loading keeps table order: rows in increasing id order load in increasing id order. */
  lemma {:induction false} LoadRowsAscending(rows: seq<Row>)
    requires IdsAscending(rows)
    ensures LoadedAscending(LoadRows(rows))
  {
    if |rows| > 0 {
      var tail := LoadRows(rows[1..]);
      LoadRowsAscending(rows[1..]);
      LoadRowsAbove(rows[1..], rows[0].id);
      match LoadRow(rows[0])
      case None =>
        assert LoadRows(rows) == tail;
      case Some(y) =>
        assert LoadRows(rows) == [y] + tail;
        AscendingCons(y, tail);
    }
  }

  lemma AscendingCons(y: Loaded, tail: seq<Loaded>)
    requires LoadedAscending(tail)
    requires forall i :: 0 <= i < |tail| ==> y.id < tail[i].id
    ensures LoadedAscending([y] + tail)
  {
    var r := [y] + tail;
    forall i, j | 0 <= i < j < |r| ensures r[i].id < r[j].id {
      assert r[j] == tail[j - 1];
      if i > 0 {
        assert r[i] == tail[i - 1];
      }
    }
  }

  /** Every loaded row has a valid date, the new room name, and an id of the table. */
  lemma LoadedRowsWellFormed(rows: seq<Row>, y: Loaded)
    requires y in LoadRows(rows)
    ensures Storable(y.date) && y.s.sala != "Sala Multiuso"
    ensures exists x :: x in rows && x.id == y.id && FormatDate(y.date) == x.s.data
  {
    var x :| x in rows && LoadRow(x) == Some(y);
  }

  /** `atualizar_historico` as far as the table: no search when every filter is
      empty; otherwise the loaded rows of the filtered search. */
  method Refresh(db: Database, nameText: string, roomChoice: string, yearText: string)
    returns (r: Option<seq<Loaded>>)
    requires db.Valid()
    ensures r.None? <==> HistoryFilters(nameText, roomChoice, yearText).None?
    ensures r.Some? ==>
      var f := HistoryFilters(nameText, roomChoice, yearText).value;
      forall y :: y in r.value <==> exists x :: x in db.rows && SqlFilters(x, f.name, f.room, f.year) && LoadRow(x) == Some(y)
    ensures r.Some? ==> LoadedAscending(r.value)
  {
    var filters := HistoryFilters(nameText, roomChoice, yearText);
    if filters.None? {
      return None;
    }
    var f := filters.value;
    var found := db.Search(f.name, f.room, f.year);
    var loaded := LoadRows(found);
    LoadRowsAscending(found);
    return Some(loaded);
  }

  /** The entries of the event selector for the batch delete. */
  const ChooseEvent: string := "Selecione um evento"
  const NoEventFound: string := "Nenhum evento encontrado"
  const NoEventInSearch: string := "Nenhum evento na busca"

  /** The event selector after a refresh: a prompt followed by the distinct event
      names in ascending order, or a single "no event" entry. */
  function EventChoices(loaded: seq<Loaded>): (r: seq<string>)
    ensures |loaded| == 0 ==> r == [NoEventFound]
    ensures |loaded| > 0 ==> |r| >= 2 && r[0] == ChooseEvent && Ascending(r[1..])
    ensures |loaded| > 0 ==> forall n :: n in r[1..] <==> exists k :: 0 <= k < |loaded| && loaded[k].s.nome == n
  {
    if |loaded| == 0 then [NoEventFound]
    else
      var names := seq(|loaded|, k requires 0 <= k < |loaded| => loaded[k].s.nome);
      var sorted := SortedSet(names);
      assert names[0] in sorted;
      forall n | n in names ensures exists k :: 0 <= k < |loaded| && loaded[k].s.nome == n {
        var k :| 0 <= k < |names| && names[k] == n;
      }
      forall k | 0 <= k < |loaded| ensures loaded[k].s.nome in names {
        assert names[k] == loaded[k].s.nome;
      }
      var r := [ChooseEvent] + sorted;
      assert r[1..] == sorted;
      r
  }

  /** Why a batch delete did not run. */
  datatype BatchError = NoEventChosen | NotConfirmed

  /** A selector entry that is not an event name. */
  predicate IsPlaceholder(chosen: string) {
    chosen == "" || chosen == ChooseEvent || chosen == NoEventFound || chosen == NoEventInSearch
  }

  /** `excluir_evento_em_lote` of the history tab: refuse the prompts, ask for
      confirmation, then delete every session of the chosen event. */
  method DeleteEventChecked(db: Database, chosen: string, confirmed: bool) returns (r: Result<string, BatchError>)
    requires db.Valid()
    modifies db
    ensures db.Valid() && db.nextId == old(db.nextId)
    ensures IsPlaceholder(chosen) ==> r == Err(NoEventChosen)
    ensures !IsPlaceholder(chosen) && !confirmed ==> r == Err(NotConfirmed)
    ensures !IsPlaceholder(chosen) && confirmed ==> r == Ok(chosen)
    ensures r.Err? ==> db.rows == old(db.rows)
    ensures r.Ok? ==> r.value == chosen && db.rows == RemoveEvent(old(db.rows), chosen)
  {
    if IsPlaceholder(chosen) {
      return Err(NoEventChosen);
    }
    if !confirmed {
      return Err(NotConfirmed);
    }
    db.DeleteEvent(chosen);
    return Ok(chosen);
  }
}
