/**
 * Registering an event: the form (name, room, start and end dates, ticked
 * weekdays) is checked and expanded into one session per matching day; the
 * audience entered for each session is then read and all sessions are
 * stored, or none are.
 */
module Registration {
  import opened Wrappers
  import opened Text
  import opened Numerals
  import opened Calendar
  import opened SessionTable

  /** The labels of the weekday check boxes, in `DIAS_SEMANA_MAP` order (index = weekday number). */
  const DayLabels: seq<string> := ["Segunda", "Terça", "Quarta", "Quinta", "Sexta", "Sábado", "Domingo"]

  /** The room selector's placeholder, meaning that no room was chosen. */
  const NoRoomChosen: string := "Selecione a Sala"

  /** The weekday numbers of the ticked check boxes. */
  function TickedDays(ticked: set<string>): (days: set<int>)
    ensures forall w :: w in days <==> 0 <= w < 7 && DayLabels[w] in ticked
  {
    set w | 0 <= w < 7 && DayLabels[w] in ticked
  }

  /** Every day from `start` to `end` inclusive whose weekday is in `days`, in calendar order. */
  function SessionDates(start: Date, end: Date, days: set<int>): (r: seq<Date>)
    requires Valid(start) && Valid(end)
    ensures forall i :: 0 <= i < |r| ==>
      Valid(r[i]) && Ordinal(start) <= Ordinal(r[i]) <= Ordinal(end) && Weekday(r[i]) in days
    ensures forall i, j :: 0 <= i < j < |r| ==> Ordinal(r[i]) < Ordinal(r[j])
    decreases Ordinal(end) - Ordinal(start)
  {
    if Ordinal(end) < Ordinal(start) then []
    else
      var rest := if Ordinal(start) == Ordinal(end) then [] else SessionDates(NextDay(start), end, days);
      if Weekday(start) in days then [start] + rest else rest
  }

  /** No matching day of the period is missed. */
  lemma {:induction false} SessionDatesComplete(start: Date, end: Date, days: set<int>, d: Date)
    requires Valid(start) && Valid(end) && Valid(d)
    requires Ordinal(start) <= Ordinal(d) <= Ordinal(end) && Weekday(d) in days
    ensures d in SessionDates(start, end, days)
    decreases Ordinal(end) - Ordinal(start)
  {
    if Ordinal(d) == Ordinal(start) {
      OrdinalInjective(d, start);
    } else {
      SessionDatesComplete(NextDay(start), end, days, d);
    }
  }

  /** Every day of a period no later than a storable end date is itself storable. */
  lemma PeriodStorable(start: Date, end: Date, d: Date)
    requires Storable(start) && Storable(end) && Valid(d)
    requires Ordinal(d) <= Ordinal(end)
    ensures Storable(d)
  {
    YearNotAfter(d, end);
  }

  /** The registration form as read from its widgets. */
  datatype Form = Form(name: string, room: string, startText: string, endText: string, ticked: set<string>)

  /** The four messages that stop a registration before the audience window opens. */
  datatype FormError =
    | BadFormat        // "Erro de Formato": a date is not DD/MM/YYYY
    | MissingFields    // "Campos Obrigatórios": no name, no room or no weekday
    | StartAfterEnd    // "Erro de Data"
    | NoMatchingDays   // "Aviso": no day of the period has a ticked weekday

  /** An accepted form: the event, its room and the days that get a session. */
  datatype Plan = Plan(name: string, room: string, start: Date, end: Date, days: set<int>, dates: seq<Date>)

  /** The start date entry, stripped and read as DD/MM/YYYY. */
  function StartOf(form: Form): (r: Option<Date>)
    ensures r.Some? ==> Storable(r.value) && FormatDate(r.value) == Strip(form.startText)
  {
    ParseDate(Strip(form.startText))
  }

  /** The end date entry, stripped and read as DD/MM/YYYY. */
  function EndOf(form: Form): (r: Option<Date>)
    ensures r.Some? ==> Storable(r.value) && FormatDate(r.value) == Strip(form.endText)
  {
    ParseDate(Strip(form.endText))
  }

  /** `abrir_janela_edicao_publico` up to the opening of the audience window. */
  function PlanSessions(form: Form): (r: Result<Plan, FormError>)
    ensures r == Err(BadFormat) <==> StartOf(form).None? || EndOf(form).None?
    ensures r == Err(MissingFields) ==>
      Strip(form.name) == "" || form.room == NoRoomChosen || TickedDays(form.ticked) == {}
    ensures r == Err(StartAfterEnd) ==> Before(EndOf(form).value, StartOf(form).value)
    ensures StartOf(form).Some? && EndOf(form).Some?
      && (Strip(form.name) == "" || form.room == NoRoomChosen || TickedDays(form.ticked) == {})
      ==> r == Err(MissingFields)
    ensures StartOf(form).Some? && EndOf(form).Some?
      && Strip(form.name) != "" && form.room != NoRoomChosen && TickedDays(form.ticked) != {}
      && Before(EndOf(form).value, StartOf(form).value)
      ==> r == Err(StartAfterEnd)
    ensures r == Err(NoMatchingDays) ==>
      !Before(EndOf(form).value, StartOf(form).value)
      && SessionDates(StartOf(form).value, EndOf(form).value, TickedDays(form.ticked)) == []
    ensures r.Ok? ==>
      && StartOf(form) == Some(r.value.start) && EndOf(form) == Some(r.value.end)
      && !Before(r.value.end, r.value.start)
      && r.value.name == Strip(form.name) && r.value.name != ""
      && r.value.room == form.room && r.value.room != NoRoomChosen
      && r.value.days == TickedDays(form.ticked) && r.value.dates != []
  {
    var name := Strip(form.name);
    match (StartOf(form), EndOf(form))
    case (Some(start), Some(end)) =>
      var days := TickedDays(form.ticked);
      if name == "" || form.room == NoRoomChosen || days == {} then Err(MissingFields)
      else if Before(end, start) then Err(StartAfterEnd)
      else
        var dates := SessionDates(start, end, days);
        if dates == [] then Err(NoMatchingDays)
        else Ok(Plan(name, form.room, start, end, days, dates))
    case _ => Err(BadFormat)
  }

  /** The days of a storable period with a ticked weekday: storable, and every one of them is listed. */
  lemma PeriodDates(start: Date, end: Date, days: set<int>)
    requires Storable(start) && Storable(end)
    ensures var r := SessionDates(start, end, days);
      && (forall i :: 0 <= i < |r| ==> Storable(r[i]))
      && (forall d :: Valid(d) && Ordinal(start) <= Ordinal(d) <= Ordinal(end) && Weekday(d) in days ==> d in r)
  {
    var r := SessionDates(start, end, days);
    forall i | 0 <= i < |r| ensures Storable(r[i]) {
      PeriodStorable(start, end, r[i]);
    }
    forall d | Valid(d) && Ordinal(start) <= Ordinal(d) <= Ordinal(end) && Weekday(d) in days
      ensures d in r {
      SessionDatesComplete(start, end, days, d);
    }
  }

  /** The planned sessions are exactly the ticked weekdays of the period, once each, in calendar order. */
  lemma PlanDates(form: Form)
    requires PlanSessions(form).Ok?
    ensures var p := PlanSessions(form).value;
      && (forall i :: 0 <= i < |p.dates| ==>
            && Storable(p.dates[i])
            && Ordinal(p.start) <= Ordinal(p.dates[i]) <= Ordinal(p.end)
            && Weekday(p.dates[i]) in p.days)
      && (forall i, j :: 0 <= i < j < |p.dates| ==> Ordinal(p.dates[i]) < Ordinal(p.dates[j]))
      && (forall d :: Valid(d) && Ordinal(p.start) <= Ordinal(d) <= Ordinal(p.end) && Weekday(d) in p.days
            ==> d in p.dates)
  {
    var p := PlanSessions(form).value;
    assert p.dates == SessionDates(p.start, p.end, p.days);
    PeriodDates(p.start, p.end, p.days);
  }

  /** The warning "no session found" is given only when no day of the period has a ticked weekday. */
  lemma NoMatchingDaysMeaning(form: Form, d: Date)
    requires PlanSessions(form) == Err(NoMatchingDays)
    requires Valid(d)
    ensures StartOf(form).Some? && EndOf(form).Some?
    ensures Ordinal(StartOf(form).value) <= Ordinal(d) <= Ordinal(EndOf(form).value) ==>
      Weekday(d) !in TickedDays(form.ticked)
  {
    var start, end := StartOf(form).value, EndOf(form).value;
    if Ordinal(start) <= Ordinal(d) <= Ordinal(end) && Weekday(d) in TickedDays(form.ticked) {
      SessionDatesComplete(start, end, TickedDays(form.ticked), d);
    }
  }

  /** `int(text or 0)`: an empty entry counts as zero; anything else must be an integer. */
  function AudienceCount(text: string): (r: Option<int>)
    ensures text == "" ==> r == Some(0)
    ensures r.Some? && text != "" ==> Strip(text) != ""
  {
    if text == "" then Some(0) else ParseInt(text)
  }

  /** An audience entry is accepted exactly when it is empty or an integer text,
      and a non-empty entry reads as `int()` reads it. */
  lemma AudienceCountMeaning(text: string)
    ensures AudienceCount(text).Some? <==> text == "" || IsIntegerText(Strip(text))
    ensures text != "" ==> AudienceCount(text) == ParseInt(text)
  {
    ParseIntMeaning(text);
  }

  /** A number written into an audience entry reads back as that number. */
  lemma AudienceCountRoundTrip(n: int)
    ensures AudienceCount(IntToString(n)) == Some(n)
  {
    IntToStringRoundTrip(n);
  }

  /** One row of the audience window: the session's day and its three entry texts. */
  datatype Entry = Entry(date: Date, pcg: string, com: string, adv: string)

  /** The three entries of a row hold integers (or are empty). */
  predicate Readable(e: Entry) {
    AudienceCount(e.pcg).Some? && AudienceCount(e.com).Some? && AudienceCount(e.adv).Some?
  }

  /** The derived columns agree with the audiences: PCG+COM and the total. */
  predicate Consistent(s: Session) {
    s.pcgCom == s.pcg + s.com && s.total == s.pcgCom + s.adv
  }

  /** The stored date is a valid DD/MM/YYYY text and the stored weekday name is its weekday. */
  predicate DayMatchesDate(s: Session) {
    ParseDate(s.data).Some? && s.dia == WeekdayName(ParseDate(s.data).value)
  }

  /** The record stored for one row of the audience window. */
  function SessionOf(e: Entry, name: string, room: string, obs: string): (s: Session)
    requires Storable(e.date) && Readable(e)
    ensures Consistent(s)
    ensures s.nome == name && s.sala == room && s.obs == obs
    ensures s.pcg == AudienceCount(e.pcg).value && s.com == AudienceCount(e.com).value
    ensures s.adv == AudienceCount(e.adv).value
  {
    var pcg := AudienceCount(e.pcg).value;
    var com := AudienceCount(e.com).value;
    var adv := AudienceCount(e.adv).value;
    Session(WeekdayName(e.date), FormatDate(e.date), name, room, pcg, com, adv, pcg + com, pcg + com + adv, obs)
  }

  /** The stored date text reads back as the session's day, and the stored
      weekday name is that day's. */
  lemma SessionOfDate(e: Entry, name: string, room: string, obs: string)
    requires Storable(e.date) && Readable(e)
    ensures ParseDate(SessionOf(e, name, room, obs).data) == Some(e.date)
    ensures DayMatchesDate(SessionOf(e, name, room, obs))
  {
    ParseFormatRoundTrip(e.date);
  }

  /** The error of `salvar_sessoes_editadas`: an audience entry is not an integer. */
  datatype SaveError = NotAnInteger

  /** Every row of the audience window has readable counts. */
  predicate AllReadable(entries: seq<Entry>) {
    forall i :: 0 <= i < |entries| ==> Readable(entries[i])
  }

  /** What reading the rows of the audience window one after the other yields:
      the records in row order, or the error as soon as an entry is not an
      integer (`int()` raises, and nothing is kept). */
  function Build(entries: seq<Entry>, name: string, room: string, obs: string): (r: Result<seq<Session>, SaveError>)
    requires forall i :: 0 <= i < |entries| ==> Storable(entries[i].date)
    ensures r.Ok? ==> |r.value| == |entries|
  {
    if |entries| == 0 then Ok([])
    else
      var last := entries[|entries| - 1];
      var prior := Build(entries[..|entries| - 1], name, room, obs);
      if prior.Err? || !Readable(last) then Err(NotAnInteger)
      else Ok(prior.value + [SessionOf(last, name, room, obs)])
  }

  /** A readable window has a readable prefix. */
  lemma AllReadablePrefix(entries: seq<Entry>, n: nat)
    requires n <= |entries| && AllReadable(entries)
    ensures AllReadable(entries[..n])
  {
    forall k | 0 <= k < n ensures Readable(entries[..n][k]) {
      assert entries[..n][k] == entries[k];
    }
  }

  /** A readable prefix followed by a readable row is readable. */
  lemma AllReadableExtend(entries: seq<Entry>)
    requires |entries| > 0
    requires AllReadable(entries[..|entries| - 1]) && Readable(entries[|entries| - 1])
    ensures AllReadable(entries)
  {
    var init := entries[..|entries| - 1];
    forall k | 0 <= k < |entries| ensures Readable(entries[k]) {
      if k < |init| {
        assert init[k] == entries[k];
      }
    }
  }

  /** Reading succeeds exactly when every row is readable, and then yields one record per row. */
  lemma {:induction false} BuildSucceeds(entries: seq<Entry>, name: string, room: string, obs: string)
    requires forall i :: 0 <= i < |entries| ==> Storable(entries[i].date)
    ensures Build(entries, name, room, obs).Ok? <==> AllReadable(entries)
    ensures Build(entries, name, room, obs).Ok? ==> |Build(entries, name, room, obs).value| == |entries|
  {
    if |entries| > 0 {
      var init, last := entries[..|entries| - 1], entries[|entries| - 1];
      BuildSucceeds(init, name, room, obs);
      if AllReadable(entries) {
        AllReadablePrefix(entries, |init|);
      }
      if AllReadable(init) && Readable(last) {
        AllReadableExtend(entries);
      }
    }
  }

  /** The record in position `i` is the record of row `i`. */
  lemma {:induction false} BuildAt(entries: seq<Entry>, i: int, name: string, room: string, obs: string)
    requires forall k :: 0 <= k < |entries| ==> Storable(entries[k].date)
    requires Build(entries, name, room, obs).Ok?
    requires 0 <= i < |entries|
    ensures Readable(entries[i])
    ensures |Build(entries, name, room, obs).value| == |entries|
    ensures Build(entries, name, room, obs).value[i] == SessionOf(entries[i], name, room, obs)
  {
    var init := entries[..|entries| - 1];
    BuildSucceeds(init, name, room, obs);
    if i < |entries| - 1 {
      BuildAt(init, i, name, room, obs);
      assert init[i] == entries[i];
    }
  }

  /** Reading succeeds exactly when every row is readable, and then yields one session per row. */
  lemma BuildMeaning(entries: seq<Entry>, name: string, room: string, obs: string)
    requires forall i :: 0 <= i < |entries| ==> Storable(entries[i].date)
    ensures Build(entries, name, room, obs).Ok? <==> forall i :: 0 <= i < |entries| ==> Readable(entries[i])
    ensures Build(entries, name, room, obs).Ok? ==>
      var sessions := Build(entries, name, room, obs).value;
      |sessions| == |entries| &&
      forall i :: 0 <= i < |entries| ==> sessions[i] == SessionOf(entries[i], name, room, obs)
  {
    BuildSucceeds(entries, name, room, obs);
    if Build(entries, name, room, obs).Ok? {
      forall i | 0 <= i < |entries|
        ensures Build(entries, name, room, obs).value[i] == SessionOf(entries[i], name, room, obs)
      {
        BuildAt(entries, i, name, room, obs);
      }
    }
  }

  /** Once a prefix of the rows fails to read, the whole window does. */
  lemma {:induction false} BuildStopsAt(entries: seq<Entry>, n: nat, name: string, room: string, obs: string)
    requires forall k :: 0 <= k < |entries| ==> Storable(entries[k].date)
    requires n <= |entries|
    requires Build(entries[..n], name, room, obs).Err?
    ensures Build(entries, name, room, obs).Err?
    decreases |entries| - n
  {
    if n < |entries| {
      var next := entries[..n + 1];
      assert next[..n] == entries[..n];
      BuildStopsAt(entries, n + 1, name, room, obs);
    } else {
      assert entries[..n] == entries;
    }
  }

  /** The first loop of `salvar_sessoes_editadas`: read every row before anything is stored. */
  method BuildSessions(entries: seq<Entry>, name: string, room: string, obs: string)
    returns (r: Result<seq<Session>, SaveError>)
    requires forall i :: 0 <= i < |entries| ==> Storable(entries[i].date)
    ensures r == Build(entries, name, room, obs)
  {
    var sessions: seq<Session> := [];
    var i := 0;
    while i < |entries|
      invariant 0 <= i <= |entries|
      invariant Build(entries[..i], name, room, obs) == Ok(sessions)
    {
      var e := entries[i];
      var next := entries[..i + 1];
      assert next[..i] == entries[..i] && next[i] == e;
      if !Readable(e) {
        BuildStopsAt(entries, i + 1, name, room, obs);
        return Err(NotAnInteger);
      }
      sessions := sessions + [SessionOf(e, name, room, obs)];
      i := i + 1;
    }
    assert entries[..i] == entries;
    return Ok(sessions);
  }

  /** The rows appended for `sessions` when the next free id is `first`. */
  function Numbered(first: int, sessions: seq<Session>): (rows: seq<Row>)
    ensures |rows| == |sessions|
    ensures forall k :: 0 <= k < |rows| ==> rows[k] == Row(first + k, sessions[k])
  {
    seq(|sessions|, k requires 0 <= k < |sessions| => Row(first + k, sessions[k]))
  }

  /** Every stored session keeps its derived columns consistent. */
  predicate AllConsistent(rows: seq<Row>) {
    forall k :: 0 <= k < |rows| ==> Consistent(rows[k].s)
  }

  /** Saving a readable window adds only consistent rows whose dates read back. */
  lemma SavedRowsConsistent(rows: seq<Row>, first: int, entries: seq<Entry>, name: string, room: string, obs: string)
    requires forall i :: 0 <= i < |entries| ==> Storable(entries[i].date)
    requires Build(entries, name, room, obs).Ok?
    ensures var added := Numbered(first, Build(entries, name, room, obs).value);
      && (forall k :: 0 <= k < |added| ==> Consistent(added[k].s) && DayMatchesDate(added[k].s))
      && (AllConsistent(rows) ==> AllConsistent(rows + added))
  {
    BuildMeaning(entries, name, room, obs);
    var added := Numbered(first, Build(entries, name, room, obs).value);
    forall k | 0 <= k < |added| ensures DayMatchesDate(added[k].s) {
      SessionOfDate(entries[k], name, room, obs);
    }
  }

  /** The second loop of `salvar_sessoes_editadas`: one `adicionar_sessao` per session, in order. */
  method InsertAll(db: Database, sessions: seq<Session>)
    requires db.Valid()
    modifies db
    ensures db.Valid()
    ensures db.rows == old(db.rows) + Numbered(old(db.nextId), sessions)
    ensures db.nextId == old(db.nextId) + |sessions|
  {
    ghost var before := db.rows;
    ghost var first := db.nextId;
    var i := 0;
    while i < |sessions|
      invariant 0 <= i <= |sessions|
      invariant db.Valid()
      invariant db.rows == before + Numbered(first, sessions[..i])
      invariant db.nextId == first + i
    {
      assert Numbered(first, sessions[..i + 1]) == Numbered(first, sessions[..i]) + [Row(first + i, sessions[i])];
      db.Insert(sessions[i]);
      i := i + 1;
    }
    assert sessions[..i] == sessions;
  }

  /** `salvar_sessoes_editadas`: all sessions are stored, one new row each with
      consecutive fresh ids, or (when an entry is not an integer) none is. */
  method SaveSessions(db: Database, entries: seq<Entry>, name: string, room: string, obs: string)
    returns (r: Result<nat, SaveError>)
    requires db.Valid()
    requires forall i :: 0 <= i < |entries| ==> Storable(entries[i].date)
    modifies db
    ensures db.Valid()
    ensures r.Ok? == Build(entries, name, room, obs).Ok?
    ensures r.Err? ==> db.rows == old(db.rows) && db.nextId == old(db.nextId)
    ensures r.Ok? ==>
      && r.value == |Build(entries, name, room, obs).value|
      && db.rows == old(db.rows) + Numbered(old(db.nextId), Build(entries, name, room, obs).value)
      && db.nextId == old(db.nextId) + r.value
  {
    var built := BuildSessions(entries, name, room, obs);
    if built.Err? {
      return Err(built.error);
    }
    InsertAll(db, built.value);
    return Ok(|built.value|);
  }
}
