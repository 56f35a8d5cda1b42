/**
 * Editing and deleting single sessions from the history: every history row
 * carries the key `db|<id>`, the edit window turns its seven fields into a
 * new record, and the two actions update or delete the row with that id.
 */
module Editing {
  import opened Wrappers
  import opened Text
  import opened Numerals
  import opened Calendar
  import opened SessionTable
  import opened Registration

  /** The key of a history row: the source tag `db`, a bar, and the row id. */
  function FormatUid(id: int): (u: string)
    ensures Occurrences(u, '|') == 1
  {
    IntToStringAlphabet(id);
    assert '|' !in IntToString(id);
    SplitAtSeparator("db", '|', IntToString(id));
    assert "db" + ['|'] + IntToString(id) == "db|" + IntToString(id);
    "db|" + IntToString(id)
  }

  /** `_, id_str = unique_id.split('|')` then `int(id_str)`. */
  function ParseUid(u: string): (r: Option<int>)
    ensures Occurrences(u, '|') != 1 ==> r.None?
    ensures r.Some? ==> Strip(Split(u, '|')[1]) != ""
  {
    var parts := Split(u, '|');
    if |parts| == 2 then ParseInt(parts[1]) else None
  }

  /** A key built for a row parses back to the row's id. */
  lemma UidRoundTrip(id: int)
    ensures ParseUid(FormatUid(id)) == Some(id)
  {
    IntToStringAlphabet(id);
    assert '|' !in IntToString(id);
    SplitAtSeparator("db", '|', IntToString(id));
    assert "db" + ['|'] + IntToString(id) == FormatUid(id);
    IntToStringRoundTrip(id);
  }

  /** Any tag before the bar is ignored: the key reads as `int()` of its tail. */
  lemma UidTail(tag: string, tail: string)
    requires '|' !in tag && '|' !in tail
    ensures ParseUid(tag + "|" + tail) == ParseInt(tail)
  {
    SplitAtSeparator(tag, '|', tail);
    assert tag + ['|'] + tail == tag + "|" + tail;
  }

  /** Different rows get different keys. */
  lemma UidInjective(a: int, b: int)
    requires FormatUid(a) == FormatUid(b)
    ensures a == b
  {
    UidRoundTrip(a);
    UidRoundTrip(b);
  }

  /** The fields of the edit window, as typed. */
  datatype EditForm = EditForm(name: string, date: string, room: string, pcg: string, com: string, adv: string, obs: string)

  /** The fields of the edit window read as numbers: `int()` without a blank default. */
  predicate CountsReadable(f: EditForm) {
    ParseInt(f.pcg).Some? && ParseInt(f.com).Some? && ParseInt(f.adv).Some?
  }

  /** `salvar_alteracoes`: the record written back, or nothing when the date or
      an audience field does not read. */
  function EditedSession(f: EditForm): (r: Option<Session>)
    ensures r.Some? <==> ParseDate(Strip(f.date)).Some? && CountsReadable(f)
    ensures r.Some? ==> Consistent(r.value)
    ensures r.Some? ==> r.value.nome == Strip(f.name) && r.value.sala == Strip(f.room) && r.value.obs == Strip(f.obs)
    ensures r.Some? ==> r.value.pcg == ParseInt(f.pcg).value && r.value.com == ParseInt(f.com).value
    ensures r.Some? ==> r.value.adv == ParseInt(f.adv).value
  {
    match ParseDate(Strip(f.date))
    case None => None
    case Some(d) =>
      if !CountsReadable(f) then None
      else
        var pcg, com, adv := ParseInt(f.pcg).value, ParseInt(f.com).value, ParseInt(f.adv).value;
        Some(Session(WeekdayName(d), FormatDate(d), Strip(f.name), Strip(f.room), pcg, com, adv, pcg + com, pcg + com + adv, Strip(f.obs)))
  }

  /** The stored date is the typed date (without surrounding blanks) and the
      stored weekday name is that date's. */
  lemma EditedSessionDate(f: EditForm)
    requires EditedSession(f).Some?
    ensures EditedSession(f).value.data == Strip(f.date)
    ensures DayMatchesDate(EditedSession(f).value)
  {
    var d := ParseDate(Strip(f.date)).value;
    ParseFormatRoundTrip(d);
  }

  /** Unlike registration, an empty audience field is an error when editing. */
  lemma EditRejectsBlankCount(f: EditForm)
    requires f.pcg == "" || f.com == "" || f.adv == ""
    ensures EditedSession(f).None?
  {
    assert Strip("") == "";
  }

  /** Why an edit or delete action stops without touching the table. */
  datatype ActionError =
    | InvalidId      // "ID inválido"
    | NotFound       // "Registro não encontrado"
    | BadFields      // "Verifique o formato dos campos"
    | NotConfirmed   // the confirmation dialog was answered "no"

  /** `editar_evento` before the window opens: the row the key refers to. */
  function EditTarget(rows: seq<Row>, uid: string): (r: Result<Session, ActionError>)
    ensures r == Err(InvalidId) <==> ParseUid(uid).None?
    ensures r == Err(NotFound) <==>
      ParseUid(uid).Some? && forall k :: 0 <= k < |rows| ==> rows[k].id != ParseUid(uid).value
    ensures r.Ok? ==> ParseUid(uid).Some? && Row(ParseUid(uid).value, r.value) in rows
  {
    match ParseUid(uid)
    case None => Err(InvalidId)
    case Some(id) =>
      match Lookup(rows, id)
      case None => Err(NotFound)
      case Some(s) => Ok(s)
  }

  /** The edit button of a listed row opens on exactly that row. */
  lemma EditTargetOfListedRow(rows: seq<Row>, k: int)
    requires IdsAscending(rows) && 0 <= k < |rows|
    ensures EditTarget(rows, FormatUid(rows[k].id)) == Ok(rows[k].s)
  {
    UidRoundTrip(rows[k].id);
    LookupFindsRow(rows, k);
  }

  /** `salvar_alteracoes` for the row `id` found when the window opened: the
      record replaces that row's ten columns, or nothing changes. */
  method SubmitEdit(db: Database, id: int, f: EditForm) returns (r: Result<Session, ActionError>)
    requires db.Valid()
    modifies db
    ensures db.Valid() && db.nextId == old(db.nextId)
    ensures r.Err? <==> EditedSession(f).None?
    ensures r.Err? ==> r.error == BadFields && db.rows == old(db.rows)
    ensures r.Ok? ==> r.value == EditedSession(f).value && db.rows == UpdateRows(old(db.rows), id, r.value)
  {
    var s := EditedSession(f);
    if s.None? {
      return Err(BadFields);
    }
    db.Update(id, s.value);
    return Ok(s.value);
  }

  /** `excluir_evento`: delete the row a key refers to, after confirmation. */
  method DeleteByUid(db: Database, uid: string, confirmed: bool) returns (r: Result<int, ActionError>)
    requires db.Valid()
    modifies db
    ensures db.Valid() && db.nextId == old(db.nextId)
    ensures ParseUid(uid).None? ==> r == Err(InvalidId)
    ensures ParseUid(uid).Some? && !confirmed ==> r == Err(NotConfirmed)
    ensures ParseUid(uid).Some? && confirmed ==> r == Ok(ParseUid(uid).value)
    ensures r.Err? ==> db.rows == old(db.rows)
    ensures r.Ok? ==> ParseUid(uid) == Some(r.value) && confirmed && db.rows == RemoveId(old(db.rows), r.value)
  {
    var id := ParseUid(uid);
    if id.None? {
      return Err(InvalidId);
    }
    if !confirmed {
      return Err(NotConfirmed);
    }
    db.DeleteById(id.value);
    return Ok(id.value);
  }
}
