/**
 * The `sessoes` table of the local SQLite store and the `Database` class
 * that reads and writes it. The table is held in memory: the rows in rowid
 * order and the AUTOINCREMENT counter (the next id to hand out).
 */
module SessionTable {
  import opened Wrappers
  import opened Numerals
  import opened SqlLike
  import opened StringOrder

  /** The ten stored columns of a session, in the order of the schema. */
  datatype Session = Session(
    dia: string,      // dia_semana
    data: string,     // data, DD/MM/YYYY
    nome: string,     // nome_evento
    sala: string,     // sala
    pcg: int,         // publico_pcg
    com: int,         // publico_comerciario
    adv: int,         // publico_adversos
    pcgCom: int,      // pcg_com
    total: int,       // total
    obs: string)      // observacoes

  datatype Row = Row(id: int, s: Session)

  /** Rows are kept in increasing id order; in particular no id occurs twice. */
  predicate IdsAscending(rows: seq<Row>) {
    forall i, j :: 0 <= i < j < |rows| ==> rows[i].id < rows[j].id
  }

  /** `SELECT * FROM sessoes WHERE id = ?` followed by `fetchone()`. */
  function Lookup(rows: seq<Row>, id: int): (r: Option<Session>)
    ensures r.None? <==> forall k :: 0 <= k < |rows| ==> rows[k].id != id
    ensures r.Some? ==> Row(id, r.value) in rows
  {
    if |rows| == 0 then None
    else if rows[0].id == id then Some(rows[0].s)
    else
      var r := Lookup(rows[1..], id);
      assert forall k :: 1 <= k < |rows| ==> rows[k] == rows[1..][k - 1];
      r
  }

  /** With unique ids, looking up a row's id finds exactly that row. */
  lemma {:induction false} LookupFindsRow(rows: seq<Row>, k: int)
    requires IdsAscending(rows) && 0 <= k < |rows|
    ensures Lookup(rows, rows[k].id) == Some(rows[k].s)
  {
    if k > 0 {
      assert rows[0].id < rows[k].id;
      assert rows[1..][k - 1] == rows[k];
      LookupFindsRow(rows[1..], k - 1);
    }
  }

  /** `UPDATE sessoes SET <ten columns> WHERE id = ?`. */
  function UpdateRows(rows: seq<Row>, id: int, s: Session): (r: seq<Row>)
    ensures |r| == |rows|
    ensures forall k :: 0 <= k < |r| ==> r[k].id == rows[k].id
  {
    seq(|rows|, k requires 0 <= k < |rows| => if rows[k].id == id then Row(id, s) else rows[k])
  }

  /** After an update the targeted row reads back with the new columns, and
      every other id reads back as before. */
  lemma UpdateReadBack(rows: seq<Row>, id: int, s: Session, other: int)
    requires IdsAscending(rows)
    ensures IdsAscending(UpdateRows(rows, id, s))
    ensures Lookup(UpdateRows(rows, id, s), id) == if Lookup(rows, id).Some? then Some(s) else None
    ensures other != id ==> Lookup(UpdateRows(rows, id, s), other) == Lookup(rows, other)
  {
    var r := UpdateRows(rows, id, s);
    assert IdsAscending(r);
    UpdateReadsBackAt(rows, id, s, id);
    if other != id {
      UpdateReadsBackAt(rows, id, s, other);
    }
  }

  lemma UpdateReadsBackAt(rows: seq<Row>, id: int, s: Session, key: int)
    requires IdsAscending(rows)
    ensures Lookup(UpdateRows(rows, id, s), key) ==
      match Lookup(rows, key)
      case None => None
      case Some(old_s) => Some(if key == id then s else old_s)
  {
    var r := UpdateRows(rows, id, s);
    assert IdsAscending(r);
    match Lookup(rows, key)
    case None =>
    case Some(old_s) =>
      var k :| 0 <= k < |rows| && rows[k] == Row(key, old_s);
      assert r[k] == Row(key, if key == id then s else old_s);
      LookupFindsRow(r, k);
  }

  /** Updating an id that is not in the table changes nothing. */
  lemma UpdateAbsentIsNoOp(rows: seq<Row>, id: int, s: Session)
    requires Lookup(rows, id).None?
    ensures UpdateRows(rows, id, s) == rows
  {
  }

  /** `DELETE FROM sessoes WHERE id = ?`. */
  function RemoveId(rows: seq<Row>, id: int): (r: seq<Row>)
    ensures forall x :: x in r <==> x in rows && x.id != id
    ensures IdsAscending(rows) ==> IdsAscending(r)
    ensures |r| <= |rows|
  {
    if |rows| == 0 then []
    else
      var tail := RemoveId(rows[1..], id);
      assert forall x :: x in rows <==> x == rows[0] || x in rows[1..];
      assert IdsAscending(rows) ==> forall x :: x in rows[1..] ==> rows[0].id < x.id;
      if rows[0].id == id then tail else [rows[0]] + tail
  }

  /** `DELETE FROM sessoes WHERE nome_evento = ?`. */
  function RemoveEvent(rows: seq<Row>, name: string): (r: seq<Row>)
    ensures forall x :: x in r <==> x in rows && x.s.nome != name
    ensures IdsAscending(rows) ==> IdsAscending(r)
    ensures |r| <= |rows|
  {
    if |rows| == 0 then []
    else
      var tail := RemoveEvent(rows[1..], name);
      assert forall x :: x in rows <==> x == rows[0] || x in rows[1..];
      assert IdsAscending(rows) ==> forall x :: x in rows[1..] ==> rows[0].id < x.id;
      if rows[0].s.nome == name then tail else [rows[0]] + tail
  }

  /** After deleting an id it no longer reads back; every other id reads back as before. */
  lemma RemoveIdReadBack(rows: seq<Row>, id: int, other: int)
    requires IdsAscending(rows)
    ensures Lookup(RemoveId(rows, id), id).None?
    ensures other != id ==> Lookup(RemoveId(rows, id), other) == Lookup(rows, other)
  {
    var r := RemoveId(rows, id);
    if other != id {
      if Lookup(rows, other).Some? {
        var x := Row(other, Lookup(rows, other).value);
        assert x in r;
        var k :| 0 <= k < |r| && r[k] == x;
        LookupFindsRow(r, k);
      }
    }
  }

  /** One condition of a `WHERE` clause built by the filtered search. */
  datatype Condition =
    | NameLike(pattern: string)    // nome_evento LIKE ?
    | SalaEquals(sala: string)     // sala = ?
    | DataLike(pattern: string)    // data LIKE ?

  predicate Holds(c: Condition, row: Row) {
    match c
    case NameLike(p) => Like(row.s.nome, p)
    case SalaEquals(v) => row.s.sala == v
    case DataLike(p) => Like(row.s.data, p)
  }

  predicate AllHold(conds: seq<Condition>, row: Row) {
    forall i :: 0 <= i < |conds| ==> Holds(conds[i], row)
  }

  /** `SELECT * FROM sessoes WHERE c1 AND c2 ...` (no `WHERE` when there are no conditions). */
  function Where(rows: seq<Row>, conds: seq<Condition>): (r: seq<Row>)
    ensures forall x :: x in r <==> x in rows && AllHold(conds, x)
    ensures IdsAscending(rows) ==> IdsAscending(r)
  {
    if |rows| == 0 then []
    else
      var tail := Where(rows[1..], conds);
      assert forall x :: x in rows <==> x == rows[0] || x in rows[1..];
      assert IdsAscending(rows) ==> forall x :: x in rows[1..] ==> rows[0].id < x.id;
      if AllHold(conds, rows[0]) then [rows[0]] + tail else tail
  }

  /** A `WHERE` clause every row satisfies returns the whole table, in order. */
  lemma {:induction false} WhereKeepsAll(rows: seq<Row>, conds: seq<Condition>)
    requires forall k :: 0 <= k < |rows| ==> AllHold(conds, rows[k])
    ensures Where(rows, conds) == rows
  {
    if |rows| > 0 {
      assert forall k :: 0 <= k < |rows[1..]| ==> rows[1..][k] == rows[k + 1];
      WhereKeepsAll(rows[1..], conds);
      assert [rows[0]] + rows[1..] == rows;
    }
  }

  lemma AllHoldAppend(conds: seq<Condition>, c: Condition, x: Row)
    ensures AllHold(conds + [c], x) <==> AllHold(conds, x) && Holds(c, x)
  {
    if AllHold(conds, x) && Holds(c, x) {
      forall i | 0 <= i < |conds + [c]| ensures Holds((conds + [c])[i], x) {
        if i < |conds| { assert (conds + [c])[i] == conds[i]; }
      }
    }
    if AllHold(conds + [c], x) {
      assert Holds((conds + [c])[|conds|], x);
      forall i | 0 <= i < |conds| ensures Holds(conds[i], x) {
        assert (conds + [c])[i] == conds[i];
      }
    }
  }

  /** Python truthiness of the year argument: `None` and `0` mean "no year filter". */
  predicate HasYear(year: Option<int>) {
    year.Some? && year.value != 0
  }

  /** The `WHERE` clause of the filtered search, one `LIKE` or `=` per supplied filter. */
  predicate SqlFilters(row: Row, name: string, sala: string, year: Option<int>) {
    && (name != "" ==> Like(row.s.nome, "%" + name + "%"))
    && (sala != "" ==> row.s.sala == sala)
    && (HasYear(year) ==> Like(row.s.data, "%/" + IntToString(year.value)))
  }

  /** What a row must satisfy to be returned by the filtered search, stated
      without SQL: each supplied filter holds. */
  predicate MatchesFilters(row: Row, name: string, sala: string, year: Option<int>) {
    && (name != "" ==> ContainsIgnoringCase(row.s.nome, name))
    && (sala != "" ==> row.s.sala == sala)
    && (HasYear(year) ==> EndsWith(row.s.data, "/" + IntToString(year.value)))
  }

  /** `SUBSTR(data, 7, 4)`: the four characters from the seventh on, or fewer when the text is short. */
  function YearText(data: string): (y: string)
    ensures |y| <= 4
    ensures |data| >= 10 ==> y == data[6..10]
  {
    if |data| <= 6 then "" else data[6..if |data| < 10 then |data| else 10]
  }

  /** `SELECT DISTINCT SUBSTR(data, 7, 4) AS ano FROM sessoes ORDER BY ano DESC`. */
  function AvailableYears(rows: seq<Row>): (r: seq<string>)
    ensures Descending(r)
    ensures forall y :: y in r <==> exists k :: 0 <= k < |rows| && YearText(rows[k].s.data) == y
  {
    var texts := seq(|rows|, k requires 0 <= k < |rows| => YearText(rows[k].s.data));
    var sorted := SortedSet(texts);
    ReverseAscending(sorted);
    forall y | y in texts ensures exists k :: 0 <= k < |rows| && YearText(rows[k].s.data) == y {
      var k :| 0 <= k < |texts| && texts[k] == y;
    }
    forall k | 0 <= k < |rows| ensures YearText(rows[k].s.data) in texts {
      assert texts[k] == YearText(rows[k].s.data);
    }
    Reverse(sorted)
  }

  /** A descending list has no duplicates. */
  lemma DescendingIsDistinct(r: seq<string>, i: int, j: int)
    requires Descending(r) && 0 <= i < j < |r|
    ensures r[i] != r[j]
  {
    LessIrreflexive(r[i]);
  }

  class Database {
    /** The rows of `sessoes`, in rowid order. */
    var rows: seq<Row>
    /** The AUTOINCREMENT counter: one more than the largest id ever handed out. */
    var nextId: int
    /** Every id handed out so far, including those of deleted rows. */
    ghost var issued: set<int>

    ghost predicate Valid()
      reads this
    {
      && 1 <= nextId
      && (forall i :: i in issued ==> 1 <= i < nextId)
      && (forall k :: 0 <= k < |rows| ==> rows[k].id in issued)
      && IdsAscending(rows)
    }

    /** A new store after `criar_tabela`: no rows, no id issued. */
    constructor ()
      ensures Valid() && rows == [] && issued == {}
    {
      rows := [];
      nextId := 1;
      issued := {};
    }

    /** `adicionar_sessao`: one new row with a fresh id and the given columns. */
    method Insert(s: Session)
      requires Valid()
      modifies this
      ensures Valid()
      ensures rows == old(rows) + [Row(old(nextId), s)]
      ensures nextId == old(nextId) + 1
      ensures forall i :: i in old(issued) ==> i < old(nextId)
      ensures issued == old(issued) + {old(nextId)}
      ensures Lookup(rows, old(nextId)) == Some(s)
    {
      var id := nextId;
      rows := rows + [Row(id, s)];
      issued := issued + {id};
      nextId := nextId + 1;
      LookupFindsRow(rows, |rows| - 1);
    }

    /** `buscar_todas_sessoes`: every row, in increasing id order. */
    function All(): (r: seq<Row>)
      requires Valid()
      reads this
      ensures IdsAscending(r)
      ensures forall x :: x in r <==> x in rows
    {
      rows
    }

    /** `buscar_sessao_por_id`: the columns of the row with that id, or nothing. */
    function FindById(id: int): (r: Option<Session>)
      reads this
      ensures r.None? <==> forall k :: 0 <= k < |rows| ==> rows[k].id != id
      ensures r.Some? ==> Row(id, r.value) in rows
    {
      Lookup(rows, id)
    }

    /** `buscar_anos_disponiveis`: the distinct year texts of the stored dates, latest first. */
    function Years(): (r: seq<string>)
      reads this
      ensures Descending(r)
      ensures forall y :: y in r <==> exists k :: 0 <= k < |rows| && YearText(rows[k].s.data) == y
    {
      AvailableYears(rows)
    }

    /** `buscar_sessoes_filtradas`: the `WHERE` clause gets one condition per
        supplied filter, joined by `AND`. */
    method Search(name: string, sala: string, year: Option<int>) returns (result: seq<Row>)
      requires Valid()
      ensures IdsAscending(result)
      ensures forall x :: x in result <==> (x in rows && SqlFilters(x, name, sala, year))
      ensures NoWildcards(name) ==>
        forall x :: x in result <==> (x in rows && MatchesFilters(x, name, sala, year))
      ensures name == "" && sala == "" && !HasYear(year) ==> result == rows
    {
      var conditions: seq<Condition> := [];
      if name != "" {
        conditions := conditions + [NameLike("%" + name + "%")];
      }
      assert forall x :: AllHold(conditions, x) <==> (name != "" ==> Like(x.s.nome, "%" + name + "%")) by {
        forall x ensures AllHold(conditions, x) <==> (name != "" ==> Like(x.s.nome, "%" + name + "%")) {
          if name != "" { AllHoldAppend([], NameLike("%" + name + "%"), x); }
        }
      }
      ghost var before := conditions;
      if sala != "" {
        conditions := conditions + [SalaEquals(sala)];
        forall x ensures AllHold(conditions, x) <==> AllHold(before, x) && x.s.sala == sala {
          AllHoldAppend(before, SalaEquals(sala), x);
        }
      }
      before := conditions;
      if HasYear(year) {
        conditions := conditions + [DataLike("%/" + IntToString(year.value))];
        forall x ensures AllHold(conditions, x) <==> AllHold(before, x) && Like(x.s.data, "%/" + IntToString(year.value)) {
          AllHoldAppend(before, DataLike("%/" + IntToString(year.value)), x);
        }
      }
      assert forall x :: AllHold(conditions, x) <==> SqlFilters(x, name, sala, year);
      result := Where(rows, conditions);
      if name == "" && sala == "" && !HasYear(year) {
        WhereKeepsAll(rows, conditions);
      }
      if NoWildcards(name) {
        forall x ensures MatchesFilters(x, name, sala, year) <==> SqlFilters(x, name, sala, year) {
          LikeContains(x.s.nome, name);
          if HasYear(year) {
            YearPatternMeaning(x.s.data, year.value);
          }
        }
      }
    }

    /** `atualizar_sessao`: overwrite the ten columns of row `id`, if there is one. */
    method Update(id: int, s: Session)
      requires Valid()
      modifies this
      ensures Valid() && nextId == old(nextId) && issued == old(issued)
      ensures rows == UpdateRows(old(rows), id, s)
    {
      UpdateReadBack(rows, id, s, id);
      rows := UpdateRows(rows, id, s);
    }

    /** `excluir_sessao_por_id`. */
    method DeleteById(id: int)
      requires Valid()
      modifies this
      ensures Valid() && nextId == old(nextId) && issued == old(issued)
      ensures rows == RemoveId(old(rows), id)
    {
      var r := RemoveId(rows, id);
      assert forall k :: 0 <= k < |r| ==> r[k] in rows;
      rows := r;
    }

    /** `excluir_evento_em_lote`. */
    method DeleteEvent(name: string)
      requires Valid()
      modifies this
      ensures Valid() && nextId == old(nextId) && issued == old(issued)
      ensures rows == RemoveEvent(old(rows), name)
    {
      var r := RemoveEvent(rows, name);
      assert forall k :: 0 <= k < |r| ==> r[k] in rows;
      rows := r;
    }
  }

  /** The year condition `data LIKE '%/' || year` holds exactly when the date text ends with `/year`. */
  lemma YearPatternMeaning(data: string, year: int)
    ensures Like(data, "%/" + IntToString(year)) <==> EndsWith(data, "/" + IntToString(year))
  {
    var t := "/" + IntToString(year);
    assert "%/" + IntToString(year) == "%" + t;
    assert forall i :: 1 <= i < |t| ==> t[i] == IntToString(year)[i - 1];
    assert forall i :: 0 <= i < |t| ==> t[i] == '/' || t[i] == '-' || '0' <= t[i] <= '9' by {
      var n := IntToString(year);
      if year < 0 {
        assert forall i :: 1 <= i < |n| ==> n[i] == NatToString(-year)[i - 1];
      }
    }
    LikeEndsWith(data, t);
  }
}
