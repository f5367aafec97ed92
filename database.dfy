/** The data-access layer of Database.php over an abstract relational engine.
    The engine's state is three tables (`Store`); what the driver does with a
    prepared statement is an input (`Exec`); `insert` builds its statement
    text itself, `select` and `action` receive theirs from the entity classes. */
module Database {
  import opened Php

  /** The three tables of the schema. */
  datatype TableId = Companies | Contacts | Emails {
    function Name(): string {
      match this
      case Companies => "companies"
      case Contacts => "contacts"
      case Emails => "emails"
    }
  }

  /** One row as the engine stores it: column name to value. */
  type Record = map<string, Value>

  /** A PHP associative array: ordered, each key once. */
  type Assoc = a: seq<(string, Value)> | DistinctKeys(a)

  predicate DistinctKeys(a: seq<(string, Value)>) {
    forall i, j :: 0 <= i < j < |a| ==> a[i].0 != a[j].0
  }

  /** `array_keys($data)`. */
  function KeysOf(data: Assoc): (ks: seq<string>)
    ensures |ks| == |data|
    ensures forall i :: 0 <= i < |data| ==> ks[i] == data[i].0
  {
    seq(|data|, i requires 0 <= i < |data| => data[i].0)
  }

  /** The row that binding `data` to its named placeholders stores. */
  function ToRecord(data: Assoc): (r: Record)
    ensures r.Keys == set i | 0 <= i < |data| :: data[i].0
    ensures forall i :: 0 <= i < |data| ==> r[data[i].0] == data[i].1
  {
    map i | 0 <= i < |data| :: data[i].0 := data[i].1
  }

  /** A column read from a fetched row; a missing column reads as null. */
  function Col(rec: Record, column: string): Value {
    if column in rec then rec[column] else Null
  }

  /** The id, if any, that a value bound to `WHERE id = :id` selects: a
      non-negative integer, or a non-empty string of decimal digits. */
  function KeyOf(v: Value): Option<nat> {
    match v
    case Null => None
    case Int(i) => if i >= 0 then Some(i) else None
    case Str(s) => if |s| > 0 && IsDigits(s) then Some(ParseDigits(s)) else None
  }

  /** An id printed into a URL selects the same row again. */
  lemma PrintedKey(k: nat)
    ensures KeyOf(Str(ToStr(Int(k)))) == Some(k)
  {
    ParseDecimal(k);
  }

  /** A table: its rows by auto-increment id, and the next id to hand out. */
  datatype Table = Table(rows: map<nat, Record>, next: nat) {
    /** Ids start at 1 and are all below the counter. */
    predicate Valid() {
      1 <= next && forall k :: k in rows ==> 1 <= k < next
    }
  }

  /** The id of the row `WHERE id = :id` matches, if there is one. */
  function FindId(t: Table, id: Value): (r: Option<nat>)
    ensures r.Some? <==> KeyOf(id).Some? && KeyOf(id).value in t.rows
    ensures r.Some? ==> KeyOf(id) == Some(r.value)
  {
    match KeyOf(id)
    case Some(k) => if k in t.rows then Some(k) else None
    case None => None
  }

  /** The row under a fresh id appended; every existing row is kept as it was. */
  function Appended(t: Table, rec: Record): (r: Table)
    requires t.Valid()
    ensures r.Valid()
    ensures t.next !in t.rows
    ensures r.rows.Keys == t.rows.Keys + {t.next} && r.rows[t.next] == rec
    ensures forall k :: k in t.rows ==> r.rows[k] == t.rows[k]
  {
    Table(t.rows[t.next := rec], t.next + 1)
  }

  /** An insert adds exactly one row. */
  lemma AppendedAddsOne(t: Table, rec: Record)
    requires t.Valid()
    ensures |Appended(t, rec).rows| == |t.rows| + 1
  {
    assert Appended(t, rec).rows.Keys == t.rows.Keys + {t.next};
  }

  /** `UPDATE ... SET <values> WHERE id = :id`: the given columns overwritten
      on the matched row only. */
  function Updated(t: Table, id: Value, values: Record): (r: Table)
    requires t.Valid()
    ensures r.Valid() && r.next == t.next && r.rows.Keys == t.rows.Keys
    ensures forall k :: k in t.rows ==> r.rows[k] == if KeyOf(id) == Some(k) then t.rows[k] + values else t.rows[k]
  {
    match FindId(t, id)
    case Some(k) => Table(t.rows[k := t.rows[k] + values], t.next)
    case None => t
  }

  /** `DELETE ... WHERE id = :id`: the matched row removed, the rest kept. */
  function Deleted(t: Table, id: Value): (r: Table)
    requires t.Valid()
    ensures r.Valid() && r.next == t.next
    ensures r.rows.Keys == t.rows.Keys - (if KeyOf(id).Some? then {KeyOf(id).value} else {})
    ensures forall k :: k in r.rows ==> r.rows[k] == t.rows[k]
  {
    match FindId(t, id)
    case Some(k) => Table(t.rows - {k}, t.next)
    case None => t
  }

  /** How many rows `WHERE id = :id` matches. */
  function Matched(t: Table, id: Value): (n: nat)
    ensures n <= 1
    ensures n == 1 <==> FindId(t, id).Some?
  {
    if FindId(t, id).Some? then 1 else 0
  }

  /** The ids of the rows whose `column` equals `v`; SQL's `= NULL` matches nothing. */
  function Holders(t: Table, column: string, v: Value): (ks: set<nat>)
    ensures forall k :: k in ks <==> k in t.rows && v != Null && Col(t.rows[k], column) == v
  {
    set k | k in t.rows && v != Null && Col(t.rows[k], column) == v
  }

  /** What the driver does with one prepared statement: `execute` runs it and
      returns true, returns false, or throws a PDOException with a message. */
  datatype Exec = Done | Refused | Raised(message: string)

  /** What `new Database()` throws when the PDO connection fails. */
  const ConnectError := "Adatbázis kapcsolódási hiba: "
  const SelectError := "Adatbázis lekérdezési hiba: "
  const InsertError := "Adatbázis mentési hiba: "
  const ActionError := "Adatbázis frissítési hiba: "

  /** Messages the entity classes share. */
  const NoMatch := "Nincs találat az adatbázisban."
  const InsertFailed := "Hiba történt az adatbázisba való beszúrás során."

  /** What loading one row by id yields: the row's id and contents, or the
      message of the exception the load throws (before the entity's prefix).
      A refused statement fetches nothing. */
  function LoadRow(t: Table, id: Value, exec: Exec): (r: Result<(nat, Record)>)
    ensures r.Ok? <==> exec.Done? && FindId(t, id).Some?
    ensures r.Ok? ==> r.value.0 in t.rows && KeyOf(id) == Some(r.value.0) && r.value.1 == t.rows[r.value.0]
    ensures exec.Raised? ==> r == Err(SelectError + exec.message)
    ensures !exec.Raised? && r.Err? ==> r.message == NoMatch
  {
    match exec
    case Raised(m) => Err(SelectError + m)
    case Refused => Err(NoMatch)
    case Done =>
      match FindId(t, id)
      case Some(k) => Ok((k, t.rows[k]))
      case None => Err(NoMatch)
  }

  /** The statement text `insert` prepares:
      "INSERT INTO $table ($columns) VALUES ($values)". */
  function InsertQuery(table: string, keys: seq<string>): string {
    "INSERT INTO " + table + " (" + Implode(", ", keys) + ") VALUES (" + ":" + Implode(", :", keys) + ")"
  }

  /** There is one placeholder per column, the k-th being ":" followed by the k-th key. */
  lemma InsertPlaceholders(table: string, keys: seq<string>)
    requires |keys| > 0
    ensures InsertQuery(table, keys)
         == "INSERT INTO " + table + " (" + Implode(", ", keys) + ") VALUES (" + Implode(", ", Prefixed(":", keys)) + ")"
  {
    var head := "INSERT INTO " + table + " (" + Implode(", ", keys) + ") VALUES (";
    var marked := Implode(", :", keys);
    GlueThenColon();
    ImplodePrefixed(", ", ":", keys);
    assert ":" + marked == Implode(", ", Prefixed(":", keys));
    assert InsertQuery(table, keys) == head + (":" + marked) + ")";
  }

  /** The glue between placeholders is the column glue followed by the
      placeholder mark. */
  lemma GlueThenColon()
    ensures ", " + ":" == ", :"
  {
    assert (", " + ":")[2] == ':';
  }

  /** With no data the column list is empty and the placeholder list is a lone ":". */
  lemma InsertWithoutData(table: string)
    ensures InsertQuery(table, []) == "INSERT INTO " + table + " () VALUES (" + ":" + ")"
  {
  }

  /** The statement for three columns, written out. */
  lemma InsertThree(table: string, a: string, b: string, c: string)
    ensures InsertQuery(table, [a, b, c])
         == "INSERT INTO " + table + " (" + a + ", " + b + ", " + c + ") VALUES (" + ":" + a + ", :" + b + ", :" + c + ")"
  {
    var columns := Implode(", ", [a, b, c]);
    var marked := Implode(", :", [a, b, c]);
    assert [a, b, c][1..] == [b, c];
    assert [b, c][1..] == [c];
    assert Implode(", ", [b, c]) == b + ", " + c;
    assert Implode(", :", [b, c]) == b + ", :" + c;
    assert columns == a + ", " + (b + ", " + c);
    assert marked == a + ", :" + (b + ", :" + c);
  }

  /** The statement for two columns, written out. */
  lemma InsertTwo(table: string, a: string, b: string)
    ensures InsertQuery(table, [a, b])
         == "INSERT INTO " + table + " (" + a + ", " + b + ") VALUES (" + ":" + a + ", :" + b + ")"
  {
    assert [a, b][1..] == [b];
    assert Implode(", ", [a, b]) == a + ", " + b;
    assert Implode(", :", [a, b]) == a + ", :" + b;
  }

  /** A change statement `action` runs, with its bound parameters. */
  datatype Change =
    | UpdateRow(table: TableId, id: Value, values: Assoc)
    | DeleteRow(table: TableId, id: Value)

  /** The engine behind the PDO connection: the three tables, and (for the
      proofs) the texts of the statements prepared so far. */
  class Store {
    var companies: Table
    var contacts: Table
    var emails: Table
    ghost var prepared: seq<string>

    ghost predicate Valid()
      reads this
    {
      Get(Companies).Valid() && Get(Contacts).Valid() && Get(Emails).Valid()
    }

    function Get(t: TableId): Table
      reads this
    {
      match t
      case Companies => companies
      case Contacts => contacts
      case Emails => emails
    }

    constructor (companies: Table, contacts: Table, emails: Table)
      requires companies.Valid() && contacts.Valid() && emails.Valid()
      ensures Valid() && prepared == []
      ensures this.companies == companies && this.contacts == contacts && this.emails == emails
    {
      this.companies, this.contacts, this.emails := companies, contacts, emails;
      prepared := [];
    }

    method Put(t: TableId, table: Table)
      modifies this
      ensures Get(t) == table && prepared == old(prepared)
      ensures forall u :: u != t ==> Get(u) == old(Get(u))
    {
      match t
      case Companies => companies := table;
      case Contacts => contacts := table;
      case Emails => emails := table;
    }

    /** `select($query, [":id" => $id])` for a query that fetches the row of
        table `t` with that id; each fetched row carries its `id` column. */
    method SelectById(t: TableId, query: string, id: Value, exec: Exec) returns (r: Result<seq<Record>>)
      modifies this`prepared
      ensures prepared == old(prepared) + [query]
      ensures exec.Raised? ==> r == Err(SelectError + exec.message)
      ensures !exec.Raised? ==> r.Ok? && |r.value| <= 1
      ensures !exec.Raised? ==> (|r.value| == 1 <==> LoadRow(Get(t), id, exec).Ok?)
      ensures r.Ok? && |r.value| == 1 ==>
        var (k, rec) := LoadRow(Get(t), id, exec).value; r.value[0] == rec["id" := Int(k)]
    {
      prepared := prepared + [query];
      match exec
      case Raised(m) =>
        r := Err(SelectError + m);
      case Refused =>
        r := Ok([]);
      case Done =>
        var k := FindId(Get(t), id);
        if k.Some? {
          r := Ok([Get(t).rows[k.value]["id" := Int(k.value)]]);
        } else {
          r := Ok([]);
        }
    }

    /** `select($query, [":$column" => $v])` for a query that fetches the ids
        of the rows of `t` whose `column` equals `v`. */
    method SelectIdsWhere(t: TableId, query: string, column: string, v: Value, exec: Exec) returns (r: Result<set<nat>>)
      modifies this`prepared
      ensures prepared == old(prepared) + [query]
      ensures exec.Raised? ==> r == Err(SelectError + exec.message)
      ensures exec.Refused? ==> r == Ok({})
      ensures exec.Done? ==> r == Ok(Holders(Get(t), column, v))
    {
      prepared := prepared + [query];
      match exec
      case Raised(m) =>
        r := Err(SelectError + m);
      case Refused =>
        r := Ok({});
      case Done =>
        r := Ok(Holders(Get(t), column, v));
    }

    /** `insert($table, $data)`: builds the statement text from the keys,
        runs it, and returns the inserted row count (0 when execute returns
        false), or throws with the driver's message behind a fixed prefix. */
    method Insert(t: TableId, data: Assoc, exec: Exec) returns (r: Result<nat>)
      requires Valid()
      modifies this
      ensures Valid()
      ensures prepared == old(prepared) + [InsertQuery(t.Name(), KeysOf(data))]
      ensures forall u :: u != t ==> Get(u) == old(Get(u))
      ensures exec.Done? ==> r == Ok(1) && Get(t) == Appended(old(Get(t)), ToRecord(data))
      ensures exec.Refused? ==> r == Ok(0) && Get(t) == old(Get(t))
      ensures exec.Raised? ==> r == Err(InsertError + exec.message) && Get(t) == old(Get(t))
    {
      prepared := prepared + [InsertQuery(t.Name(), KeysOf(data))];
      match exec
      case Raised(m) =>
        r := Err(InsertError + m);
      case Refused =>
        r := Ok(0);
      case Done =>
        Put(t, Appended(Get(t), ToRecord(data)));
        r := Ok(1);
    }

    /** `action($query, $params)`: runs an UPDATE or DELETE and returns the
        affected row count (0 when execute returns false), or throws with
        the driver's message behind a fixed prefix. */
    method Action(query: string, change: Change, exec: Exec) returns (r: Result<nat>)
      requires Valid()
      modifies this
      ensures Valid()
      ensures prepared == old(prepared) + [query]
      ensures forall u :: u != change.table ==> Get(u) == old(Get(u))
      ensures exec.Done? ==> r == Ok(Matched(old(Get(change.table)), change.id))
      ensures exec.Done? && change.UpdateRow? ==>
        Get(change.table) == Updated(old(Get(change.table)), change.id, ToRecord(change.values))
      ensures exec.Done? && change.DeleteRow? ==>
        Get(change.table) == Deleted(old(Get(change.table)), change.id)
      ensures exec.Refused? ==> r == Ok(0) && Get(change.table) == old(Get(change.table))
      ensures exec.Raised? ==> r == Err(ActionError + exec.message) && Get(change.table) == old(Get(change.table))
    {
      prepared := prepared + [query];
      match exec
      case Raised(m) =>
        r := Err(ActionError + m);
      case Refused =>
        r := Ok(0);
      case Done =>
        var t := change.table;
        r := Ok(Matched(Get(t), change.id));
        match change
        case UpdateRow(_, id, values) =>
          Put(t, Updated(Get(t), id, ToRecord(values)));
        case DeleteRow(_, id) =>
          Put(t, Deleted(Get(t), id));
    }
  }
}
