/** The CA's certificate database: rows, the two indexes, loading, inserting,
    revoking and expiring. */
module CaDatabase {
  import opened Inverses
  import opened TxtDb
  import opened Serials
  import opened Revocation

  /** One row; a missing revocation date is the empty text it is written as. */
  datatype Entry = Entry(
    status: string, expDate: string, revDate: string, serial: string, file: string, name: string)

  /** The rows, whether subjects of valid rows must be unique, and if so the names in
      the name index. A name enters the index with a valid row and stays while the
      database is open, even when the row stops being valid. */
  datatype Db = Db(rows: seq<Entry>, unique: bool, names: set<string>)

  /** A certificate as the database sees it: its subject on one line, its serial
      number and its expiry date. */
  datatype Cert = Cert(subject: string, serial: int, notAfter: string)

  const FIELDS := 6

  function FieldsOf(e: Entry): Fields {
    [e.status, e.expDate, e.revDate, e.serial, e.file, e.name]
  }

  function EntryOf(f: Fields): Entry
    requires |f| == FIELDS
  {
    Entry(f[0], f[1], f[2], f[3], f[4], f[5])
  }

  predicate Is(e: Entry, status: char) {
    e.status != "" && e.status[0] == status
  }

  /** The row of a new certificate; an empty subject is replaced by the serial. */
  function NewEntry(cert: Cert): Entry {
    var serial := SerialText(cert.serial);
    Entry("V", cert.notAfter, "", serial, "unknown", if cert.subject == "" then serial else cert.subject)
  }

  // ---------------------------------------------------------------- indexes

  /** The row the serial index leads to, or -1. */
  function Find(rows: seq<Entry>, serial: string): (i: int)
    ensures -1 <= i < |rows|
    ensures i >= 0 ==> Key(rows[i].serial) == Key(serial)
    ensures i < 0 ==> forall j :: 0 <= j < |rows| ==> Key(rows[j].serial) != Key(serial)
  {
    var n := |rows| - 1;
    if n < 0 then -1
    else if Key(rows[n].serial) == Key(serial) then n
    else Find(rows[..n], serial)
  }

  predicate DistinctSerials(rows: seq<Entry>) {
    forall i, j :: 0 <= i < j < |rows| ==> Key(rows[i].serial) != Key(rows[j].serial)
  }

  predicate DistinctNames(rows: seq<Entry>) {
    forall i, j :: 0 <= i < j < |rows| && Is(rows[i], 'V') && Is(rows[j], 'V') ==> rows[i].name != rows[j].name
  }

  function ValidNames(rows: seq<Entry>): set<string> {
    set i | 0 <= i < |rows| && Is(rows[i], 'V') :: rows[i].name
  }

  /** Inserting fails on a clash in either index. */
  function Insert(db: Db, row: Entry): Option<Db> {
    var named := db.unique && Is(row, 'V');
    if Find(db.rows, row.serial) >= 0 || (named && row.name in db.names) then None
    else Some(Db(db.rows + [row], db.unique, if named then db.names + {row.name} else db.names))
  }

  // ---------------------------------------------------------------- loading

  /** The check made of every row when the database is loaded. */
  predicate Loads(lib: Library, e: Entry) {
    && (!Is(e, 'R') ==> e.revDate == "")
    && (Is(e, 'R') ==> Unpack(lib, e.revDate).Some?)
    && lib.time(e.expDate)
    && WellFormed(e.serial)
  }

  function Entries(rows: seq<Fields>): (es: seq<Entry>)
    requires forall r <- rows :: |r| == FIELDS
    ensures |es| == |rows| && forall i :: 0 <= i < |rows| ==> es[i] == EntryOf(rows[i])
  {
    if rows == [] then [] else [EntryOf(rows[0])] + Entries(rows[1..])
  }

  function AllFields(rows: seq<Entry>): (fs: seq<Fields>)
    ensures |fs| == |rows| && forall i :: 0 <= i < |rows| ==> fs[i] == FieldsOf(rows[i])
  {
    if rows == [] then [] else [FieldsOf(rows[0])] + AllFields(rows[1..])
  }

  function Save(db: Db): string {
    Write(AllFields(db.rows))
  }

  /** A text is loaded when it parses, every row passes and the indexes can be built. */
  function Load(lib: Library, text: string, unique: bool): Option<Db> {
    ReadPersists(text, FIELDS);
    match Read(text, FIELDS)
    case None => None
    case Some(fields) =>
      var rows := Entries(fields);
      if (forall e <- rows :: Loads(lib, e)) && DistinctSerials(rows) && (unique ==> DistinctNames(rows))
      then Some(Db(rows, unique, if unique then ValidNames(rows) else {})) else None
  }

  /** The character loop of the serial number check. */
  method CheckSerial(serial: string) returns (ok: bool)
    ensures ok <==> WellFormed(serial)
  {
    var p := if serial != "" && serial[0] == '-' then 1 else 0;
    var j := |serial| - p;
    assert Unsigned(serial) == serial[p..];
    if j % 2 == 1 || j < 2 {
      return false;
    }
    while p < |serial|
      invariant 0 <= p <= |serial|
      invariant AllHex(Unsigned(serial)) <==> AllHex(serial[p..])
    {
      assert serial[p..] == [serial[p]] + serial[p + 1..];
      if !IsHex(serial[p]) {
        return false;
      }
      p := p + 1;
    }
    return true;
  }

  method CheckRows(lib: Library, rows: seq<Entry>) returns (ok: bool)
    ensures ok <==> forall e <- rows :: Loads(lib, e)
  {
    hide WellFormed, Unpack;
    for i := 0 to |rows|
      invariant forall k :: 0 <= k < i ==> Loads(lib, rows[k])
    {
      var e := rows[i];
      assert e in rows;
      if !Is(e, 'R') && e.revDate != "" {
        return false;
      }
      if Is(e, 'R') {
        var info := UnpackRevocation(lib, e.revDate);
        if info == None {
          return false;
        }
      }
      if !lib.time(e.expDate) {
        return false;
      }
      var serialOk := CheckSerial(e.serial);
      if !serialOk {
        return false;
      }
    }
    return true;
  }

  /** Builds the serial index; the first clash fails. */
  method IndexSerials(rows: seq<Entry>) returns (ok: bool)
    ensures ok <==> DistinctSerials(rows)
  {
    hide Key;
    var index: map<string, int> := map[];
    for i := 0 to |rows|
      invariant DistinctSerials(rows[..i])
      invariant forall k :: 0 <= k < i ==> Key(rows[k].serial) in index
      invariant forall key <- index :: 0 <= index[key] < i && Key(rows[index[key]].serial) == key
    {
      var key := Key(rows[i].serial);
      if key in index {
        return false;
      }
      index := index[key := i];
    }
    assert rows[..|rows|] == rows;
    return true;
  }

  /** Builds the name index over the valid rows. */
  method IndexNames(rows: seq<Entry>) returns (names: Option<set<string>>)
    ensures names == if DistinctNames(rows) then Some(ValidNames(rows)) else None
  {
    hide Is;
    var index: map<string, int> := map[];
    for i := 0 to |rows|
      invariant DistinctNames(rows[..i])
      invariant forall k :: 0 <= k < i && Is(rows[k], 'V') ==> rows[k].name in index
      invariant forall n <- index :: 0 <= index[n] < i && rows[index[n]].name == n && Is(rows[index[n]], 'V')
    {
      if Is(rows[i], 'V') {
        var n := rows[i].name;
        if n in index {
          return None;
        }
        index := index[n := i];
      }
    }
    assert rows[..|rows|] == rows;
    assert forall n <- index :: n in ValidNames(rows);
    assert index.Keys == ValidNames(rows);
    return Some(index.Keys);
  }

  /** Opening the database: parse, check every row, build the indexes. */
  method OpenDatabase(lib: Library, text: string, unique: bool) returns (db: Option<Db>)
    ensures db == Load(lib, text, unique)
  {
    hide Loads, DistinctSerials, DistinctNames, ValidNames, Read;
    ReadPersists(text, FIELDS);
    var fields := ReadRows(text, FIELDS);
    if fields == None {
      return None;
    }
    var rows, names := Entries(fields.value), {};
    var rowsOk := CheckRows(lib, rows);
    if !rowsOk {
      return None;
    }
    var serialsOk := IndexSerials(rows);
    if !serialsOk {
      return None;
    }
    if unique {
      var index := IndexNames(rows);
      if index == None {
        return None;
      }
      names := index.value;
    }
    return Some(Db(rows, unique, names));
  }

  // ---------------------------------------------------------------- revoking and expiring

  lemma InsertFinds(db: Db, row: Entry)
    ensures Insert(db, row).Some? ==> Find(Insert(db, row).value.rows, row.serial) == |db.rows|
  {
    hide Key;
  }

  datatype Outcome = Outcome(db: Db, ok: bool)

  /** The status is overwritten in place by an "R" and the end of the text; when it was
      empty, the latter falls on the expiry date that follows it in memory. */
  function Mark(e: Entry, revDate: string): Entry {
    e.(status := "R", revDate := revDate, expDate := if e.status == "" then "" else e.expDate)
  }

  /** Revokes a certificate, or adds it as valid. One the database does not know is
      first inserted, and then revoked by a second call, which finds it. */
  function Revoke(lib: Library, db: Db, cert: Cert, kind: RevType, arg: string, now: string): Outcome
    decreases if Find(db.rows, NewEntry(cert).serial) < 0 then 1 else 0
  {
    var row := NewEntry(cert);
    var i := Find(db.rows, row.serial);
    if i < 0 then
      InsertFinds(db, row);
      match Insert(db, row)
      case None => Outcome(db, false)
      case Some(added) =>
        if kind == AddValid then Outcome(added, true) else Revoke(lib, added, cert, kind, arg, now)
    else if db.rows[i].name != row.name || kind == AddValid || Is(db.rows[i], 'R') then Outcome(db, false)
    else
      match MakeRevocation(lib, kind, arg, now)
      case None => Outcome(db, false)
      case Some(revDate) => Outcome(db.(rows := db.rows[i := Mark(db.rows[i], revDate)]), true)
  }

  function Expire(e: Entry, expired: string -> bool): Entry {
    if Is(e, 'V') && expired(e.expDate) then e.(status := "E") else e
  }

  /** Expires row by row up to the first valid row whose date cannot be read. */
  function Update(lib: Library, rows: seq<Entry>, expired: string -> bool): seq<Entry> {
    if rows == [] then []
    else if Is(rows[0], 'V') && !lib.time(rows[0].expDate) then rows
    else [Expire(rows[0], expired)] + Update(lib, rows[1..], expired)
  }

  /** How many rows were expired, or the error. */
  function Count(lib: Library, rows: seq<Entry>, expired: string -> bool): Option<nat> {
    if rows == [] then Some(0)
    else if Is(rows[0], 'V') && !lib.time(rows[0].expDate) then None
    else
      var rest := Count(lib, rows[1..], expired);
      if rest == None then None
      else Some((if Is(rows[0], 'V') && expired(rows[0].expDate) then 1 else 0) + rest.value)
  }

  function Plus(n: nat, count: Option<nat>): Option<nat> {
    if count == None then None else Some(n + count.value)
  }

  lemma UpdateStep(lib: Library, rows: seq<Entry>, i: nat, expired: string -> bool)
    requires i < |rows|
    ensures if Is(rows[i], 'V') && !lib.time(rows[i].expDate) then
              && Update(lib, rows[i..], expired) == rows[i..]
              && Count(lib, rows[i..], expired) == None
            else
              && Update(lib, rows[i..], expired) == [Expire(rows[i], expired)] + Update(lib, rows[i + 1..], expired)
              && Count(lib, rows[i..], expired)
                 == Plus(if Is(rows[i], 'V') && expired(rows[i].expDate) then 1 else 0,
                         Count(lib, rows[i + 1..], expired))
  {
    hide Is;
    assert rows[i..][1..] == rows[i + 1..] && rows[i..][0] == rows[i];
  }

  lemma UpdateNone(lib: Library, expired: string -> bool)
    ensures Update(lib, [], expired) == [] && Count(lib, [], expired) == Some(0)
  {}

  // ---------------------------------------------------------------- in place

  class Database {
    var rows: seq<Entry>
    var unique: bool
    var names: set<string>

    function State(): Db
      reads this
    {
      Db(rows, unique, names)
    }

    constructor (db: Db)
      ensures State() == db
    {
      rows, unique, names := db.rows, db.unique, db.names;
    }

    method Add(row: Entry) returns (ok: bool)
      modifies this
      ensures ok == Insert(old(State()), row).Some?
      ensures State() == if ok then Insert(old(State()), row).value else old(State())
    {
      hide Find;
      if Find(rows, row.serial) >= 0 {
        return false;
      }
      if unique && Is(row, 'V') {
        if row.name in names {
          return false;
        }
        names := names + {row.name};
      }
      rows := rows + [row];
      return true;
    }

    method DoRevoke(lib: Library, cert: Cert, kind: RevType, arg: string, now: string) returns (ok: bool)
      modifies this
      ensures Revoke(lib, old(State()), cert, kind, arg, now) == Outcome(State(), ok)
      decreases if Find(rows, NewEntry(cert).serial) < 0 then 1 else 0
    {
      hide Find, NewEntry, MakeRevocation;
      var row := NewEntry(cert);
      var i := Find(rows, row.serial);
      if i < 0 {
        InsertFinds(State(), row);
        var added := Add(row);
        if !added {
          return false;
        }
        if kind == AddValid {
          return true;
        }
        ok := DoRevoke(lib, cert, kind, arg, now);
        return;
      }
      if rows[i].name != row.name {
        return false;
      }
      if kind == AddValid {
        return false;
      }
      if Is(rows[i], 'R') {
        return false;
      }
      var revDate := MakeRevocationString(lib, kind, arg, now);
      if revDate == None {
        return false;
      }
      rows := rows[i := Mark(rows[i], revDate.value)];
      return true;
    }

    method DoUpdateDb(lib: Library, expired: string -> bool) returns (count: Option<nat>)
      modifies this`rows
      ensures rows == Update(lib, old(rows), expired)
      ensures count == Count(lib, old(rows), expired)
    {
      hide Update, Count, Is;
      var done, i := 0, 0;
      ghost var before := rows;
      assert rows[0..] == rows && rows[..0] + Update(lib, rows, expired) == Update(lib, rows, expired);
      while i < |rows|
        invariant 0 <= i <= |rows| == |before| && rows[i..] == before[i..]
        invariant rows[..i] + Update(lib, before[i..], expired) == Update(lib, before, expired)
        invariant Count(lib, before, expired) == Plus(done, Count(lib, before[i..], expired))
      {
        UpdateStep(lib, before, i, expired);
        assert rows[i] == rows[i..][0] == before[i];
        ghost var head := rows[..i];
        if Is(rows[i], 'V') && !lib.time(rows[i].expDate) {
          assert rows == rows[..i] + rows[i..];
          return None;
        }
        assert Update(lib, before, expired)
            == head + [Expire(before[i], expired)] + Update(lib, before[i + 1..], expired);
        if Is(rows[i], 'V') && expired(rows[i].expDate) {
          rows := rows[i := rows[i].(status := "E")];
          done := done + 1;
        }
        assert rows[..i + 1] == head + [Expire(before[i], expired)];
        assert rows[i + 1..] == before[i..][1..] == before[i + 1..];
        i := i + 1;
      }
      assert before[i..] == [] && rows[..i] == rows;
      UpdateNone(lib, expired);
      return Some(done);
    }
  }
}
