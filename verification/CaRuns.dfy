/** What every run of the CA keeps: the database it leaves behind always loads, no
    serial is used twice, and a certificate only ever moves towards revoked. */
module CaRuns {
  import opened Inverses
  import opened TxtDb
  import opened Serials
  import opened Revocation
  import opened CaDatabase

  /** Text that survives in any field but the last. */
  predicate Plain(s: string) {
    '\n' !in s && !EndsInBackslash(s)
  }

  /** Times and object identifiers are written without newlines and do not end in a
      backslash, and the empty text is not a time. */
  ghost predicate PlainTexts(lib: Library) {
    && !lib.utcTime("")
    && (forall s :: lib.time(s) ==> Plain(s))
    && (forall s :: lib.utcTime(s) ==> Plain(s))
    && (forall s :: lib.generalizedTime(s) ==> Plain(s))
    && (forall s :: lib.oid(s).Some? ==> Plain(s))
  }

  /** A row that passes the load check and can be written and read. */
  predicate Kept(lib: Library, e: Entry) {
    Loads(lib, e) && Persistable(FieldsOf(e))
  }

  predicate AllKept(lib: Library, rows: seq<Entry>) {
    forall i :: 0 <= i < |rows| ==> Kept(lib, rows[i])
  }

  /** And has a status, which the load check does not ask for. */
  predicate Sound(lib: Library, e: Entry) {
    Kept(lib, e) && e.status != ""
  }

  predicate AllSound(lib: Library, rows: seq<Entry>) {
    forall i :: 0 <= i < |rows| ==> Sound(lib, rows[i])
  }

  predicate NamesIndexed(db: Db) {
    db.unique ==> DistinctNames(db.rows)
                  && forall i :: 0 <= i < |db.rows| && Is(db.rows[i], 'V') ==> db.rows[i].name in db.names
  }

  /** What opening a database establishes. */
  predicate Opened(lib: Library, db: Db) {
    AllKept(lib, db.rows) && DistinctSerials(db.rows) && NamesIndexed(db)
  }

  /** What every step keeps. */
  predicate Invariant(lib: Library, db: Db) {
    AllSound(lib, db.rows) && DistinctSerials(db.rows) && NamesIndexed(db)
  }

  // ---------------------------------------------------------------- runs

  datatype Step =
    | Issue(cert: Cert)
    | Revocation(cert: Cert, kind: RevType, arg: string, now: string)
    | UpdateDb(expired: string -> bool)
    | Reopen

  predicate CertOk(lib: Library, cert: Cert) {
    lib.time(cert.notAfter) && '\n' !in cert.subject
  }

  predicate Now(lib: Library, now: string) {
    lib.utcTime(now) && ',' !in now
  }

  predicate StepOk(lib: Library, step: Step) {
    match step
    case Issue(cert) => CertOk(lib, cert)
    case Revocation(cert, _, _, now) => CertOk(lib, cert) && Now(lib, now)
    case UpdateDb(_) => true
    case Reopen => true
  }

  function Issued(db: Db, cert: Cert): Outcome {
    var added := Insert(db, NewEntry(cert));
    if added.Some? then Outcome(added.value, true) else Outcome(db, false)
  }

  /** Saving and opening again. */
  function Reopened(lib: Library, db: Db): Outcome {
    var loaded := Load(lib, Save(db), db.unique);
    if loaded.Some? then Outcome(loaded.value, true) else Outcome(db, false)
  }

  function Exec(lib: Library, db: Db, step: Step): Outcome {
    match step
    case Issue(cert) => Issued(db, cert)
    case Revocation(cert, kind, arg, now) => Revoke(lib, db, cert, kind, arg, now)
    case UpdateDb(expired) =>
      Outcome(db.(rows := Update(lib, db.rows, expired)), Count(lib, db.rows, expired).Some?)
    case Reopen => Reopened(lib, db)
  }

  function Run(lib: Library, db: Db, steps: seq<Step>): Db
    decreases |steps|
  {
    if steps == [] then db else Run(lib, Exec(lib, db, steps[0]).db, steps[1..])
  }

  /** How a row may change: only its status and its revocation date, and only from
      valid to expired or from anything but revoked to revoked. */
  predicate Becomes(e: Entry, f: Entry) {
    && f.expDate == e.expDate && f.serial == e.serial && f.file == e.file && f.name == e.name
    && (|| f == e
        || (Is(e, 'V') && f.status == "E" && f.revDate == e.revDate)
        || (!Is(e, 'R') && f.status == "R"))
  }

  predicate Evolves(rows: seq<Entry>, later: seq<Entry>) {
    |rows| <= |later| && forall i :: 0 <= i < |rows| ==> Becomes(rows[i], later[i])
  }

  lemma EvolvesTransitive(a: seq<Entry>, b: seq<Entry>, c: seq<Entry>)
    requires Evolves(a, b) && Evolves(b, c)
    ensures Evolves(a, c)
  {
    forall i | 0 <= i < |a| ensures Becomes(a[i], c[i]) {
      assert Becomes(a[i], b[i]) && Becomes(b[i], c[i]);
    }
  }

  /** A new, empty database, where every CA starts. */
  lemma EmptyDatabase(lib: Library, unique: bool)
    ensures Invariant(lib, Db([], unique, {})) && Load(lib, "", unique) == Some(Db([], unique, {}))
  {
    assert ValidNames([]) == {};
  }

  // ---------------------------------------------------------------- rows

  lemma PlainAppend(a: string, b: string)
    requires Plain(a) && Plain(b)
    ensures Plain(a + b)
  {}

  lemma {:induction false} PlainHex(t: string)
    requires AllHex(t)
    ensures Plain(t)
  {
    if t != "" {
      assert t[|t| - 1] in t;
    }
  }

  lemma PlainSerial(n: int)
    ensures Plain(SerialText(n))
  {
    hide SerialText, AllHex;
    PrintedSerial(n);
    var t := SerialText(n);
    PlainHex(Unsigned(t));
    assert t == (if Signed(t) then "-" else "") + Unsigned(t);
  }

  lemma PlainReason(i: nat)
    requires i < |CRL_REASONS|
    ensures Plain(CRL_REASONS[i])
  {}

  /** A row for a new certificate loads exactly when its expiry date does. */
  lemma NewEntryLoads(lib: Library, cert: Cert)
    ensures Loads(lib, NewEntry(cert)) <==> lib.time(cert.notAfter)
  {
    hide SerialText, WellFormed, Unpack;
    PrintedSerial(cert.serial);
  }

  lemma NewEntrySound(lib: Library, cert: Cert)
    requires PlainTexts(lib) && CertOk(lib, cert)
    ensures Sound(lib, NewEntry(cert))
  {
    hide SerialText, Loads, Persistable, PlainTexts, Plain;
    NewEntryLoads(lib, cert);
    assert Plain(cert.notAfter) by { TimePlain(lib, cert.notAfter); }
    NewEntryPersists(cert);
  }

  lemma TimePlain(lib: Library, s: string)
    requires PlainTexts(lib) && lib.time(s)
    ensures Plain(s)
  {}

  /** A new row can be written when its expiry date and subject can. */
  lemma NewEntryPersists(cert: Cert)
    requires Plain(cert.notAfter) && '\n' !in cert.subject
    ensures Persistable(FieldsOf(NewEntry(cert)))
  {
    PlainWords();
    hide SerialText, Persistable, Plain;
    PlainSerial(cert.serial);
    PersistsExactly(NewEntry(cert));
    SerialOneLine(cert.serial);
  }

  lemma SerialOneLine(n: int)
    ensures '\n' !in SerialText(n)
  {
    hide SerialText;
    PlainSerial(n);
  }

  lemma PlainWords()
    ensures Plain("V") && Plain("E") && Plain("R") && Plain("") && Plain("unknown")
    ensures !Comment("V") && !Comment("E") && !Comment("R")
  {}

  lemma PlainMade(lib: Library, kind: RevType, arg: string, now: string)
    requires PlainTexts(lib) && Plain(now)
    ensures var made := MakeRevocation(lib, kind, arg, now); made.Some? ==> Plain(made.value)
  {
    hide Plain, CRL_REASONS, FirstReason;
    ReasonNames();
    PlainComma();
    var made := MakeRevocation(lib, kind, arg, now);
    if made.Some? && kind.CrlReason? {
      var i := FirstReason(arg, 0, 8).value;
      PlainReason(i);
      PlainAppend(now, ",");
      PlainAppend(now + ",", CRL_REASONS[i]);
    } else if made.Some? && (kind.Hold? || kind.KeyCompromise? || kind.CaCompromise?) {
      var i := if kind.Hold? then 8 else if kind.KeyCompromise? then 9 else 10;
      PlainReason(i);
      PlainAppend(now, ",");
      PlainAppend(now + ",", CRL_REASONS[i]);
      PlainAppend(now + "," + CRL_REASONS[i], ",");
      PlainAppend(now + "," + CRL_REASONS[i] + ",", arg);
    }
  }

  lemma PlainComma()
    ensures Plain(",")
  {}

  lemma PersistsExactly(e: Entry)
    ensures Persistable(FieldsOf(e))
       <==> Plain(e.status) && Plain(e.expDate) && Plain(e.revDate) && Plain(e.serial) && Plain(e.file)
            && '\n' !in e.name && !Comment(e.status)
  {
    var f := FieldsOf(e);
    assert f[0] == e.status && f[1] == e.expDate && f[2] == e.revDate && f[3] == e.serial && f[4] == e.file;
    assert f[5] == e.name && |f| == 6;
    if Persistable(f) {
      assert f[0] in f && f[1] in f && f[2] in f && f[3] in f && f[4] in f && f[5] in f;
      assert !EndsInBackslash(f[0]) && !EndsInBackslash(f[1]) && !EndsInBackslash(f[2]);
      assert !EndsInBackslash(f[3]) && !EndsInBackslash(f[4]);
    }
  }

  /** A marked row can be written when the row and the mark can. */
  lemma MarkPersists(e: Entry, revDate: string)
    requires Persistable(FieldsOf(e)) && Plain(revDate)
    ensures Persistable(FieldsOf(Mark(e, revDate)))
  {
    PlainWords();
    hide Persistable, Plain;
    PersistsExactly(e);
    PersistsExactly(Mark(e, revDate));
  }

  /** Marking replaces the check of the revocation date, and that of the expiry date
      when there was no status. */
  lemma MarkLoads(lib: Library, e: Entry, kind: RevType, arg: string, now: string)
    requires ',' !in now && MakeRevocation(lib, kind, arg, now).Some?
    ensures Loads(lib, Mark(e, MakeRevocation(lib, kind, arg, now).value))
       <==> lib.utcTime(now) && lib.time(if e.status == "" then "" else e.expDate) && WellFormed(e.serial)
  {
    hide MakeRevocation, Unpack, Meaning, WellFormed;
    Revocation.RoundTrip(lib, kind, arg, now);
  }

  lemma MarkSound(lib: Library, e: Entry, kind: RevType, arg: string, now: string)
    requires PlainTexts(lib) && Now(lib, now) && Sound(lib, e) && MakeRevocation(lib, kind, arg, now).Some?
    ensures Sound(lib, Mark(e, MakeRevocation(lib, kind, arg, now).value))
  {
    hide MakeRevocation, Unpack, WellFormed, Plain, Persistable;
    assert Plain(now);
    PlainMade(lib, kind, arg, now);
    MarkLoads(lib, e, kind, arg, now);
    MarkPersists(e, MakeRevocation(lib, kind, arg, now).value);
  }

  /** A sound row has a revocation date if and only if it is revoked. */
  lemma RevokedIffDated(lib: Library, e: Entry)
    requires PlainTexts(lib) && Sound(lib, e)
    ensures Is(e, 'R') <==> e.revDate != ""
  {
    hide Persistable, WellFormed;
    assert Parts("") == ("", None, None);
  }

  // ---------------------------------------------------------------- each step

  /** Both indexes stay usable when a row is inserted. */
  lemma InsertIndexed(db: Db, row: Entry)
    requires DistinctSerials(db.rows) && NamesIndexed(db) && Insert(db, row).Some?
    ensures DistinctSerials(Insert(db, row).value.rows) && NamesIndexed(Insert(db, row).value)
  {
    hide Key, Is;
  }

  lemma InsertKeeps(lib: Library, db: Db, row: Entry)
    requires Invariant(lib, db) && Sound(lib, row) && Insert(db, row).Some?
    ensures Invariant(lib, Insert(db, row).value) && Evolves(db.rows, Insert(db, row).value.rows)
  {
    hide Key, Sound, Is, DistinctSerials, NamesIndexed;
    InsertIndexed(db, row);
  }

  /** And when rows only lose their validity. */
  lemma RowsIndexed(db: Db, later: seq<Entry>)
    requires DistinctSerials(db.rows) && NamesIndexed(db) && |later| == |db.rows|
    requires forall i :: 0 <= i < |later| ==>
               && later[i].serial == db.rows[i].serial && later[i].name == db.rows[i].name
               && (Is(later[i], 'V') ==> Is(db.rows[i], 'V'))
    ensures DistinctSerials(later) && NamesIndexed(db.(rows := later))
  {
    hide Key, Is;
  }

  /** Replacing rows one by one keeps the invariant as long as each only becomes. */
  lemma RowsKeep(lib: Library, db: Db, later: seq<Entry>)
    requires Invariant(lib, db) && |later| == |db.rows| && AllSound(lib, later) && Evolves(db.rows, later)
    ensures Invariant(lib, db.(rows := later))
  {
    hide Sound, DistinctSerials, NamesIndexed;
    forall i | 0 <= i < |later|
      ensures later[i].serial == db.rows[i].serial && later[i].name == db.rows[i].name
      ensures Is(later[i], 'V') ==> Is(db.rows[i], 'V')
    {
      assert Becomes(db.rows[i], later[i]);
    }
    RowsIndexed(db, later);
  }

  lemma RevokeExisting(lib: Library, db: Db, cert: Cert, kind: RevType, arg: string, now: string)
    requires PlainTexts(lib) && Now(lib, now) && Invariant(lib, db) && Find(db.rows, NewEntry(cert).serial) >= 0
    ensures var after := Revoke(lib, db, cert, kind, arg, now).db; Invariant(lib, after) && Evolves(db.rows, after.rows)
  {
    hide Find, NewEntry, Sound, MakeRevocation;
    var i := Find(db.rows, NewEntry(cert).serial);
    var after := Revoke(lib, db, cert, kind, arg, now).db;
    if after != db {
      MarkSound(lib, db.rows[i], kind, arg, now);
      assert db.rows[i].status != "" by { SoundParts(lib, db.rows[i]); }
      RowsKeep(lib, db, after.rows);
    }
  }

  lemma SoundParts(lib: Library, e: Entry)
    requires Sound(lib, e)
    ensures e.status != "" && lib.time(e.expDate) && WellFormed(e.serial)
  {
    hide WellFormed, Unpack, Persistable;
  }

  lemma RevokeKeeps(lib: Library, db: Db, cert: Cert, kind: RevType, arg: string, now: string)
    requires PlainTexts(lib) && Now(lib, now) && CertOk(lib, cert) && Invariant(lib, db)
    ensures var after := Revoke(lib, db, cert, kind, arg, now).db; Invariant(lib, after) && Evolves(db.rows, after.rows)
  {
    hide Find, Sound, MakeRevocation, NewEntry, Insert;
    var row := NewEntry(cert);
    if Find(db.rows, row.serial) >= 0 {
      RevokeExisting(lib, db, cert, kind, arg, now);
    } else if Insert(db, row).Some? {
      var added := Insert(db, row).value;
      NewEntrySound(lib, cert);
      InsertKeeps(lib, db, row);
      InsertFinds(db, row);
      RevokeExisting(lib, added, cert, kind, arg, now);
      EvolvesTransitive(db.rows, added.rows, Revoke(lib, added, cert, kind, arg, now).db.rows);
    }
  }

  lemma {:induction false} UpdateRows(lib: Library, rows: seq<Entry>, expired: string -> bool)
    requires AllSound(lib, rows)
    ensures var later := Update(lib, rows, expired);
            |later| == |rows| && AllSound(lib, later) && Evolves(rows, later)
  {
    hide Sound, Becomes, Expire;
    if rows != [] {
      var tail := rows[1..];
      assert forall i :: 0 <= i < |tail| ==> tail[i] == rows[i + 1];
      UpdateRows(lib, tail, expired);
      ExpireSound(lib, rows[0], expired);
      assert forall i :: 0 <= i < |rows| ==> Becomes(rows[i], rows[i]) by { BecomesReflexive(rows); }
      UpdateHead(lib, rows[0], tail, Expire(rows[0], expired), Update(lib, tail, expired));
      assert rows == [rows[0]] + tail;
    }
  }

  lemma BecomesReflexive(rows: seq<Entry>)
    ensures Evolves(rows, rows)
  {}

  lemma UpdateHead(lib: Library, e: Entry, tail: seq<Entry>, f: Entry, later: seq<Entry>)
    requires Sound(lib, f) && Becomes(e, f) && AllSound(lib, later) && Evolves(tail, later)
    ensures AllSound(lib, [f] + later) && Evolves([e] + tail, [f] + later)
  {
    hide Sound, Becomes;
  }

  lemma ExpireSound(lib: Library, e: Entry, expired: string -> bool)
    requires Sound(lib, e)
    ensures Sound(lib, Expire(e, expired)) && Becomes(e, Expire(e, expired))
  {
    PlainWords();
    hide Unpack, WellFormed, Persistable, Plain;
    PersistsExactly(e);
    PersistsExactly(Expire(e, expired));
  }

  function ValidCount(rows: seq<Entry>): nat {
    if rows == [] then 0 else (if Is(rows[0], 'V') then 1 else 0) + ValidCount(rows[1..])
  }

  /** Expiring a sound database never fails, marks exactly the valid rows whose date
      has passed, and answers by how many the valid rows became fewer. */
  lemma {:induction false} UpdateExact(lib: Library, rows: seq<Entry>, expired: string -> bool)
    requires AllSound(lib, rows)
    ensures |Update(lib, rows, expired)| == |rows| && Count(lib, rows, expired).Some?
    ensures forall i :: 0 <= i < |rows| ==> Update(lib, rows, expired)[i] == Expire(rows[i], expired)
    ensures ValidCount(rows) == ValidCount(Update(lib, rows, expired)) + Count(lib, rows, expired).value
  {
    hide Expire, Sound, Is;
    if rows != [] {
      var tail := rows[1..];
      assert forall i :: 0 <= i < |tail| ==> tail[i] == rows[i + 1];
      UpdateExact(lib, tail, expired);
      SoundParts(lib, rows[0]);
      ExpireStatus(rows[0], expired);
      assert Update(lib, rows, expired)[1..] == Update(lib, tail, expired);
    }
  }

  lemma ExpireStatus(e: Entry, expired: string -> bool)
    ensures Is(Expire(e, expired), 'V') <==> Is(e, 'V') && !expired(e.expDate)
  {}

  lemma EntriesOfFields(rows: seq<Entry>)
    ensures Entries(AllFields(rows)) == rows
  {
    forall i | 0 <= i < |rows| ensures Entries(AllFields(rows))[i] == rows[i] {
      assert AllFields(rows)[i] == FieldsOf(rows[i]);
    }
  }

  /** Rows that can be written are found again, and the database opens exactly when
      every row passes and both indexes can be built. */
  lemma ReopenExactly(lib: Library, db: Db)
    requires forall i :: 0 <= i < |db.rows| ==> Persistable(FieldsOf(db.rows[i]))
    ensures Reopened(lib, db).ok
       <==> (forall e <- db.rows :: Loads(lib, e)) && DistinctSerials(db.rows) && (db.unique ==> DistinctNames(db.rows))
    ensures Reopened(lib, db).ok ==>
              Reopened(lib, db).db == Db(db.rows, db.unique, if db.unique then ValidNames(db.rows) else {})
  {
    hide Loads, Persistable, Read, Save, DistinctSerials, DistinctNames, ValidNames, Entries, AllFields;
    ReadSaved(db);
    EntriesOfFields(db.rows);
    ReadPersists(Save(db), FIELDS);
  }

  lemma ReadSaved(db: Db)
    requires forall i :: 0 <= i < |db.rows| ==> Persistable(FieldsOf(db.rows[i]))
    ensures Read(Save(db), FIELDS) == Some(AllFields(db.rows))
  {
    hide Persistable, Read, Write;
    FileRoundTrip(AllFields(db.rows), FIELDS);
  }

  /** What the tool saves it can open again, and finds the same rows. */
  lemma ReopenSucceeds(lib: Library, db: Db)
    requires Invariant(lib, db)
    ensures Reopened(lib, db) == Outcome(Db(db.rows, db.unique, if db.unique then ValidNames(db.rows) else {}), true)
  {
    hide Loads, Persistable, Load, Save, DistinctSerials, DistinctNames, ValidNames;
    forall i | 0 <= i < |db.rows| ensures Loads(lib, db.rows[i]) && Persistable(FieldsOf(db.rows[i])) {
      assert Sound(lib, db.rows[i]);
    }
    ReopenExactly(lib, db);
  }

  /** Whatever the load check lets through satisfies the invariant, but for rows without
      a status. */
  lemma OpenedBy(lib: Library, text: string, unique: bool)
    ensures var db := Load(lib, text, unique);
            && (db.Some? ==> Opened(lib, db.value))
            && (db.Some? && (forall e <- db.value.rows :: e.status != "") ==> Invariant(lib, db.value))
  {
    hide Loads, Persistable, Read, DistinctSerials, DistinctNames;
    var db := Load(lib, text, unique);
    if db.Some? {
      ReadPersists(text, FIELDS);
      var fields, rows := Read(text, FIELDS).value, db.value.rows;
      forall i | 0 <= i < |rows| ensures Kept(lib, rows[i]) {
        assert rows[i] == EntryOf(fields[i]) && fields[i] in fields && rows[i] in rows;
        FieldsOfEntry(fields[i]);
      }
    }
  }

  lemma FieldsOfEntry(f: Fields)
    requires |f| == FIELDS
    ensures FieldsOf(EntryOf(f)) == f
  {}

  lemma StepKeeps(lib: Library, db: Db, step: Step)
    requires PlainTexts(lib) && Invariant(lib, db) && StepOk(lib, step)
    ensures var after := Exec(lib, db, step).db; Invariant(lib, after) && Evolves(db.rows, after.rows)
  {
    hide Sound, Insert, NewEntry, Revoke, Reopened, Load, Key, PlainTexts;
    match step {
      case Issue(cert) =>
        NewEntrySound(lib, cert);
        if Insert(db, NewEntry(cert)).Some? {
          InsertKeeps(lib, db, NewEntry(cert));
        }
      case Revocation(cert, kind, arg, now) => RevokeKeeps(lib, db, cert, kind, arg, now);
      case UpdateDb(expired) =>
        UpdateRows(lib, db.rows, expired);
        RowsKeep(lib, db, Update(lib, db.rows, expired));
      case Reopen =>
        ReopenSucceeds(lib, db);
        BecomesReflexive(db.rows);
    }
  }

  /** Every database the tool produces is sound, can be opened again, and grew out of
      the one it started from. */
  lemma {:induction false} EveryRun(lib: Library, db: Db, steps: seq<Step>)
    requires PlainTexts(lib) && Invariant(lib, db) && forall step <- steps :: StepOk(lib, step)
    ensures var end := Run(lib, db, steps);
            Invariant(lib, end) && Reopened(lib, end).ok && Reopened(lib, end).db.rows == end.rows
            && Evolves(db.rows, end.rows)
    decreases |steps|
  {
    hide Invariant, Exec, Reopened, PlainTexts, StepOk;
    if steps == [] {
      ReopenSucceeds(lib, db);
    } else {
      assert steps[0] in steps;
      StepKeeps(lib, db, steps[0]);
      var next := Exec(lib, db, steps[0]).db;
      EveryRun(lib, next, steps[1..]);
      EvolvesTransitive(db.rows, next.rows, Run(lib, db, steps).rows);
    }
  }

  /** The same from any file the tool opens, as long as every row has a status. */
  lemma EveryRunFromFile(lib: Library, text: string, unique: bool, start: Db, steps: seq<Step>)
    requires PlainTexts(lib) && Load(lib, text, unique) == Some(start) && forall step <- steps :: StepOk(lib, step)
    requires forall e <- start.rows :: e.status != ""
    ensures var end := Run(lib, start, steps);
            && Evolves(start.rows, end.rows) && DistinctSerials(end.rows) && (unique ==> DistinctNames(end.rows))
            && (forall e <- end.rows :: Is(e, 'R') <==> e.revDate != "")
            && Load(lib, Save(end), end.unique).Some? && Load(lib, Save(end), end.unique).value.rows == end.rows
  {
    hide Load, PlainTexts, StepOk, Run, Evolves, Save, Sound;
    OpenedBy(lib, text, unique);
    EveryRun(lib, start, steps);
    var end := Run(lib, start, steps);
    RunUnique(lib, start, steps);
    LoadUnique(lib, text, unique);
    forall e | e in end.rows ensures Is(e, 'R') <==> e.revDate != "" {
      RevokedIffDated(lib, e);
    }
  }

  lemma LoadUnique(lib: Library, text: string, unique: bool)
    ensures var db := Load(lib, text, unique); db.Some? ==> db.value.unique == unique
  {}

  lemma {:induction false} RunUnique(lib: Library, db: Db, steps: seq<Step>)
    ensures Run(lib, db, steps).unique == db.unique
    decreases |steps|
  {
    hide Exec;
    if steps != [] {
      ExecUnique(lib, db, steps[0]);
      RunUnique(lib, Exec(lib, db, steps[0]).db, steps[1..]);
    }
  }

  lemma ExecUnique(lib: Library, db: Db, step: Step)
    ensures Exec(lib, db, step).db.unique == db.unique
  {
    hide Load, Find, Revoke, NewEntry, Save;
    match step {
      case Revocation(cert, kind, arg, now) => RevokeUnique(lib, db, cert, kind, arg, now);
      case Reopen => LoadUnique(lib, Save(db), db.unique);
      case _ =>
    }
  }

  lemma RevokeUnique(lib: Library, db: Db, cert: Cert, kind: RevType, arg: string, now: string)
    ensures Revoke(lib, db, cert, kind, arg, now).db.unique == db.unique
    decreases if Find(db.rows, NewEntry(cert).serial) < 0 then 1 else 0
  {
    hide Find, MakeRevocation, NewEntry;
    var row := NewEntry(cert);
    if Find(db.rows, row.serial) < 0 && Insert(db, row).Some? {
      InsertFinds(db, row);
      RevokeUnique(lib, Insert(db, row).value, cert, kind, arg, now);
    }
  }
}
