/** Exactly when the database can be saved and opened again after a revocation. */
module CaReload {
  import opened Inverses
  import opened TxtDb
  import opened Serials
  import opened Revocation
  import opened CaDatabase
  import opened CaRuns
  import opened CaLifecycle

  /** Revoking leaves rows that can be written. */
  lemma RevokePersists(lib: Library, db: Db, cert: Cert, kind: RevType, arg: string, now: string)
    requires PlainTexts(lib) && AllKept(lib, db.rows) && Plain(now) && Plain(cert.notAfter) && '\n' !in cert.subject
    ensures forall e <- Revoke(lib, db, cert, kind, arg, now).db.rows :: Persistable(FieldsOf(e))
  {
    hide Revoke, Find, NewEntry, MakeRevocation, Loads, Persistable, PlainTexts, Plain;
    RevokeShape(lib, db, cert, kind, arg, now);
    NewEntryPersists(cert);
    PlainMade(lib, kind, arg, now);
    var row := NewEntry(cert);
    var rows := if Find(db.rows, row.serial) < 0 then db.rows + [row] else db.rows;
    assert forall e <- rows :: Persistable(FieldsOf(e)) by { KeptPersist(lib, db.rows); }
    var made := MakeRevocation(lib, kind, arg, now);
    forall e | e in rows && made.Some? ensures Persistable(FieldsOf(Mark(e, made.value))) {
      MarkPersists(e, made.value);
    }
  }

  lemma KeptPersist(lib: Library, rows: seq<Entry>)
    requires AllKept(lib, rows)
    ensures forall e <- rows :: Persistable(FieldsOf(e)) && Loads(lib, e)
  {
    hide Loads, Persistable;
    forall e | e in rows ensures Kept(lib, e) {
      var i :| 0 <= i < |rows| && rows[i] == e;
    }
  }

  /** And indexes that can be built. */
  lemma RevokeIndexed(lib: Library, db: Db, cert: Cert, kind: RevType, arg: string, now: string)
    requires DistinctSerials(db.rows) && NamesIndexed(db)
    ensures var out := Revoke(lib, db, cert, kind, arg, now).db; DistinctSerials(out.rows) && NamesIndexed(out)
    decreases if Find(db.rows, NewEntry(cert).serial) < 0 then 1 else 0
  {
    hide Find, NewEntry, MakeRevocation, Insert, DistinctSerials, NamesIndexed;
    var row := NewEntry(cert);
    if Find(db.rows, row.serial) >= 0 {
      RevokeKnown(lib, db, cert, kind, arg, now);
      RowsIndexed(db, Revoke(lib, db, cert, kind, arg, now).db.rows);
    } else if Insert(db, row).Some? {
      InsertFinds(db, row);
      InsertIndexed(db, row);
      RevokeIndexed(lib, Insert(db, row).value, cert, kind, arg, now);
    }
  }

  /** The row that a call adds or marks passes the load check. */
  predicate GoodDates(lib: Library, db: Db, cert: Cert, kind: RevType, now: string) {
    var i := Find(db.rows, NewEntry(cert).serial);
    && (i < 0 ==> lib.time(cert.notAfter))
    && (kind != AddValid ==> lib.utcTime(now))
    && (0 <= i && db.rows[i].status == "" ==> lib.time(""))
  }

  lemma RowsLoadExactly(lib: Library, db: Db, cert: Cert, kind: RevType, arg: string, now: string)
    requires AllKept(lib, db.rows) && ',' !in now && Revoke(lib, db, cert, kind, arg, now).ok
    ensures (forall e <- Revoke(lib, db, cert, kind, arg, now).db.rows :: Loads(lib, e))
       <==> GoodDates(lib, db, cert, kind, now)
  {
    hide Revoke, Find, NewEntry, MakeRevocation, Loads, Kept;
    RevokeShape(lib, db, cert, kind, arg, now);
    var later := Revoke(lib, db, cert, kind, arg, now).db.rows;
    var row := NewEntry(cert);
    NewEntryLoads(lib, cert);
    NewEntryDates(cert);
    KeptPersist(lib, db.rows);
    if kind == AddValid {
      RevokeAdds(lib, db, cert, kind, arg, now);
      OneMoreLoads(lib, db.rows, row);
    } else {
      var rows := if Find(db.rows, row.serial) < 0 then db.rows + [row] else db.rows;
      var i := Find(rows, row.serial);
      MarkLoads(lib, rows[i], kind, arg, now);
      LoadsParts(lib, rows[i]);
      OthersLoad(lib, db.rows, rows, i, later);
      FindAdded(db.rows, row);
    }
  }

  /** After a successful revocation, or addition, of a certificate the database can be
      saved and opened again exactly when the expiry date of a newly added certificate
      is a time, the moment of a revocation is a UTC time, and the row, if it was there,
      had a status. */
  lemma LoadsExactly(lib: Library, db: Db, cert: Cert, kind: RevType, arg: string, now: string)
    requires PlainTexts(lib) && Opened(lib, db) && Revoke(lib, db, cert, kind, arg, now).ok
    requires ',' !in now && Plain(now) && Plain(cert.notAfter) && '\n' !in cert.subject
    ensures Reopened(lib, Revoke(lib, db, cert, kind, arg, now).db).ok <==> GoodDates(lib, db, cert, kind, now)
  {
    hide Revoke, GoodDates, Loads, Persistable, PlainTexts, Plain, AllKept, DistinctSerials, DistinctNames, Reopened;
    RevokePersists(lib, db, cert, kind, arg, now);
    RevokeIndexed(lib, db, cert, kind, arg, now);
    RowsLoadExactly(lib, db, cert, kind, arg, now);
    ReopenExactly(lib, Revoke(lib, db, cert, kind, arg, now).db);
  }

  lemma NewEntryDates(cert: Cert)
    ensures NewEntry(cert).expDate == cert.notAfter && NewEntry(cert).status == "V"
    ensures WellFormed(NewEntry(cert).serial)
  {
    hide SerialText, WellFormed;
    PrintedSerial(cert.serial);
  }

  lemma LoadsParts(lib: Library, e: Entry)
    ensures Loads(lib, e) ==> lib.time(e.expDate) && WellFormed(e.serial)
  {
    hide Unpack;
  }

  lemma FindAdded(rows: seq<Entry>, row: Entry)
    ensures Find(rows + [row], row.serial) == |rows|
  {}

  lemma RevokeAdds(lib: Library, db: Db, cert: Cert, kind: RevType, arg: string, now: string)
    requires kind == AddValid && Revoke(lib, db, cert, kind, arg, now).ok
    ensures Find(db.rows, NewEntry(cert).serial) < 0
    ensures Revoke(lib, db, cert, kind, arg, now).db.rows == db.rows + [NewEntry(cert)]
  {
    hide Find, NewEntry;
  }

  lemma OneMoreLoads(lib: Library, rows: seq<Entry>, row: Entry)
    requires forall e <- rows :: Loads(lib, e)
    ensures (forall e <- rows + [row] :: Loads(lib, e)) <==> Loads(lib, row)
  {
    hide Loads;
    assert row in rows + [row];
  }

  lemma OthersLoad(lib: Library, before: seq<Entry>, rows: seq<Entry>, i: nat, later: seq<Entry>)
    requires forall e <- before :: Loads(lib, e)
    requires i < |rows| == |later| && later == rows[i := later[i]]
    requires forall k :: 0 <= k < |rows| && k != i ==> rows[k] in before
    ensures (forall e <- later :: Loads(lib, e)) <==> Loads(lib, later[i])
  {
    hide Loads;
    assert later[i] in later;
  }

  // ---------------------------------------------------------------- two databases that do not load again

  /** A moment from 2050 on, when the current time is no longer written as a UTC time, and
      one before. */
  const LATE := "20500101000000Z"
  const EARLY := "490101000000Z"

  /** A library that knows these two moments and nothing else. */
  const MOMENTS := Library(s => s == LATE || s == EARLY, s => s == EARLY, s => s == LATE, s => None)

  lemma MomentsPlain()
    ensures PlainTexts(MOMENTS) && Plain(LATE) && Plain(EARLY) && ',' !in LATE && ',' !in EARLY
  {}

  /** Revoked in 2050, a certificate leaves a database that does not open. */
  lemma LateRevocation()
    ensures var db, cert := Db([], false, {}), Cert("a", 1, LATE);
            var out := Revoke(MOMENTS, db, cert, NoReason, "", LATE);
            out.ok && !Reopened(MOMENTS, out.db).ok
  {
    var db, cert := Db([], false, {}), Cert("a", 1, LATE);
    var row := NewEntry(cert);
    assert row.name == "a" && row.status == "V";
    hide NewEntry, Find, PlainTexts, Plain, Reopened, Load, Loads;
    MomentsPlain();
    NothingFound(row.serial);
    InsertFinds(db, row);
    assert Insert(db, row) == Some(Db([row], false, {}));
    RevokeKnown(MOMENTS, Db([row], false, {}), cert, NoReason, "", LATE);
    LoadsExactly(MOMENTS, db, cert, NoReason, "", LATE);
  }

  lemma NothingFound(serial: string)
    ensures Find([], serial) < 0
  {}

  /** A row without a status passes the load check; revoking it cuts its expiry date off,
      and the database does not open again. */
  lemma NoStatusLost()
    ensures var cert := Cert("a", 1, LATE);
            var db := Db([NewEntry(cert).(status := "")], false, {});
            var out := Revoke(MOMENTS, db, cert, NoReason, "", EARLY);
            Opened(MOMENTS, db) && out.ok && !Reopened(MOMENTS, out.db).ok
  {
    var cert := Cert("a", 1, LATE);
    var row := NewEntry(cert).(status := "");
    var db := Db([row], false, {});
    assert row.name == NewEntry(cert).name && row.serial == NewEntry(cert).serial && row.expDate == LATE;
    NoStatusKept(cert);
    Found([row], row.serial, 0);
    hide NewEntry, Find, PlainTexts, Plain, Reopened, Load, Loads, Persistable;
    MomentsPlain();
    RevokeKnown(MOMENTS, db, cert, NoReason, "", EARLY);
    LoadsExactly(MOMENTS, db, cert, NoReason, "", EARLY);
  }

  lemma NoStatusKept(cert: Cert)
    requires cert.notAfter == LATE && cert.subject == "a"
    ensures Kept(MOMENTS, NewEntry(cert).(status := ""))
  {
    MomentsPlain();
    PlainWords();
    PrintedSerial(cert.serial);
    PlainSerial(cert.serial);
    hide SerialText, Persistable, Plain, PlainTexts, WellFormed;
    PersistsExactly(NewEntry(cert).(status := ""));
  }
}
