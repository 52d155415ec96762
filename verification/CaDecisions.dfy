/** Exactly what inserting, revoking and expiring do in every case, the ones in which
    they fail included. */
module CaDecisions {
  import opened Inverses
  import opened TxtDb
  import opened Serials
  import opened Revocation
  import opened CaDatabase

  // ---------------------------------------------------------------- the row of a certificate

  /** Some row has the serial number, leading zeros aside. */
  predicate Known(rows: seq<Entry>, serial: string) {
    exists i :: 0 <= i < |rows| && Key(rows[i].serial) == Key(serial)
  }

  /** A new row is valid, unrevoked and named by its subject. */
  lemma NewRow(cert: Cert)
    ensures var row := NewEntry(cert);
            && Is(row, 'V') && row.expDate == cert.notAfter && row.revDate == "" && row.file == "unknown"
            && SerialNumber(row.serial) == Some(cert.serial) && Canonical(row.serial)
            && row.name == if cert.subject == "" then row.serial else cert.subject
  {
    hide SerialText, SerialNumber;
    PrintedSerial(cert.serial);
    CanonicalText(cert.serial);
  }

  /** A row's line: its six fields in the file's order. */
  lemma SavedLine(e: Entry, unique: bool, names: set<string>)
    requires forall f <- FieldsOf(e) :: '\t' !in f
    ensures Save(Db([e], unique, names)) ==
            e.status + "\t" + (e.expDate + "\t" + (e.revDate + "\t" + (e.serial + "\t" + (e.file + "\t" + e.name))))
            + "\n"
  {
    var f := FieldsOf(e);
    assert AllFields([e]) == [f];
    WriteOne(f);
    hide Write, AllFields, Escape, Format;
    TabFree(f[0]);
    TabFree(f[1]);
    TabFree(f[2]);
    TabFree(f[3]);
    TabFree(f[4]);
    TabFree(f[5]);
    FormatTail(f, 5);
    FormatTail(f, 4);
    FormatTail(f, 3);
    FormatTail(f, 2);
    FormatTail(f, 1);
    FormatTail(f, 0);
    assert f[0..] == f;
  }

  lemma FormatTail(f: Fields, i: nat)
    requires i < |f|
    ensures Format(f[i..]) == if i + 1 == |f| then Escape(f[i]) else Escape(f[i]) + "\t" + Format(f[i + 1..])
  {
    hide Escape;
    assert f[i..][1..] == f[i + 1..];
  }

  lemma WriteOne(f: Fields)
    requires |f| > 0
    ensures Write([f]) == Format(f) + "\n"
  {
    hide Format;
    assert [f][1..] == [];
    assert Write([f][1..]) == "";
  }

  lemma {:induction false} TabFree(f: string)
    requires '\t' !in f
    ensures Escape(f) == f
  {
    if f != "" {
      TabFree(f[1..]);
      assert f == [f[0]] + f[1..];
    }
  }

  // ---------------------------------------------------------------- inserting

  /** The subject is taken: it must be unique and the index holds it. */
  predicate Taken(db: Db, row: Entry) {
    db.unique && Is(row, 'V') && row.name in db.names
  }

  /** Inserting fails exactly on a known serial number or a taken subject; otherwise the
      row is added at the end, and to the name index if it is valid and names are unique. */
  lemma InsertExactly(db: Db, row: Entry)
    ensures Insert(db, row).None? <==> Known(db.rows, row.serial) || Taken(db, row)
    ensures Insert(db, row).Some? ==>
              var after := Insert(db, row).value;
              && after.rows == db.rows + [row] && after.unique == db.unique
              && forall name :: name in after.names <==>
                   name in db.names || (db.unique && Is(row, 'V') && name == row.name)
  {
    hide Key, Is;
  }

  // ---------------------------------------------------------------- revoking

  /** A certificate the database does not know. A taken subject refuses it. Otherwise its
      row is added, valid; it is revoked in the same call if that is asked for and the
      reason means something, and if it does not, the call fails and the row stays. */
  lemma RevokeUnknown(lib: Library, db: Db, cert: Cert, kind: RevType, arg: string, now: string)
    requires !Known(db.rows, NewEntry(cert).serial) && ',' !in now
    ensures var row, out := NewEntry(cert), Revoke(lib, db, cert, kind, arg, now);
            var meant := Meaning(lib, kind, arg, now).Some?;
            && (out.ok <==> !Taken(db, row) && (kind == AddValid || meant))
            && (Taken(db, row) ==> out.db == db)
            && (!Taken(db, row) ==>
                  && out.db.unique == db.unique && |out.db.rows| == |db.rows| + 1
                  && out.db.rows[..|db.rows|] == db.rows
                  && var added := out.db.rows[|db.rows|];
                     if kind == AddValid || !meant then added == row
                     else && Is(added, 'R') && Some(added.revDate) == MakeRevocation(lib, kind, arg, now)
                          && added.(status := row.status, revDate := row.revDate) == row)
  {
    hide Key, MakeRevocation, Meaning, Find, SerialText;
    var row := NewEntry(cert);
    RoundTrip(lib, kind, arg, now);
    InsertFinds(db, row);
    FindKnown(db.rows, row.serial);
    if !Taken(db, row) && kind != AddValid {
      var added := Insert(db, row).value;
      assert added.rows[|db.rows|] == row;
      assert Revoke(lib, db, cert, kind, arg, now) == Revoke(lib, added, cert, kind, arg, now);
    }
  }

  /** So the empty reason, which names nothing, is refused and leaves the certificate in
      the database as a valid one. */
  lemma AddedThoughRefused(lib: Library, cert: Cert, now: string)
    requires ',' !in now
    ensures var out := Revoke(lib, Db([], false, {}), cert, CrlReason, "", now);
            !out.ok && out.db.rows == [NewEntry(cert)]
  {
    hide Revoke, NewEntry;
    RevokeUnknown(lib, Db([], false, {}), cert, CrlReason, "", now);
  }

  lemma FindKnown(rows: seq<Entry>, serial: string)
    ensures Find(rows, serial) >= 0 <==> Known(rows, serial)
  {
    hide Key;
  }

  /** A certificate the database knows, in row `i`. The call succeeds exactly when the
      row has the certificate's name, is not revoked yet, and revoking is asked for with
      a reason that means something. Then that row is revoked; otherwise nothing changes. */
  lemma RevokeKnown(lib: Library, db: Db, cert: Cert, kind: RevType, arg: string, now: string, i: nat)
    requires DistinctSerials(db.rows) && i < |db.rows| && ',' !in now
    requires Key(db.rows[i].serial) == Key(NewEntry(cert).serial)
    ensures var row, out := NewEntry(cert), Revoke(lib, db, cert, kind, arg, now);
            && (out.ok <==> && db.rows[i].name == row.name && !Is(db.rows[i], 'R') && kind != AddValid
                            && Meaning(lib, kind, arg, now).Some?)
            && (!out.ok ==> out.db == db)
            && (out.ok ==>
                  && out.db.unique == db.unique && out.db.names == db.names && |out.db.rows| == |db.rows|
                  && (forall j :: 0 <= j < |db.rows| && j != i ==> out.db.rows[j] == db.rows[j])
                  && var r := out.db.rows[i];
                  && Is(r, 'R') && Some(r.revDate) == MakeRevocation(lib, kind, arg, now)
                  && r.serial == db.rows[i].serial && r.name == db.rows[i].name && r.file == db.rows[i].file
                  && (db.rows[i].status != "" ==> r.expDate == db.rows[i].expDate))
  {
    hide Key, MakeRevocation, Meaning, NewEntry;
    RoundTrip(lib, kind, arg, now);
    FindIs(db.rows, NewEntry(cert).serial, i);
  }

  lemma FindIs(rows: seq<Entry>, serial: string, i: nat)
    requires DistinctSerials(rows) && i < |rows| && Key(rows[i].serial) == Key(serial)
    ensures Find(rows, serial) == i
  {
    hide Key;
    var j := Find(rows, serial);
    assert j >= 0;
  }

  // ---------------------------------------------------------------- expiring

  /** A valid row whose date cannot be read. */
  predicate Unreadable(lib: Library, e: Entry) {
    Is(e, 'V') && !lib.time(e.expDate)
  }

  /** Expiring fails exactly when there is a valid row whose date cannot be read. The
      rows before the first such row are expired by then; it and those after it are left
      alone. */
  lemma {:induction false} UpdateStops(lib: Library, rows: seq<Entry>, expired: string -> bool, k: nat)
    requires k <= |rows| && (k < |rows| ==> Unreadable(lib, rows[k]))
    requires forall j :: 0 <= j < k ==> !Unreadable(lib, rows[j])
    ensures Count(lib, rows, expired).None? <==> k < |rows|
    ensures var after := Update(lib, rows, expired);
            && |after| == |rows|
            && (forall j :: 0 <= j < |rows| ==>
                  after[j] == if j < k && Is(rows[j], 'V') && expired(rows[j].expDate) then rows[j].(status := "E")
                              else rows[j])
    decreases |rows|
  {
    hide Is;
    if rows != [] && k > 0 {
      var rest := rows[1..];
      forall j | 0 <= j < k - 1
        ensures !Unreadable(lib, rest[j])
      {
        assert rest[j] == rows[j + 1];
      }
      assert k < |rows| ==> rest[k - 1] == rows[k];
      assert !Unreadable(lib, rows[0]);
      UpdateStops(lib, rest, expired, k - 1);
    }
  }
}
