/** The certificate revocation list made from the database. */
module CaCrl {
  import opened Inverses
  import opened TxtDb
  import opened Serials
  import opened Revocation
  import opened CaDatabase
  import opened CaRuns
  import opened CaLifecycle
  import opened CaReload

  datatype CrlEntry = CrlEntry(serial: int, info: RevInfo)

  function CrlRow(lib: Library, e: Entry): Option<CrlEntry> {
    var info, serial := Unpack(lib, e.revDate), SerialNumber(e.serial);
    if info.Some? && serial.Some? then Some(CrlEntry(serial.value, info.value)) else None
  }

  /** Every revoked row in turn; one that cannot be read fails the whole list. */
  function Crl(lib: Library, rows: seq<Entry>): Option<seq<CrlEntry>> {
    if rows == [] then Some([])
    else if !Is(rows[0], 'R') then Crl(lib, rows[1..])
    else
      match (CrlRow(lib, rows[0]), Crl(lib, rows[1..]))
      case (Some(first), Some(rest)) => Some([first] + rest)
      case _ => None
  }

  function Prefixed(done: seq<CrlEntry>, rest: Option<seq<CrlEntry>>): Option<seq<CrlEntry>> {
    if rest == None then None else Some(done + rest.value)
  }

  lemma CrlStep(lib: Library, rows: seq<Entry>, i: nat, done: seq<CrlEntry>)
    requires i < |rows|
    ensures !Is(rows[i], 'R') ==> Crl(lib, rows[i..]) == Crl(lib, rows[i + 1..])
    ensures Is(rows[i], 'R') ==>
              Prefixed(done, Crl(lib, rows[i..]))
              == if CrlRow(lib, rows[i]) == None then None
                 else Prefixed(done + [CrlRow(lib, rows[i]).value], Crl(lib, rows[i + 1..]))
  {
    hide Is, CrlRow;
    assert rows[i..][1..] == rows[i + 1..] && rows[i..][0] == rows[i];
    var first, rest := CrlRow(lib, rows[i]), Crl(lib, rows[i + 1..]);
    if first.Some? && rest.Some? {
      assert done + ([first.value] + rest.value) == done + [first.value] + rest.value;
    }
  }

  /** The list, and whether any of its entries carries a reason, which makes it a
      version 2 list. */
  method MakeCrl(lib: Library, rows: seq<Entry>) returns (crl: Option<seq<CrlEntry>>, v2: bool)
    ensures crl == Crl(lib, rows)
    ensures crl.Some? ==> (v2 <==> exists entry <- crl.value :: entry.info.reason != -1)
  {
    hide Crl, Is, SerialNumber, Unpack;
    var list: seq<CrlEntry> := [];
    v2 := false;
    assert rows[0..] == rows && (Crl(lib, rows).Some? ==> [] + Crl(lib, rows).value == Crl(lib, rows).value);
    for i := 0 to |rows|
      invariant Prefixed(list, Crl(lib, rows[i..])) == Crl(lib, rows)
      invariant v2 <==> exists entry <- list :: entry.info.reason != -1
    {
      CrlStep(lib, rows, i, list);
      if Is(rows[i], 'R') {
        var info := UnpackRevocation(lib, rows[i].revDate);
        if info == None {
          return None, v2;
        }
        if info.value.reason != -1 {
          v2 := true;
        }
        var serial := SerialNumber(rows[i].serial);
        if serial == None {
          return None, v2;
        }
        list := list + [CrlEntry(serial.value, info.value)];
      }
    }
    assert rows[|rows|..] == [] && list + [] == list;
    CrlNone(lib);
    return Some(list), v2;
  }

  lemma CrlNone(lib: Library)
    ensures Crl(lib, []) == Some([])
  {}

  /** The entries are those of the revoked rows, at the positions `ps`, in order. */
  predicate InOrder(lib: Library, rows: seq<Entry>, ps: seq<nat>, crl: seq<CrlEntry>) {
    && |ps| == |crl|
    && (forall t :: 0 <= t < |ps| ==>
          ps[t] < |rows| && Is(rows[ps[t]], 'R') && CrlRow(lib, rows[ps[t]]) == Some(crl[t]))
    && (forall t, u :: 0 <= t < u < |ps| ==> ps[t] < ps[u])
    && (forall i :: 0 <= i < |rows| && Is(rows[i], 'R') ==> i in ps)
  }

  lemma OrderNext(lib: Library, rows: seq<Entry>, e: Entry, ps: seq<nat>, crl: seq<CrlEntry>)
    requires InOrder(lib, rows, ps, crl)
    ensures !Is(e, 'R') ==> InOrder(lib, rows + [e], ps, crl)
    ensures Is(e, 'R') && CrlRow(lib, e).Some? ==>
              InOrder(lib, rows + [e], ps + [|rows|], crl + [CrlRow(lib, e).value])
  {
    hide Is, CrlRow;
  }

  lemma {:induction false} CrlLast(lib: Library, rows: seq<Entry>, e: Entry)
    ensures Crl(lib, rows + [e]) ==
            if !Is(e, 'R') then Crl(lib, rows)
            else if Crl(lib, rows) == None || CrlRow(lib, e) == None then None
            else Some(Crl(lib, rows).value + [CrlRow(lib, e).value])
  {
    hide Is, CrlRow;
    if rows == [] {
      assert rows + [e] == [e] && [e][1..] == [];
      CrlNone(lib);
      assert Crl(lib, [e][1..]) == Some([]);
      if CrlRow(lib, e).Some? {
        var entry := CrlRow(lib, e).value;
        assert [entry] + [] == [] + [entry];
      }
    } else {
      assert (rows + [e])[0] == rows[0] && (rows + [e])[1..] == rows[1..] + [e];
      CrlLast(lib, rows[1..], e);
      var first, rest, last := CrlRow(lib, rows[0]), Crl(lib, rows[1..]), CrlRow(lib, e);
      if first.Some? && rest.Some? && last.Some? {
        assert [first.value] + (rest.value + [last.value]) == [first.value] + rest.value + [last.value];
      }
    }
  }

  /** The list can be made exactly when every revoked row can be read, and then it holds
      what they say in the order of the rows. */
  lemma {:induction false} CrlExactly(lib: Library, rows: seq<Entry>) returns (ps: seq<nat>)
    ensures Crl(lib, rows).Some? <==> forall e <- rows :: Is(e, 'R') ==> CrlRow(lib, e).Some?
    ensures Crl(lib, rows).Some? ==> InOrder(lib, rows, ps, Crl(lib, rows).value)
    decreases |rows|
  {
    if rows == [] {
      return [];
    }
    hide Is, CrlRow, InOrder, Crl;
    var n := |rows| - 1;
    var init, e := rows[..n], rows[n];
    assert rows == init + [e];
    ps := CrlExactly(lib, init);
    CrlLast(lib, init, e);
    if Crl(lib, rows).Some? {
      OrderNext(lib, init, e, ps, Crl(lib, init).value);
    }
    ps := if Is(e, 'R') then ps + [n] else ps;
  }

  // ---------------------------------------------------------------- exactness

  /** How often a serial number is on the list. */
  function Listed(crl: seq<CrlEntry>, n: int): nat {
    if crl == [] then 0 else Bit(crl[0].serial == n) + Listed(crl[1..], n)
  }

  /** The row is revoked and its serial reads as the number. */
  predicate Revokes(e: Entry, n: int) {
    Is(e, 'R') && SerialNumber(e.serial) == Some(n)
  }

  function RevokedRows(rows: seq<Entry>, n: int): nat {
    if rows == [] then 0 else Bit(Revokes(rows[0], n)) + RevokedRows(rows[1..], n)
  }

  predicate AllLoad(lib: Library, rows: seq<Entry>) {
    forall e <- rows :: Loads(lib, e)
  }

  lemma LoadsListed(lib: Library, e: Entry)
    requires Loads(lib, e)
    ensures SerialNumber(e.serial).Some? && (Is(e, 'R') ==> CrlRow(lib, e).Some?)
  {
    hide SerialNumber, WellFormed, Unpack;
    KeyOfText(e.serial);
  }

  lemma CrlRowSerial(lib: Library, e: Entry)
    requires CrlRow(lib, e).Some?
    ensures SerialNumber(e.serial) == Some(CrlRow(lib, e).value.serial)
  {}

  /** Of rows that load, the list can be made, and it names a number as often as
      revoked rows have it. */
  lemma {:induction false} CrlCounts(lib: Library, rows: seq<Entry>, n: int)
    requires AllLoad(lib, rows)
    ensures Crl(lib, rows).Some? && Listed(Crl(lib, rows).value, n) == RevokedRows(rows, n)
  {
    hide Loads, CrlRow, SerialNumber, Is;
    if rows != [] {
      var e := rows[0];
      assert e in rows && forall f <- rows[1..] :: f in rows;
      CrlCounts(lib, rows[1..], n);
      LoadsListed(lib, e);
      if Is(e, 'R') {
        CrlRowSerial(lib, e);
        var first, rest := CrlRow(lib, e).value, Crl(lib, rows[1..]).value;
        assert ([first] + rest)[1..] == rest;
      }
    }
  }

  /** No two revoked rows read as the same number. */
  predicate NumbersDistinct(rows: seq<Entry>) {
    forall i, j :: 0 <= i < j < |rows| && Is(rows[i], 'R') && Is(rows[j], 'R') ==>
      SerialNumber(rows[i].serial) != SerialNumber(rows[j].serial)
  }

  lemma {:induction false} CountedAt(rows: seq<Entry>, i: nat, n: int)
    requires i < |rows| && Revokes(rows[i], n)
    ensures RevokedRows(rows, n) >= 1
  {
    hide Revokes;
    if i > 0 {
      assert rows[1..][i - 1] == rows[i];
      CountedAt(rows[1..], i - 1, n);
    }
  }

  lemma {:induction false} CountedTwice(rows: seq<Entry>, i: nat, j: nat, n: int)
    requires i < j < |rows| && Revokes(rows[i], n) && Revokes(rows[j], n)
    ensures RevokedRows(rows, n) >= 2
    decreases i
  {
    hide Revokes;
    assert rows[1..][j - 1] == rows[j];
    if i == 0 {
      CountedAt(rows[1..], j - 1, n);
    } else {
      assert rows[1..][i - 1] == rows[i];
      CountedTwice(rows[1..], i - 1, j - 1, n);
    }
  }

  lemma {:induction false} CountedSomewhere(rows: seq<Entry>, n: int)
    ensures RevokedRows(rows, n) > 0 ==> exists i :: 0 <= i < |rows| && Revokes(rows[i], n)
  {
    hide Revokes;
    if rows != [] && !Revokes(rows[0], n) {
      CountedSomewhere(rows[1..], n);
      if RevokedRows(rows, n) > 0 {
        var i :| 0 <= i < |rows[1..]| && Revokes(rows[1..][i], n);
        assert rows[i + 1] == rows[1..][i];
      }
    }
  }

  lemma {:induction false} CountedOnce(rows: seq<Entry>, n: int)
    requires NumbersDistinct(rows)
    ensures RevokedRows(rows, n) <= 1
  {
    hide SerialNumber, Is;
    if rows != [] {
      assert forall i :: 0 <= i < |rows[1..]| ==> rows[1..][i] == rows[i + 1];
      CountedOnce(rows[1..], n);
      CountedSomewhere(rows[1..], n);
    }
  }

  /** The list names every number at most once if and only if the revoked rows read as
      different numbers, which the serial index does not ensure. */
  lemma ListedOnceExactly(lib: Library, rows: seq<Entry>)
    requires AllLoad(lib, rows)
    ensures Crl(lib, rows).Some?
    ensures (forall n :: Listed(Crl(lib, rows).value, n) <= 1) <==> NumbersDistinct(rows)
  {
    hide Crl, Listed, SerialNumber, Is, RevokedRows, Loads;
    CrlCounts(lib, rows, 0);
    var crl := Crl(lib, rows).value;
    if NumbersDistinct(rows) {
      forall n ensures Listed(crl, n) <= 1 {
        CrlCounts(lib, rows, n);
        CountedOnce(rows, n);
      }
    } else {
      var i, j :| 0 <= i < j < |rows| && Is(rows[i], 'R') && Is(rows[j], 'R')
                  && SerialNumber(rows[i].serial) == SerialNumber(rows[j].serial);
      assert Loads(lib, rows[i]);
      LoadsListed(lib, rows[i]);
      var n := SerialNumber(rows[i].serial).value;
      CountedTwice(rows, i, j, n);
      CrlCounts(lib, rows, n);
      assert Listed(crl, n) >= 2;
    }
  }

  /** A revoked row with a serial. */
  function EarlyRow(serial: string, name: string): Entry {
    Entry("R", EARLY, EARLY, serial, "unknown", name)
  }

  /** Two revoked rows whose serials differ for the index and not as numbers make a
      database that opens, and whose list names the number twice. */
  lemma TwoRows(s: string, t: string, n: int)
    requires WellFormed(s) && !Signed(s) && WellFormed(t) && !Signed(t) && Key(s) != Key(t)
    requires SerialNumber(s) == Some(n) == SerialNumber(t)
    ensures var rows := [EarlyRow(s, "a"), EarlyRow(t, "b")];
            && Reopened(MOMENTS, Db(rows, false, {})).ok
            && Crl(MOMENTS, rows).Some? && Listed(Crl(MOMENTS, rows).value, n) == 2
  {
    hide Loads, SerialNumber, Reopened, Crl, Key, Listed, WellFormed, Signed;
    var e, f := EarlyRow(s, "a"), EarlyRow(t, "b");
    var rows := [e, f];
    EarlyLoads(s, "a");
    EarlyLoads(t, "b");
    ReopenExactly(MOMENTS, Db(rows, false, {}));
    CrlCounts(MOMENTS, rows, n);
    BothCounted(e, f, n);
  }

  lemma BothCounted(e: Entry, f: Entry, n: int)
    requires Revokes(e, n) && Revokes(f, n)
    ensures RevokedRows([e, f], n) == 2
  {
    hide Revokes;
    assert [e, f][1..] == [f] && [f][1..] == [];
    assert RevokedRows([f], n) == 1;
  }

  /** The serials "0a" and "0A" do so for the number 10. */
  lemma ListedTwice()
    ensures var rows := [EarlyRow("0a", "a"), EarlyRow("0A", "b")];
            && Reopened(MOMENTS, Db(rows, false, {})).ok
            && Crl(MOMENTS, rows).Some? && Listed(Crl(MOMENTS, rows).value, 10) == 2
  {
    CaseSplitsNumber();
    hide *;
    assert !Signed("0a") && !Signed("0A") by { ZeroFirst("0a"); ZeroFirst("0A"); }
    TwoRows("0a", "0A", 10);
  }

  lemma ZeroFirst(t: string)
    requires t != "" && t[0] == '0'
    ensures !Signed(t)
  {}

  lemma EarlyLoads(serial: string, name: string)
    requires WellFormed(serial) && !Signed(serial) && '\n' !in name
    ensures Loads(MOMENTS, EarlyRow(serial, name)) && Persistable(FieldsOf(EarlyRow(serial, name)))
    ensures Is(EarlyRow(serial, name), 'R')
  {
    var e := EarlyRow(serial, name);
    MomentsPlain();
    PlainWords();
    PlainHex(serial);
    EarlyUnpacks();
    assert MOMENTS.time(EARLY) && e.status == "R" && e.status[0] == 'R';
    hide WellFormed, Unpack, Plain, PlainTexts, Persistable;
    PersistsExactly(e);
  }

  lemma EarlyUnpacks()
    ensures Unpack(MOMENTS, EARLY).Some?
  {
    MomentsPlain();
    OnePart(EARLY);
    assert MOMENTS.utcTime(EARLY);
    hide Parts, FirstReason, PlainTexts, Plain;
  }

  // ---------------------------------------------------------------- along a run

  predicate AllCanonical(rows: seq<Entry>) {
    forall e <- rows :: Canonical(e.serial)
  }

  /** Printed serials are told apart by the index whenever they differ as numbers. */
  lemma CanonicalDistinct(rows: seq<Entry>)
    requires AllCanonical(rows) && DistinctSerials(rows)
    ensures NumbersDistinct(rows)
  {
    hide SerialNumber, SerialText, Key, Is;
    forall i, j | 0 <= i < j < |rows| ensures SerialNumber(rows[i].serial) != SerialNumber(rows[j].serial) {
      assert rows[i] in rows && rows[j] in rows;
      assert Canonical(rows[i].serial) && Canonical(rows[j].serial);
    }
  }

  /** And the number is then revoked exactly when the index's row for it is. */
  lemma CanonicalRevoked(rows: seq<Entry>, n: int)
    requires AllCanonical(rows) && NumbersDistinct(rows)
    ensures RevokedRows(rows, n) == Bit(IsRevoked(Db(rows, false, {}), n))
  {
    hide SerialNumber, SerialText, Key, RevokedRows, Is;
    CountedOnce(rows, n);
    CountedSomewhere(rows, n);
    forall i | 0 <= i < |rows| ensures Has(rows[i], n) <==> SerialNumber(rows[i].serial) == Some(n) {
      assert rows[i] in rows;
      PrintedKeys(SerialNumber(rows[i].serial).value, n);
    }
    if IsRevoked(Db(rows, false, {}), n) {
      var i :| 0 <= i < |rows| && Is(rows[i], 'R') && Has(rows[i], n);
      CountedAt(rows, i, n);
    }
    if RevokedRows(rows, n) > 0 {
      var i :| 0 <= i < |rows| && Revokes(rows[i], n);
      assert Has(rows[i], n);
    }
  }

  /** Serials only ever enter the database as printed numbers. */
  lemma ExecCanonical(lib: Library, db: Db, step: Step)
    requires PlainTexts(lib) && Invariant(lib, db) && AllCanonical(db.rows)
    ensures AllCanonical(Exec(lib, db, step).db.rows)
  {
    hide Canonical, Revoke, Update, Load, Save, Find, PlainTexts, Invariant, Insert, MakeRevocation;
    match step {
      case Issue(cert) =>
        InsertedRows(db, NewEntry(cert));
        CanonicalText(cert.serial);
      case Revocation(cert, kind, arg, now) =>
        RevokeShape(lib, db, cert, kind, arg, now);
        CanonicalText(cert.serial);
      case UpdateDb(expired) => UpdateCanonical(lib, db.rows, expired);
      case Reopen => ReopenSucceeds(lib, db);
    }
  }

  lemma {:induction false} UpdateCanonical(lib: Library, rows: seq<Entry>, expired: string -> bool)
    requires AllCanonical(rows)
    ensures AllCanonical(Update(lib, rows, expired))
  {
    hide Canonical;
    if rows != [] {
      assert rows[0] in rows && forall e <- rows[1..] :: e in rows;
      UpdateCanonical(lib, rows[1..], expired);
    }
  }

  lemma {:induction false} RunCanonical(lib: Library, db: Db, steps: seq<Step>)
    requires PlainTexts(lib) && Invariant(lib, db) && AllCanonical(db.rows) && forall step <- steps :: StepOk(lib, step)
    ensures AllCanonical(Run(lib, db, steps).rows)
    decreases |steps|
  {
    hide AllCanonical, Exec, PlainTexts, Invariant, StepOk;
    if steps != [] {
      assert steps[0] in steps;
      StepKeeps(lib, db, steps[0]);
      ExecCanonical(lib, db, steps[0]);
      RunCanonical(lib, Exec(lib, db, steps[0]).db, steps[1..]);
    }
  }

  lemma SoundLoad(lib: Library, db: Db)
    requires Invariant(lib, db)
    ensures AllLoad(lib, db.rows)
  {
    hide Loads;
    forall e | e in db.rows ensures Loads(lib, e) {
      var i :| 0 <= i < |db.rows| && db.rows[i] == e;
      assert Sound(lib, db.rows[i]);
    }
  }

  /** After any run the list can be made, and names a number as often as revoked rows
      have it. When the run began with printed serials only, as a new database does, that
      is exactly once for each revoked serial number and never for another. */
  lemma CrlExact(lib: Library, db: Db, steps: seq<Step>, n: int)
    requires PlainTexts(lib) && Invariant(lib, db) && forall step <- steps :: StepOk(lib, step)
    ensures var end := Run(lib, db, steps);
            && Crl(lib, end.rows).Some?
            && Listed(Crl(lib, end.rows).value, n) == RevokedRows(end.rows, n)
            && (AllCanonical(db.rows) ==>
                  Listed(Crl(lib, end.rows).value, n) == Bit(IsRevoked(end, n))
                                                      == Bit(IsRevoked(db, n)) + Revocations(lib, db, steps, n))
  {
    hide PlainTexts, StepOk, Run, Reopened, AllSound, DistinctSerials, NamesIndexed, Evolves, Revocations, Crl, Listed;
    hide RevokedRows, AllLoad, AllCanonical, NumbersDistinct;
    EveryRun(lib, db, steps);
    RevocationsCount(lib, db, steps, n);
    var end := Run(lib, db, steps);
    SoundLoad(lib, end);
    CrlCounts(lib, end.rows, n);
    if AllCanonical(db.rows) {
      RunCanonical(lib, db, steps);
      CanonicalDistinct(end.rows);
      CanonicalRevoked(end.rows, n);
    }
  }

  lemma {:induction false} CrlHas(lib: Library, rows: seq<Entry>, i: nat)
    requires i < |rows| && Is(rows[i], 'R') && Crl(lib, rows).Some?
    ensures CrlRow(lib, rows[i]).Some? && CrlRow(lib, rows[i]).value in Crl(lib, rows).value
    decreases i
  {
    hide Is, CrlRow;
    if i > 0 {
      assert rows[1..][i - 1] == rows[i];
      CrlHas(lib, rows[1..], i - 1);
    }
  }

  lemma RevokedRow(lib: Library, db: Db, cert: Cert, kind: RevType, arg: string, now: string) returns (i: nat)
    requires kind != AddValid && Revoke(lib, db, cert, kind, arg, now).ok
    ensures var rows := Revoke(lib, db, cert, kind, arg, now).db.rows;
            && i < |rows| && Is(rows[i], 'R') && Has(rows[i], cert.serial)
            && MakeRevocation(lib, kind, arg, now) == Some(rows[i].revDate)
  {
    hide Revoke, Find, NewEntry, MakeRevocation, SerialText, Key;
    RevokeShape(lib, db, cert, kind, arg, now);
    NewEntryHas(cert, cert.serial);
    var row := NewEntry(cert);
    i := Find(if Find(db.rows, row.serial) < 0 then db.rows + [row] else db.rows, row.serial);
  }

  /** A row that the index has for a number reads as that number. */
  lemma HasNumber(lib: Library, e: Entry, n: int)
    requires Sound(lib, e) && Has(e, n)
    ensures SerialNumber(e.serial) == Some(n)
  {
    hide SerialNumber, SerialText, Key, WellFormed, Unpack;
    PrintedSerial(n);
    SoundParts(lib, e);
    SameKey(e.serial, SerialText(n));
  }

  /** A revoked row keeps its place, its serial number and its revocation date. */
  lemma RowOnCrl(lib: Library, db: Db, i: nat, n: int, steps: seq<Step>)
    requires PlainTexts(lib) && Invariant(lib, db) && forall step <- steps :: StepOk(lib, step)
    requires i < |db.rows| && Is(db.rows[i], 'R') && Has(db.rows[i], n)
    ensures var end := Run(lib, db, steps);
            && Crl(lib, end.rows).Some? && Unpack(lib, db.rows[i].revDate).Some?
            && CrlEntry(n, Unpack(lib, db.rows[i].revDate).value) in Crl(lib, end.rows).value
  {
    hide PlainTexts, Invariant, StepOk, Run, Evolves, Find, Crl, Unpack, SerialNumber, SerialText, Key;
    EveryRun(lib, db, steps);
    var end := Run(lib, db, steps);
    RunFollows(lib, db, end, i, db.rows[i].serial);
    CrlExact(lib, db, steps, n);
    SoundRow(lib, end, i);
    HasNumber(lib, end.rows[i], n);
    CrlHas(lib, end.rows, i);
  }

  /** What was said when a certificate was revoked is what every later list says. */
  lemma RevocationReachesCrl(lib: Library, db: Db, cert: Cert, kind: RevType, arg: string, now: string,
                             steps: seq<Step>)
    requires PlainTexts(lib) && Invariant(lib, db) && CertOk(lib, cert) && Now(lib, now)
    requires forall step <- steps :: StepOk(lib, step)
    requires kind != AddValid && Revoke(lib, db, cert, kind, arg, now).ok
    ensures var end := Run(lib, Revoke(lib, db, cert, kind, arg, now).db, steps);
            && Meaning(lib, kind, arg, now).Some?
            && Crl(lib, end.rows).Some?
            && CrlEntry(cert.serial, Meaning(lib, kind, arg, now).value) in Crl(lib, end.rows).value
  {
    hide PlainTexts, Invariant, StepOk, Run, Revoke, Find, MakeRevocation, Meaning, Crl, Unpack, Has;
    RevokeKeeps(lib, db, cert, kind, arg, now);
    var i := RevokedRow(lib, db, cert, kind, arg, now);
    RowOnCrl(lib, Revoke(lib, db, cert, kind, arg, now).db, i, cert.serial, steps);
    Revocation.RoundTrip(lib, kind, arg, now);
  }
}
