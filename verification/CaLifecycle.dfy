/** Along every run a certificate is revoked at most once, and can be until it is. */
module CaLifecycle {
  import opened Serials
  import opened Revocation
  import opened CaDatabase
  import opened CaRuns

  predicate Has(e: Entry, n: int) {
    Key(e.serial) == Key(SerialText(n))
  }

  predicate IsRevoked(db: Db, n: int) {
    exists i :: 0 <= i < |db.rows| && Is(db.rows[i], 'R') && Has(db.rows[i], n)
  }

  function Bit(b: bool): nat {
    if b then 1 else 0
  }

  /** The step asks for the certificate with this serial number to be revoked. */
  predicate Asks(step: Step, n: int) {
    step.Revocation? && step.kind != AddValid && step.cert.serial == n
  }

  /** How many steps of a run revoked the certificate. */
  function Revocations(lib: Library, db: Db, steps: seq<Step>, n: int): nat
    decreases |steps|
  {
    if steps == [] then 0 else
      var next := Exec(lib, db, steps[0]);
      Bit(Asks(steps[0], n) && next.ok) + Revocations(lib, next.db, steps[1..], n)
  }

  // ---------------------------------------------------------------- what revoking changes

  /** Revoking changes one row, which was not revoked, or adds one, or does nothing. */
  lemma RevokeShape(lib: Library, db: Db, cert: Cert, kind: RevType, arg: string, now: string)
    ensures var out := Revoke(lib, db, cert, kind, arg, now);
            var row := NewEntry(cert);
            var rows := if Find(db.rows, row.serial) < 0 then db.rows + [row] else db.rows;
            if out.ok && kind != AddValid then
              var i := Find(rows, row.serial);
              && i >= 0 && !Is(rows[i], 'R') && rows[i].name == row.name
              && MakeRevocation(lib, kind, arg, now).Some?
              && out.db.rows == rows[i := Mark(rows[i], MakeRevocation(lib, kind, arg, now).value)]
            else out.db.rows == rows || out.db.rows == db.rows
  {
    hide Find, MakeRevocation, NewEntry, Insert;
    var row := NewEntry(cert);
    if Find(db.rows, row.serial) < 0 && Insert(db, row).Some? {
      InsertFinds(db, row);
      InsertedRows(db, row);
      RevokeKnown(lib, Insert(db, row).value, cert, kind, arg, now);
    } else if Find(db.rows, row.serial) >= 0 {
      RevokeKnown(lib, db, cert, kind, arg, now);
    }
  }

  lemma InsertedRows(db: Db, row: Entry)
    ensures Insert(db, row).Some? ==> Insert(db, row).value.rows == db.rows + [row]
  {}

  lemma RevokeKnown(lib: Library, db: Db, cert: Cert, kind: RevType, arg: string, now: string)
    requires Find(db.rows, NewEntry(cert).serial) >= 0
    ensures var out := Revoke(lib, db, cert, kind, arg, now);
            var i := Find(db.rows, NewEntry(cert).serial);
            var made := MakeRevocation(lib, kind, arg, now);
            && (out.ok <==> db.rows[i].name == NewEntry(cert).name && kind != AddValid && !Is(db.rows[i], 'R')
                            && made.Some?)
            && out.db == if out.ok then db.(rows := db.rows[i := Mark(db.rows[i], made.value)]) else db
  {
    hide Find, MakeRevocation, NewEntry;
  }

  /** In a sound database the serial index is a function: any row with the serial is
      the one it finds. */
  lemma Found(rows: seq<Entry>, serial: string, i: nat)
    requires DistinctSerials(rows) && i < |rows| && Key(rows[i].serial) == Key(serial)
    ensures Find(rows, serial) == i
  {
    hide Key;
  }

  lemma NewEntryHas(cert: Cert, n: int)
    ensures NewEntry(cert).serial == SerialText(cert.serial) && NewEntry(cert).status == "V"
    ensures Has(NewEntry(cert), n) <==> n == cert.serial
  {
    hide Key, SerialText;
    PrintedKeys(cert.serial, n);
  }

  /** The rows keep their serials, the same of them are revoked, and rows added since are
      not. */
  predicate SameRevoked(rows: seq<Entry>, later: seq<Entry>) {
    && |rows| <= |later|
    && (forall i :: 0 <= i < |rows| ==> later[i].serial == rows[i].serial && (Is(later[i], 'R') <==> Is(rows[i], 'R')))
    && (forall i :: |rows| <= i < |later| ==> !Is(later[i], 'R'))
  }

  lemma SameRevokedMeans(db: Db, later: Db, n: int)
    requires SameRevoked(db.rows, later.rows)
    ensures IsRevoked(db, n) <==> IsRevoked(later, n)
  {
    hide Key, SerialText;
    if IsRevoked(db, n) {
      var i :| 0 <= i < |db.rows| && Is(db.rows[i], 'R') && Has(db.rows[i], n);
      assert Has(later.rows[i], n);
    }
    if IsRevoked(later, n) {
      var i :| 0 <= i < |later.rows| && Is(later.rows[i], 'R') && Has(later.rows[i], n);
      assert Has(db.rows[i], n);
    }
  }

  lemma {:induction false} UpdateSameRevoked(lib: Library, rows: seq<Entry>, expired: string -> bool)
    ensures SameRevoked(rows, Update(lib, rows, expired))
  {
    hide Expire, SameRevoked;
    if rows == [] {
      SameRevokedReflexive([]);
    } else {
      UpdateSameRevoked(lib, rows[1..], expired);
      SameRevokedReflexive(rows);
      SameRevokedHead(rows[0], rows[1..], expired, Update(lib, rows[1..], expired));
      assert rows == [rows[0]] + rows[1..];
    }
  }

  lemma SameRevokedReflexive(rows: seq<Entry>)
    ensures SameRevoked(rows, rows)
  {}

  lemma SameRevokedHead(e: Entry, tail: seq<Entry>, expired: string -> bool, later: seq<Entry>)
    requires SameRevoked(tail, later)
    ensures SameRevoked([e] + tail, [Expire(e, expired)] + later)
  {}

  lemma RevokeStep(lib: Library, db: Db, cert: Cert, kind: RevType, arg: string, now: string, n: int)
    requires Invariant(lib, db)
    ensures var out := Revoke(lib, db, cert, kind, arg, now);
            Bit(kind != AddValid && cert.serial == n && out.ok) + Bit(IsRevoked(db, n)) == Bit(IsRevoked(out.db, n))
  {
    hide Find, MakeRevocation, Revoke, Key, SerialText, Sound, IsRevoked;
    var out := Revoke(lib, db, cert, kind, arg, now);
    var row := NewEntry(cert);
    var rows := if Find(db.rows, row.serial) < 0 then db.rows + [row] else db.rows;
    var i := Find(rows, row.serial);
    RevokeShape(lib, db, cert, kind, arg, now);
    NewEntryHas(cert, n);
    if out.ok && kind != AddValid {
      PrintedKeys(cert.serial, n);
      MarkedRevoked(db, rows, i, out.db, n);
      if cert.serial == n {
        NotYetRevoked(db, rows, i, n);
      }
    } else {
      SameRevokedMeans(db, out.db, n);
    }
  }

  lemma MarkedRevoked(db: Db, rows: seq<Entry>, i: nat, later: Db, n: int)
    requires |db.rows| <= |rows| && i < |rows| == |later.rows|
    requires forall k :: 0 <= k < |db.rows| ==> rows[k] == db.rows[k]
    requires forall k :: |db.rows| <= k < |rows| ==> !Is(rows[k], 'R')
    requires forall k :: 0 <= k < |rows| && k != i ==> later.rows[k] == rows[k]
    requires Is(later.rows[i], 'R') && later.rows[i].serial == rows[i].serial && !Is(rows[i], 'R')
    ensures IsRevoked(later, n) <==> IsRevoked(db, n) || Has(rows[i], n)
  {
    hide Key, SerialText;
    if IsRevoked(db, n) {
      var k :| 0 <= k < |db.rows| && Is(db.rows[k], 'R') && Has(db.rows[k], n);
      assert later.rows[k] == db.rows[k];
    }
    if Has(rows[i], n) {
      assert Has(later.rows[i], n);
    }
    if IsRevoked(later, n) && !Has(rows[i], n) {
      var k :| 0 <= k < |later.rows| && Is(later.rows[k], 'R') && Has(later.rows[k], n);
      assert k != i;
      assert db.rows[k] == later.rows[k];
    }
  }

  lemma NotYetRevoked(db: Db, rows: seq<Entry>, i: nat, n: int)
    requires DistinctSerials(db.rows) && |db.rows| <= |rows| && i < |rows| && Has(rows[i], n)
    requires forall k :: 0 <= k < |db.rows| ==> rows[k] == db.rows[k]
    requires if i < |db.rows| then !Is(rows[i], 'R') else Find(db.rows, SerialText(n)) < 0
    ensures !IsRevoked(db, n)
  {
    hide Key, SerialText, Find;
    if IsRevoked(db, n) {
      var k :| 0 <= k < |db.rows| && Is(db.rows[k], 'R') && Has(db.rows[k], n);
      Found(db.rows, SerialText(n), k);
      if i < |db.rows| {
        Found(db.rows, SerialText(n), i);
      }
    }
  }

  // ---------------------------------------------------------------- along a run

  lemma StepCounts(lib: Library, db: Db, step: Step, n: int)
    requires PlainTexts(lib) && Invariant(lib, db)
    ensures var next := Exec(lib, db, step);
            Bit(Asks(step, n) && next.ok) + Bit(IsRevoked(db, n)) == Bit(IsRevoked(next.db, n))
  {
    hide IsRevoked, Revoke, Insert, Update, NewEntry, SameRevoked, PlainTexts, Reopened, Load, Invariant;
    match step {
      case Issue(cert) =>
        IssuedSameRevoked(db, cert);
        SameRevokedMeans(db, Exec(lib, db, step).db, n);
      case Revocation(cert, kind, arg, now) => RevokeStep(lib, db, cert, kind, arg, now, n);
      case UpdateDb(expired) =>
        UpdateSameRevoked(lib, db.rows, expired);
        SameRevokedMeans(db, Exec(lib, db, step).db, n);
      case Reopen =>
        ReopenSucceeds(lib, db);
        SameRevokedReflexive(db.rows);
        SameRevokedMeans(db, Exec(lib, db, step).db, n);
    }
  }

  lemma IssuedSameRevoked(db: Db, cert: Cert)
    ensures SameRevoked(db.rows, Issued(db, cert).db.rows)
  {
    hide Find, SerialText;
  }

  /** Over every run, the number of times a certificate was revoked is exactly the
      change in whether it is revoked: at most once, and never again. */
  lemma {:induction false} RevocationsCount(lib: Library, db: Db, steps: seq<Step>, n: int)
    requires PlainTexts(lib) && Invariant(lib, db) && forall step <- steps :: StepOk(lib, step)
    ensures Revocations(lib, db, steps, n) + Bit(IsRevoked(db, n)) == Bit(IsRevoked(Run(lib, db, steps), n))
    decreases |steps|
  {
    hide IsRevoked, Exec, PlainTexts, Invariant, StepOk;
    if steps != [] {
      assert steps[0] in steps;
      StepKeeps(lib, db, steps[0]);
      StepCounts(lib, db, steps[0], n);
      RevocationsCount(lib, Exec(lib, db, steps[0]).db, steps[1..], n);
    }
  }

  /** The row a certificate was given, wherever the run leads. */
  lemma RowFollowed(lib: Library, rows: seq<Entry>, later: seq<Entry>, i: nat, serial: string)
    requires i < |rows| && Key(rows[i].serial) == Key(serial) && Evolves(rows, later) && DistinctSerials(later)
    ensures Find(later, serial) == i && Becomes(rows[i], later[i])
  {
    hide Key, Find;
    Found(later, serial, i);
  }

  /** An issued certificate that has not been revoked can be revoked. */
  lemma CanBeRevoked(lib: Library, db: Db, cert: Cert, before: seq<Step>, kind: RevType, arg: string, now: string)
    requires PlainTexts(lib) && Invariant(lib, db) && CertOk(lib, cert) && Issued(db, cert).ok
    requires forall step <- before :: StepOk(lib, step)
    requires kind != AddValid && Acceptable(lib, kind, arg)
    requires Revocations(lib, Issued(db, cert).db, before, cert.serial) == 0
    ensures var start := Run(lib, Issued(db, cert).db, before);
            Invariant(lib, start) && Revoke(lib, start, cert, kind, arg, now).ok
  {
    hide PlainTexts, Invariant, Run, Revoke, Issued, StepOk, IsRevoked, Evolves, NewEntry, Find, Exec;
    hide Acceptable, MakeRevocation;
    var issued := Issued(db, cert).db;
    var i := |db.rows|;
    IssuedRow(lib, db, cert);
    StepKeeps(lib, db, Issue(cert)) by { IssueOk(lib, cert); }
    EveryRun(lib, issued, before);
    var start := Run(lib, issued, before);
    RunFollows(lib, issued, start, i, NewEntry(cert).serial);
    RevocationsCount(lib, issued, before, cert.serial);
    NotRevokedYet(lib, db, cert);
    UnrevokedRow(start, i, cert);
    SoundRow(lib, start, i);
    AcceptableMakes(lib, kind, arg, now);
    RevokeKnown(lib, start, cert, kind, arg, now);
  }

  /** Once a row is revoked its certificate never can be again, nor added: every
      attempt fails and changes nothing. */
  lemma NeverAgain(lib: Library, db: Db, n: int, steps: seq<Step>, again: Step)
    requires PlainTexts(lib) && Invariant(lib, db) && IsRevoked(db, n)
    requires forall step <- steps :: StepOk(lib, step)
    requires again.Revocation? && again.cert.serial == n
    ensures var end := Run(lib, db, steps); Exec(lib, end, again) == Outcome(end, false)
  {
    hide PlainTexts, Invariant, Run, Revoke, StepOk, Evolves, NewEntry, Find, MakeRevocation, SerialText, Key;
    var i :| 0 <= i < |db.rows| && Is(db.rows[i], 'R') && Has(db.rows[i], n);
    EveryRun(lib, db, steps);
    var end := Run(lib, db, steps);
    NewEntryHas(again.cert, n);
    RunFollows(lib, db, end, i, NewEntry(again.cert).serial);
    SoundRow(lib, end, i);
    RevokeKnown(lib, end, again.cert, again.kind, again.arg, again.now);
  }

  /** So an issued certificate can be revoked exactly once. */
  lemma RevokedExactlyOnce(lib: Library, db: Db, cert: Cert, before: seq<Step>, first: Step, after: seq<Step>,
                           again: Step)
    requires PlainTexts(lib) && Invariant(lib, db) && CertOk(lib, cert) && Issued(db, cert).ok
    requires StepOk(lib, first) && forall step <- before + after :: StepOk(lib, step)
    requires first.Revocation? && first.cert == cert && first.kind != AddValid && Acceptable(lib, first.kind, first.arg)
    requires again.Revocation? && again.cert.serial == cert.serial
    requires Revocations(lib, Issued(db, cert).db, before, cert.serial) == 0
    ensures var start := Run(lib, Issued(db, cert).db, before);
            && Exec(lib, start, first).ok
            && var end := Run(lib, Exec(lib, start, first).db, after);
            && Exec(lib, end, again) == Outcome(end, false)
  {
    hide PlainTexts, Invariant, Run, Revoke, Issued, StepOk, IsRevoked, Acceptable;
    assert forall step <- before :: step in before + after;
    assert forall step <- after :: step in before + after;
    CanBeRevoked(lib, db, cert, before, first.kind, first.arg, first.now);
    var start := Run(lib, Issued(db, cert).db, before);
    StepKeeps(lib, start, first);
    StepCounts(lib, start, first, cert.serial);
    NeverAgain(lib, Exec(lib, start, first).db, cert.serial, after, again);
  }

  lemma IssueOk(lib: Library, cert: Cert)
    requires CertOk(lib, cert)
    ensures StepOk(lib, Issue(cert))
  {}

  lemma IssuedRow(lib: Library, db: Db, cert: Cert)
    requires Issued(db, cert).ok
    ensures Issued(db, cert).db.rows == db.rows + [NewEntry(cert)] && Find(db.rows, NewEntry(cert).serial) < 0
    ensures Exec(lib, db, Issue(cert)) == Issued(db, cert)
  {
    hide Find, NewEntry;
  }

  lemma RunFollows(lib: Library, db: Db, end: Db, i: nat, serial: string)
    requires i < |db.rows| && Key(db.rows[i].serial) == Key(serial) && Evolves(db.rows, end.rows) && Invariant(lib, end)
    ensures i < |end.rows| && Find(end.rows, serial) == i && Becomes(db.rows[i], end.rows[i])
  {
    hide Key, Find, Sound;
    RowFollowed(lib, db.rows, end.rows, i, serial);
  }

  lemma NotRevokedYet(lib: Library, db: Db, cert: Cert)
    requires Invariant(lib, db) && Issued(db, cert).ok
    ensures !IsRevoked(Issued(db, cert).db, cert.serial)
  {
    hide Find, NewEntry, Insert, IsRevoked, Sound;
    IssuedRow(lib, db, cert);
    IssuedSameRevoked(db, cert);
    SameRevokedMeans(db, Issued(db, cert).db, cert.serial);
    NewEntryHas(cert, cert.serial);
    NotYetRevoked(db, db.rows + [NewEntry(cert)], |db.rows|, cert.serial);
  }

  lemma UnrevokedRow(db: Db, i: nat, cert: Cert)
    requires !IsRevoked(db, cert.serial) && i < |db.rows| && Becomes(NewEntry(cert), db.rows[i])
    ensures !Is(db.rows[i], 'R')
  {
    hide Key, SerialText;
    NewEntryHas(cert, cert.serial);
    assert Has(db.rows[i], cert.serial);
  }

  lemma SoundRow(lib: Library, db: Db, i: nat)
    requires Invariant(lib, db) && i < |db.rows|
    ensures Sound(lib, db.rows[i])
  {}

  lemma AcceptableMakes(lib: Library, kind: RevType, arg: string, now: string)
    ensures MakeRevocation(lib, kind, arg, now).Some? <==> Acceptable(lib, kind, arg)
  {
    hide FirstReason, CRL_REASONS;
  }
}
