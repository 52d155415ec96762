/** Issuing a batch of certificates. */
module CaIssue {
  import opened Inverses
  import opened Serials
  import opened Revocation
  import opened CaPolicy
  import opened CaDatabase
  import opened CaRuns

  /** The policy, the issuer's name, the object table, how a name is put on one line,
      and the switches that shape the subject. */
  datatype Config = Config(
    policy: seq<Rule>, ca: Name, nid: string -> Option<int>, oneLine: Name -> string,
    email: int, emailInName: bool, preserve: bool, selfSigned: bool)

  /** A request, with the outcomes of what happens outside this model: whether it could
      be read, its signature verified, the certificate was built up to the database
      check, the operator agreed, and the signature was made. */
  datatype Request = Request(
    name: Name, notAfter: string, readable: bool, verified: bool, built: bool, agreed: bool, signed: bool)

  /** A negative, zero or positive return. */
  datatype Verdict = Fatal | Skipped | Certified(cert: Cert)

  /** A self-signed certificate is matched against its own name. */
  predicate AllSatisfied(config: Config, name: Name) {
    forall rule <- config.policy :: Satisfied(rule, name, if config.selfSigned then name else config.ca, config.nid)
  }

  /** The subject the policy allows, without e-mail addresses unless they are wanted. */
  function Subject(config: Config, name: Name): Option<Name> {
    if AllSatisfied(config, name) then
      var kept := if config.preserve then name else Selected(config.policy, name, config.nid);
      Some(if config.emailInName then kept else Without(kept, config.email))
    else None
  }

  method MakeSubject(config: Config, name: Name) returns (subject: Option<Name>)
    ensures subject == Subject(config, name)
  {
    hide Satisfied, Selected, Without;
    subject := ApplyPolicy(config.policy, name, if config.selfSigned then name else config.ca, config.nid);
    if subject == None {
      return;
    }
    if config.preserve {
      subject := Some(name);
    }
    if !config.emailInName {
      var kept := RemoveEmail(subject.value, config.email);
      subject := Some(kept);
    }
  }

  function CertFor(config: Config, request: Request, subject: Name, serial: int): Cert {
    Cert(config.oneLine(subject), serial, request.notAfter)
  }

  predicate LegalName(config: Config, name: Name) {
    forall e <- name :: Legal(e, config.email, config.emailInName)
  }

  /** What becomes of one request. */
  function Judge(config: Config, db: Db, serial: int, request: Request): Verdict {
    if !request.readable then Fatal
    else if !request.verified then Skipped
    else
      var subject := Subject(config, request.name);
      if !LegalName(config, request.name) || subject == None || !request.built then Fatal
      else
        var cert := CertFor(config, request, subject.value, serial);
        if Insert(db, NewEntry(cert)) == None then Fatal
        else if !request.agreed then Skipped
        else if !request.signed then Fatal
        else Certified(cert)
  }

  /** Where a batch stands: the database, the next serial number, the certificates
      made, and whether it was abandoned. */
  datatype Batch = Batch(db: Db, serial: int, certs: seq<Cert>, fatal: bool)

  function Next(config: Config, batch: Batch, request: Request): Batch {
    match Judge(config, batch.db, batch.serial, request)
    case Fatal => batch.(fatal := true)
    case Skipped => batch
    case Certified(cert) =>
      Batch(Issued(batch.db, cert).db, batch.serial + 1, batch.certs + [cert], false)
  }

  /** A fatal error ends the batch. */
  function IssueFrom(config: Config, batch: Batch, requests: seq<Request>): Batch
    decreases |requests|
  {
    if requests == [] || batch.fatal then batch
    else IssueFrom(config, Next(config, batch, requests[0]), requests[1..])
  }

  /** The CA while it works through a batch. */
  class Authority {
    const config: Config
    const db: Database
    var serial: int
    var certs: seq<Cert>

    constructor (config: Config, db: Database, serial: int)
      ensures this.config == config && this.db == db && this.serial == serial && certs == []
    {
      this.config, this.db, this.serial, certs := config, db, serial, [];
    }

    ghost function Progress(fatal: bool): Batch
      reads this, db
    {
      Batch(db.State(), serial, certs, fatal)
    }

    /** `certify` and `do_body`: the row is inserted here, the serial number and the
        list of certificates are the caller's. */
    method Certify(request: Request) returns (verdict: Verdict)
      modifies db
      ensures verdict == Judge(config, old(db.State()), serial, request)
      ensures db.State() == if verdict.Certified? then Issued(old(db.State()), verdict.cert).db else old(db.State())
    {
      hide Subject, Find, NewEntry, Legal;
      if !request.readable {
        return Fatal;
      }
      if !request.verified {
        return Skipped;
      }
      var legal := CheckStrings(request.name, config.email, config.emailInName);
      if !legal {
        return Fatal;
      }
      var subject := MakeSubject(config, request.name);
      if subject == None || !request.built {
        return Fatal;
      }
      var cert := CertFor(config, request, subject.value, serial);
      var row := NewEntry(cert);
      if db.unique && Is(row, 'V') && row.name in db.names {
        return Fatal;
      }
      if Find(db.rows, row.serial) >= 0 {
        return Fatal;
      }
      if !request.agreed {
        return Skipped;
      }
      if !request.signed {
        return Fatal;
      }
      var added := db.Add(row);
      if !added {
        assert false;
      }
      return Certified(cert);
    }

    /** The batch loop. */
    method IssueAll(requests: seq<Request>) returns (fatal: bool)
      modifies this, db
      ensures Progress(fatal) == IssueFrom(config, old(Progress(false)), requests)
      ensures old(certs) == [] ==> Conserved(old(db.State()), old(serial), Progress(fatal))
    {
      hide Judge, Issued, Conserved;
      if certs == [] {
        BatchConserves(config, db.State(), serial, requests);
      }
      fatal := false;
      ghost var start := Progress(false);
      assert requests[0..] == requests;
      for i := 0 to |requests|
        invariant IssueFrom(config, Progress(false), requests[i..]) == IssueFrom(config, start, requests)
      {
        assert requests[i..][1..] == requests[i + 1..];
        var verdict := Certify(requests[i]);
        if verdict == Fatal {
          return true;
        }
        if verdict.Certified? {
          serial := serial + 1;
          certs := certs + [verdict.cert];
        }
      }
    }
  }

  // ---------------------------------------------------------------- the three verdicts

  /** The subject exists exactly when every rule is satisfied. It lists the request's
      entries in policy order, or all of them when the name is preserved, and of those
      the ones that are no e-mail address unless addresses are wanted. */
  lemma SubjectExactly(config: Config, name: Name) returns (kept: Name, ranks: seq<Rank>, ps: seq<nat>)
    ensures Subject(config, name).Some? <==> AllSatisfied(config, name)
    ensures if config.preserve then kept == name else Ranked(config.policy, name, config.nid, ranks, kept)
    ensures Subject(config, name).Some? ==>
              var subject := Subject(config, name).value;
              if config.emailInName then subject == kept
              else Picks(kept, config.email, false, ps, subject) && !Occurs(subject, config.email)
  {
    hide AllSatisfied, Ranked, Selected, Select;
    ranks := SelectedInOrder(config.policy, name, config.nid);
    kept := if config.preserve then name else Selected(config.policy, name, config.nid);
    ps := SelectPicks(kept, config.email, false);
  }

  /** The database has no row with the serial number's key, and where subjects must be
      unique no valid one is indexed under the line. */
  predicate Vacant(db: Db, serial: int, line: string) {
    && (forall i :: 0 <= i < |db.rows| ==> Key(db.rows[i].serial) != Key(SerialText(serial)))
    && (db.unique ==> (if line == "" then SerialText(serial) else line) !in db.names)
  }

  /** What a request must meet once it is verified. */
  predicate InOrder(config: Config, db: Db, serial: int, request: Request) {
    && LegalName(config, request.name)
    && AllSatisfied(config, request.name)
    && request.built
    && Vacant(db, serial, config.oneLine(Subject(config, request.name).value))
  }

  lemma VacantInserts(db: Db, cert: Cert)
    ensures Insert(db, NewEntry(cert)).Some? <==> Vacant(db, cert.serial, cert.subject)
  {
    hide Key, SerialText;
  }

  /** Exactly when a request is certified, skipped and fatal. */
  lemma JudgedExactly(config: Config, db: Db, serial: int, request: Request)
    ensures var verdict := Judge(config, db, serial, request);
            var inOrder := InOrder(config, db, serial, request);
            && (verdict.Certified? <==>
                request.readable && request.verified && inOrder && request.agreed && request.signed)
            && (verdict.Skipped? <==> request.readable && (!request.verified || (inOrder && !request.agreed)))
            && (verdict.Fatal? <==>
                !request.readable || (request.verified && (!inOrder || (request.agreed && !request.signed))))
  {
    hide AllSatisfied, LegalName, Insert, Vacant, NewEntry, Selected, Select;
    if Subject(config, request.name).Some? {
      VacantInserts(db, CertFor(config, request, Subject(config, request.name).value, serial));
    }
  }

  /** The row of a certified request: valid, with the next serial number, the requested
      date and the subject on one line. */
  lemma CertifiedRow(config: Config, db: Db, serial: int, request: Request)
    requires Judge(config, db, serial, request).Certified?
    ensures var cert := Judge(config, db, serial, request).cert;
            var row := NewEntry(cert);
            && Subject(config, request.name).Some?
            && cert.subject == config.oneLine(Subject(config, request.name).value)
            && row.status == "V" && row.expDate == request.notAfter && row.revDate == ""
            && SerialNumber(row.serial) == Some(serial)
            && row.name == if cert.subject == "" then row.serial else cert.subject
  {
    hide Subject, Insert, SerialNumber, SerialText;
    PrintedSerial(serial);
  }

  // ---------------------------------------------------------------- the course of a batch

  /** A batch goes on where its first part ended, and no further after a fatal error. */
  lemma {:induction false} IssueAppend(config: Config, batch: Batch, a: seq<Request>, b: seq<Request>)
    ensures IssueFrom(config, batch, a + b) == IssueFrom(config, IssueFrom(config, batch, a), b)
    ensures IssueFrom(config, batch, a).fatal ==> IssueFrom(config, batch, a + b) == IssueFrom(config, batch, a)
    decreases |a|
  {
    hide Next;
    if a == [] {
      assert a + b == b;
    } else if !batch.fatal {
      assert (a + b)[0] == a[0] && (a + b)[1..] == a[1..] + b;
      IssueAppend(config, Next(config, batch, a[0]), a[1..], b);
    }
  }

  /** One more request is judged where the batch then stands, unless that is abandoned:
      it adds its certificate, changes nothing, or abandons the batch. */
  lemma IssueOneMore(config: Config, batch: Batch, requests: seq<Request>, request: Request)
    ensures var at, after := IssueFrom(config, batch, requests), IssueFrom(config, batch, requests + [request]);
            if at.fatal then after == at
            else match Judge(config, at.db, at.serial, request)
                 case Fatal => after == at.(fatal := true)
                 case Skipped => after == at
                 case Certified(cert) =>
                   && after.certs == at.certs + [cert] && after.serial == at.serial + 1 && !after.fatal
                   && after.db.rows == at.db.rows + [NewEntry(cert)]
  {
    hide Judge, Issued, NewEntry;
    IssueAppend(config, batch, requests, [request]);
    var at := IssueFrom(config, batch, requests);
    assert [request][1..] == [];
    if !at.fatal && Judge(config, at.db, at.serial, request).Certified? {
      JudgedCert(config, at.db, at.serial, request);
    }
    hide IssueFrom;
  }

  // ---------------------------------------------------------------- conservation

  function RowsFor(certs: seq<Cert>): seq<Entry> {
    seq(|certs|, i requires 0 <= i < |certs| => NewEntry(certs[i]))
  }

  /** The i-th certificate carries the i-th serial number after the first, the
      database has grown by exactly their rows in order, and the serial number is one
      past the last one used. */
  predicate Conserved(db: Db, first: int, batch: Batch) {
    && batch.serial == first + |batch.certs|
    && (forall i :: 0 <= i < |batch.certs| ==> batch.certs[i].serial == first + i)
    && batch.db.rows == db.rows + RowsFor(batch.certs)
  }

  lemma JudgedCert(config: Config, db: Db, serial: int, request: Request)
    requires Judge(config, db, serial, request).Certified?
    ensures var cert := Judge(config, db, serial, request).cert;
            && cert.serial == serial
            && Issued(db, cert).ok && Issued(db, cert).db.rows == db.rows + [NewEntry(cert)]
  {
    hide Subject, NewEntry, Find;
  }

  lemma NextConserves(config: Config, db: Db, first: int, batch: Batch, request: Request)
    requires Conserved(db, first, batch)
    ensures Conserved(db, first, Next(config, batch, request))
  {
    hide Judge, Issued, NewEntry;
    if Judge(config, batch.db, batch.serial, request).Certified? {
      JudgedCert(config, batch.db, batch.serial, request);
      var cert := Judge(config, batch.db, batch.serial, request).cert;
      var certs := batch.certs + [cert];
      assert certs[..|certs| - 1] == batch.certs;
      assert db.rows + RowsFor(certs) == db.rows + RowsFor(batch.certs) + [NewEntry(cert)];
    }
  }

  lemma {:induction false} IssueConserves(config: Config, db: Db, first: int, batch: Batch, requests: seq<Request>)
    requires Conserved(db, first, batch)
    ensures Conserved(db, first, IssueFrom(config, batch, requests))
    decreases |requests|
  {
    hide Next, Conserved;
    if requests != [] && !batch.fatal {
      NextConserves(config, db, first, batch, requests[0]);
      IssueConserves(config, db, first, Next(config, batch, requests[0]), requests[1..]);
    }
  }

  /** From the start of a batch. */
  lemma BatchConserves(config: Config, db: Db, serial: int, requests: seq<Request>)
    ensures Conserved(db, serial, IssueFrom(config, Batch(db, serial, [], false), requests))
  {
    hide IssueFrom;
    assert db.rows + RowsFor([]) == db.rows;
    IssueConserves(config, db, serial, Batch(db, serial, [], false), requests);
  }

  // ---------------------------------------------------------------- serial numbers never clash

  /** All serial numbers in the database are below the next one. */
  predicate Fresh(db: Db, serial: int) {
    forall i :: 0 <= i < |db.rows| ==>
      SerialNumber(db.rows[i].serial).Some? && SerialNumber(db.rows[i].serial).value < serial
  }

  lemma FreshUnused(lib: Library, db: Db, cert: Cert)
    requires Invariant(lib, db) && Fresh(db, cert.serial)
    ensures Find(db.rows, NewEntry(cert).serial) < 0
  {
    hide SerialNumber, SerialText, Key, WellFormed, Loads;
    var i := Find(db.rows, NewEntry(cert).serial);
    if i >= 0 {
      SoundParts(lib, db.rows[i]);
      PrintedSerial(cert.serial);
      SameKey(db.rows[i].serial, SerialText(cert.serial));
    }
  }

  lemma FreshNext(db: Db, cert: Cert)
    requires Fresh(db, cert.serial) && Issued(db, cert).ok
    ensures Fresh(Issued(db, cert).db, cert.serial + 1)
  {
    hide SerialNumber, SerialText, Key;
    PrintedSerial(cert.serial);
  }

  /** Starting above every serial number in use, a batch keeps the database sound and
      stays above: a request is never refused because its serial number is taken. */
  lemma {:induction false} BatchKeeps(lib: Library, config: Config, batch: Batch, requests: seq<Request>)
    requires PlainTexts(lib) && Invariant(lib, batch.db) && Fresh(batch.db, batch.serial)
    requires forall r <- requests :: lib.time(r.notAfter)
    requires forall name :: '\n' !in config.oneLine(name)
    ensures var end := IssueFrom(config, batch, requests);
            Invariant(lib, end.db) && Fresh(end.db, end.serial) && Evolves(batch.db.rows, end.db.rows)
    decreases |requests|
  {
    hide Invariant, Fresh, Judge, PlainTexts, Issued, Evolves;
    if requests == [] || batch.fatal {
      BecomesReflexive(batch.db.rows);
    } else {
      var request := requests[0];
      var next := Next(config, batch, request);
      BecomesReflexive(batch.db.rows);
      if Judge(config, batch.db, batch.serial, request).Certified? {
        var cert := Judge(config, batch.db, batch.serial, request).cert;
        JudgedCert(config, batch.db, batch.serial, request);
        JudgedOk(lib, config, batch.db, batch.serial, request);
        StepKeeps(lib, batch.db, Issue(cert));
        FreshNext(batch.db, cert);
      }
      BatchKeeps(lib, config, next, requests[1..]);
      EvolvesTransitive(batch.db.rows, next.db.rows, IssueFrom(config, next, requests[1..]).db.rows);
    }
  }

  lemma JudgedOk(lib: Library, config: Config, db: Db, serial: int, request: Request)
    requires Judge(config, db, serial, request).Certified? && lib.time(request.notAfter)
    requires forall name :: '\n' !in config.oneLine(name)
    ensures StepOk(lib, Issue(Judge(config, db, serial, request).cert))
  {
    hide Subject, NewEntry, Insert;
  }

  /** With serial numbers fresh, a readable, legal and buildable request whose subject
      the policy allows is refused only over a subject that is already taken. */
  lemma RefusedOnlyForSubject(lib: Library, config: Config, db: Db, serial: int, request: Request)
    requires Invariant(lib, db) && Fresh(db, serial)
    requires request.readable && request.verified && request.built && request.agreed && request.signed
    requires LegalName(config, request.name) && Subject(config, request.name).Some?
    ensures var cert := CertFor(config, request, Subject(config, request.name).value, serial);
            if db.unique && NewEntry(cert).name in db.names then Judge(config, db, serial, request) == Fatal
            else Judge(config, db, serial, request) == Certified(cert)
  {
    hide Subject, Find, SerialText, SerialNumber, LegalName;
    var cert := CertFor(config, request, Subject(config, request.name).value, serial);
    FreshUnused(lib, db, cert);
  }
}
