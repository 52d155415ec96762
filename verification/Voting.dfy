/** Registering a jury member's votes. */
module Voting {
  import opened Inverses

  datatype JuryRecord = JuryRecord(panel: int, jury: int)

  /** What does not change: the jury members, the panel of each challenger entry, and
      the jury records of each panel. */
  datatype World = World(juries: set<int>, entries: map<int, int>, records: map<int, JuryRecord>)

  datatype Result = Result(entry: int, record: int, points: int, valid: bool)

  /** A vote, and whether the store accepts it. */
  datatype Vote = Vote(entry: int, points: int, saves: bool)

  datatype Call = Call(jury: int, panel: int, votes: seq<Vote>)

  // ---------------------------------------------------------------- queries

  predicate IsRecord(w: World, r: int, panel: int, jury: int) {
    r in w.records && w.records[r] == JuryRecord(panel, jury)
  }

  predicate OnlyRecord(w: World, r: int, panel: int, jury: int) {
    IsRecord(w, r, panel, jury) && forall q <- w.records :: w.records[q] == JuryRecord(panel, jury) ==> q == r
  }

  /** The record a query must find: none or several is an error. */
  function TheRecord(w: World, panel: int, jury: int): Option<int> {
    if exists r <- w.records :: OnlyRecord(w, r, panel, jury) then
      var r :| r in w.records && OnlyRecord(w, r, panel, jury);
      Some(r)
    else None
  }

  predicate For(res: Result, entry: int, record: int) {
    res.entry == entry && res.record == record
  }

  /** The result is by this member of the jury, for a challenger of this panel. */
  predicate By(w: World, res: Result, panel: int, jury: int) {
    && res.entry in w.entries && w.entries[res.entry] == panel
    && res.record in w.records && w.records[res.record].jury == jury
  }

  predicate Voted(w: World, results: seq<Result>, entry: int, panel: int, jury: int) {
    exists i :: 0 <= i < |results| && results[i].entry == entry && By(w, results[i], panel, jury)
  }

  /** No challenger of the panel is still waiting for this member's vote. */
  predicate Complete(w: World, results: seq<Result>, panel: int, jury: int) {
    forall e <- w.entries :: w.entries[e] == panel ==> Voted(w, results, e, panel, jury)
  }

  // ---------------------------------------------------------------- specification

  /** Stores a vote, not yet valid: over the result there is, or as a new one. Two
      results for the same challenger and record would be an error. */
  function Store(results: seq<Result>, res: Result): Option<seq<Result>> {
    if exists i, j :: && 0 <= i < j < |results|
                      && For(results[i], res.entry, res.record) && For(results[j], res.entry, res.record)
    then None
    else if exists i :: 0 <= i < |results| && For(results[i], res.entry, res.record) then
      var i :| 0 <= i < |results| && For(results[i], res.entry, res.record);
      Some(results[i := res])
    else Some(results + [res])
  }

  function Cast(w: World, results: seq<Result>, jury: int, vote: Vote): Option<seq<Result>> {
    if vote.entry !in w.entries then None
    else
      var record := TheRecord(w, w.entries[vote.entry], jury);
      if record == None then None
      else
        var stored := Store(results, Result(vote.entry, record.value, vote.points, false));
        if vote.saves then stored else None
  }

  /** The votes one after the other up to the first error; those before it stay. */
  function CastAll(w: World, results: seq<Result>, jury: int, votes: seq<Vote>): (seq<Result>, bool)
    decreases |votes|
  {
    if votes == [] then (results, true)
    else
      var next := Cast(w, results, jury, votes[0]);
      if next == None then (results, false) else CastAll(w, next.value, jury, votes[1..])
  }

  function Validate(w: World, results: seq<Result>, panel: int, jury: int): (r: seq<Result>)
    ensures |r| == |results|
    ensures forall i :: 0 <= i < |results| ==>
              r[i] == if IsRecord(w, results[i].record, panel, jury) then results[i].(valid := true) else results[i]
  {
    if results == [] then [] else
      (if IsRecord(w, results[0].record, panel, jury) then [results[0].(valid := true)] else [results[0]])
      + Validate(w, results[1..], panel, jury)
  }

  /** What a call leaves stored, and whether voting is completed or the call failed. */
  function Register(w: World, results: seq<Result>, call: Call): (seq<Result>, Option<bool>) {
    if call.jury !in w.juries then (results, None)
    else
      var (cast, ok) := CastAll(w, results, call.jury, call.votes);
      if !ok then (cast, None)
      else if Complete(w, cast, call.panel, call.jury) then (Validate(w, cast, call.panel, call.jury), Some(true))
      else (cast, Some(false))
  }

  function Run(w: World, results: seq<Result>, calls: seq<Call>): seq<Result>
    decreases |calls|
  {
    if calls == [] then results else Run(w, Register(w, results, calls[0]).0, calls[1..])
  }

  // ---------------------------------------------------------------- in place

  /** The stored results. */
  class Ballots {
    const world: World
    var results: seq<Result>

    constructor (world: World, results: seq<Result>)
      ensures this.world == world && this.results == results
    {
      this.world, this.results := world, results;
    }

    /** Every saved vote stays stored, also when a later one fails. */
    method RegisterVote(call: Call) returns (completed: Option<bool>)
      modifies this
      ensures (results, completed) == Register(world, old(results), call)
    {
      hide Complete, Validate, Store, TheRecord;
      if call.jury !in world.juries {
        return None;
      }
      ghost var before := results;
      assert call.votes[0..] == call.votes;
      for i := 0 to |call.votes|
        invariant CastAll(world, results, call.jury, call.votes[i..]) == CastAll(world, before, call.jury, call.votes)
      {
        assert call.votes[i..][1..] == call.votes[i + 1..];
        var vote := call.votes[i];
        if vote.entry !in world.entries {
          return None;
        }
        var record := TheRecord(world, world.entries[vote.entry], call.jury);
        if record == None {
          return None;
        }
        var stored := Store(results, Result(vote.entry, record.value, vote.points, false));
        if stored == None || !vote.saves {
          return None;
        }
        results := stored.value;
      }
      if Complete(world, results, call.panel, call.jury) {
        results := Validate(world, results, call.panel, call.jury);
        return Some(true);
      }
      return Some(false);
    }
  }

  // ---------------------------------------------------------------- safety

  /** At most one result per challenger and record, each for a challenger of the
      record's own panel; and whoever has a valid result has voted on the whole panel. */
  predicate Unique(results: seq<Result>) {
    forall i, j :: 0 <= i < j < |results| ==> !For(results[j], results[i].entry, results[i].record)
  }

  predicate Placed(w: World, res: Result) {
    res.entry in w.entries && res.record in w.records && w.records[res.record].panel == w.entries[res.entry]
  }

  predicate AllPlaced(w: World, results: seq<Result>) {
    forall i :: 0 <= i < |results| ==> Placed(w, results[i])
  }

  predicate ValidComplete(w: World, results: seq<Result>) {
    forall i :: 0 <= i < |results| && results[i].valid && results[i].record in w.records ==>
      Complete(w, results, w.records[results[i].record].panel, w.records[results[i].record].jury)
  }

  predicate Safe(w: World, results: seq<Result>) {
    Unique(results) && AllPlaced(w, results) && ValidComplete(w, results)
  }

  /** Results are only added and their challenger and record never change. */
  predicate Grows(a: seq<Result>, b: seq<Result>) {
    |a| <= |b| && forall i :: 0 <= i < |a| ==> For(b[i], a[i].entry, a[i].record)
  }

  lemma GrowsVoted(w: World, a: seq<Result>, b: seq<Result>, entry: int, panel: int, jury: int)
    requires Grows(a, b) && Voted(w, a, entry, panel, jury)
    ensures Voted(w, b, entry, panel, jury)
  {
    var i :| 0 <= i < |a| && a[i].entry == entry && By(w, a[i], panel, jury);
    assert For(b[i], a[i].entry, a[i].record) && By(w, b[i], panel, jury);
  }

  lemma GrowsComplete(w: World, a: seq<Result>, b: seq<Result>, panel: int, jury: int)
    requires Grows(a, b) && Complete(w, a, panel, jury)
    ensures Complete(w, b, panel, jury)
  {
    hide Grows, Voted;
    forall e | e in w.entries && w.entries[e] == panel ensures Voted(w, b, e, panel, jury) {
      GrowsVoted(w, a, b, e, panel, jury);
    }
  }

  /** A change that makes nothing valid that was not keeps valid results complete. */
  lemma NoNewValid(w: World, a: seq<Result>, b: seq<Result>)
    requires Grows(a, b) && ValidComplete(w, a)
    requires forall i :: 0 <= i < |b| && b[i].valid ==> i < |a| && a[i].valid
    ensures ValidComplete(w, b)
  {
    hide Complete;
    forall i | 0 <= i < |b| && b[i].valid && b[i].record in w.records
      ensures Complete(w, b, w.records[b[i].record].panel, w.records[b[i].record].jury)
    {
      assert For(b[i], a[i].entry, a[i].record);
      GrowsComplete(w, a, b, w.records[b[i].record].panel, w.records[b[i].record].jury);
    }
  }

  lemma StoreSafe(w: World, results: seq<Result>, res: Result)
    requires Safe(w, results) && Placed(w, res) && !res.valid
    ensures Store(results, res).Some?
    ensures var after := Store(results, res).value; Safe(w, after) && Grows(results, after)
  {
    hide Complete;
    var after := Store(results, res).value;
    NoNewValid(w, results, after);
  }

  /** In a safe store a vote fails only when the challenger or the jury record cannot
      be found or it cannot be saved. */
  lemma CastSafe(w: World, results: seq<Result>, jury: int, vote: Vote)
    requires Safe(w, results)
    ensures var next := Cast(w, results, jury, vote);
            && (next.Some? <==> vote.saves && vote.entry in w.entries
                                && TheRecord(w, w.entries[vote.entry], jury).Some?)
            && (next.Some? ==> Safe(w, next.value) && Grows(results, next.value))
  {
    hide Safe, Store, Grows;
    if vote.entry in w.entries && TheRecord(w, w.entries[vote.entry], jury).Some? {
      var record := TheRecord(w, w.entries[vote.entry], jury).value;
      StoreSafe(w, results, Result(vote.entry, record, vote.points, false));
    }
  }

  lemma GrowsTransitive(a: seq<Result>, b: seq<Result>, c: seq<Result>)
    requires Grows(a, b) && Grows(b, c)
    ensures Grows(a, c)
  {
    forall i | 0 <= i < |a| ensures For(c[i], a[i].entry, a[i].record) {
      assert For(b[i], a[i].entry, a[i].record) && For(c[i], b[i].entry, b[i].record);
    }
  }

  lemma {:induction false} CastAllSafe(w: World, results: seq<Result>, jury: int, votes: seq<Vote>)
    requires Safe(w, results)
    ensures var after := CastAll(w, results, jury, votes).0; Safe(w, after) && Grows(results, after)
    decreases |votes|
  {
    hide Safe, Cast, Grows;
    if votes == [] {
      GrowsReflexive(results);
    } else {
      CastSafe(w, results, jury, votes[0]);
      var next := Cast(w, results, jury, votes[0]);
      if next.Some? {
        CastAllSafe(w, next.value, jury, votes[1..]);
        GrowsTransitive(results, next.value, CastAll(w, results, jury, votes).0);
      } else {
        GrowsReflexive(results);
      }
    }
  }

  lemma GrowsReflexive(results: seq<Result>)
    ensures Grows(results, results)
  {}

  lemma ValidateSafe(w: World, results: seq<Result>, panel: int, jury: int)
    requires Safe(w, results) && Complete(w, results, panel, jury)
    ensures var after := Validate(w, results, panel, jury); Safe(w, after) && Grows(results, after)
  {
    hide Complete, Validate;
    var after := Validate(w, results, panel, jury);
    forall i | 0 <= i < |after| && after[i].valid && after[i].record in w.records
      ensures Complete(w, after, w.records[after[i].record].panel, w.records[after[i].record].jury)
    {
      GrowsComplete(w, results, after, w.records[after[i].record].panel, w.records[after[i].record].jury);
    }
    assert AllPlaced(w, after);
  }

  lemma RegisterSafe(w: World, results: seq<Result>, call: Call)
    requires Safe(w, results)
    ensures var after := Register(w, results, call).0; Safe(w, after) && Grows(results, after)
  {
    hide Safe, CastAll, Complete, Validate, Grows;
    GrowsReflexive(results);
    CastAllSafe(w, results, call.jury, call.votes);
    var (cast, ok) := CastAll(w, results, call.jury, call.votes);
    if ok && Complete(w, cast, call.panel, call.jury) {
      ValidateSafe(w, cast, call.panel, call.jury);
      GrowsTransitive(results, cast, Validate(w, cast, call.panel, call.jury));
    }
  }

  /** Over every run of calls, those that fail midway included: at most one result per
      challenger and record, every valid result belongs to someone who has voted on the
      whole panel, and no result is ever lost. */
  lemma {:induction false} EveryRunSafe(w: World, results: seq<Result>, calls: seq<Call>)
    requires Safe(w, results)
    ensures Safe(w, Run(w, results, calls)) && Grows(results, Run(w, results, calls))
    decreases |calls|
  {
    hide Safe, Register, Grows;
    if calls == [] {
      GrowsReflexive(results);
    } else {
      RegisterSafe(w, results, calls[0]);
      var next := Register(w, results, calls[0]).0;
      EveryRunSafe(w, next, calls[1..]);
      GrowsTransitive(results, next, Run(w, results, calls));
    }
  }

  // ---------------------------------------------------------------- what the queries find

  /** A record is found exactly when it is the only one of the panel and the member. */
  lemma RecordFound(w: World, panel: int, jury: int, r: int)
    ensures TheRecord(w, panel, jury) == Some(r) <==>
            && r in w.records && w.records[r].panel == panel && w.records[r].jury == jury
            && forall q <- w.records :: q != r ==> !(w.records[q].panel == panel && w.records[q].jury == jury)
  {
    if r in w.records && OnlyRecord(w, r, panel, jury) {
      var found := TheRecord(w, panel, jury);
      assert found.Some? && OnlyRecord(w, found.value, panel, jury);
    }
  }

  /** With every result placed, a panel is complete for a member exactly when each of its
      challengers has a result under a record of that panel and member. */
  lemma CompleteExactly(w: World, results: seq<Result>, panel: int, jury: int)
    requires AllPlaced(w, results)
    ensures Complete(w, results, panel, jury) <==>
            forall e <- w.entries :: w.entries[e] == panel ==>
              exists i :: && 0 <= i < |results| && results[i].entry == e && results[i].record in w.records
                          && w.records[results[i].record] == JuryRecord(panel, jury)
  {
    forall i | 0 <= i < |results|
      ensures By(w, results[i], panel, jury) <==>
              w.records[results[i].record] == JuryRecord(panel, jury)
    {
      assert Placed(w, results[i]);
    }
  }

  // ---------------------------------------------------------------- what a call achieves

  /** A call answers "completed" exactly when the member has now voted on the whole
      panel, and then all of the member's results in the panel are valid. */
  lemma CompletedMeans(w: World, results: seq<Result>, call: Call)
    requires Safe(w, results)
    ensures var (after, completed) := Register(w, results, call);
            completed.Some? ==>
              && (completed.value <==> Complete(w, after, call.panel, call.jury))
              && (completed.value ==>
                    forall i :: 0 <= i < |after| && By(w, after[i], call.panel, call.jury) ==> after[i].valid)
  {
    hide Complete, Validate, CastAll;
    CastAllSafe(w, results, call.jury, call.votes);
    var (cast, ok) := CastAll(w, results, call.jury, call.votes);
    if call.jury in w.juries && ok && Complete(w, cast, call.panel, call.jury) {
      ValidateSafe(w, cast, call.panel, call.jury);
      var after := Validate(w, cast, call.panel, call.jury);
      GrowsComplete(w, cast, after, call.panel, call.jury);
      forall i | 0 <= i < |after| && By(w, after[i], call.panel, call.jury) ensures after[i].valid {
        assert Placed(w, after[i]);
        assert IsRecord(w, cast[i].record, call.panel, call.jury);
      }
    }
  }

  predicate Mentions(votes: seq<Vote>, entry: int) {
    exists k :: 0 <= k < |votes| && votes[k].entry == entry
  }

  /** The points of the last vote for a challenger. */
  function LastPoints(votes: seq<Vote>, entry: int): int
    requires Mentions(votes, entry)
  {
    var n := |votes| - 1;
    if votes[n].entry == entry then votes[n].points
    else
      assert Mentions(votes[..n], entry) by {
        var k :| 0 <= k < |votes| && votes[k].entry == entry;
        assert votes[..n][k].entry == entry;
      }
      LastPoints(votes[..n], entry)
  }

  predicate Holds(results: seq<Result>, entry: int, record: int, points: int) {
    exists i :: 0 <= i < |results| && For(results[i], entry, record) && results[i].points == points
  }

  lemma CastHolds(w: World, results: seq<Result>, jury: int, vote: Vote)
    requires Cast(w, results, jury, vote).Some?
    ensures var record := TheRecord(w, w.entries[vote.entry], jury).value;
            Holds(Cast(w, results, jury, vote).value, vote.entry, record, vote.points)
  {
    hide TheRecord;
    var res := Result(vote.entry, TheRecord(w, w.entries[vote.entry], jury).value, vote.points, false);
    var after := Store(results, res).value;
    assert exists i :: 0 <= i < |after| && after[i] == res by {
      if |after| > |results| {
        assert after[|results|] == res;
      } else {
        var i :| 0 <= i < |results| && after == results[i := res];
        assert after[i] == res;
      }
    }
  }

  lemma CastOther(w: World, results: seq<Result>, jury: int, vote: Vote, entry: int, record: int, points: int)
    requires Cast(w, results, jury, vote).Some? && vote.entry != entry && Holds(results, entry, record, points)
    ensures Holds(Cast(w, results, jury, vote).value, entry, record, points)
  {
    hide TheRecord;
    var after := Cast(w, results, jury, vote).value;
    var i :| 0 <= i < |results| && For(results[i], entry, record) && results[i].points == points;
    assert after[i] == results[i];
  }

  lemma {:induction false} CastAllSplit(w: World, results: seq<Result>, jury: int, votes: seq<Vote>)
    requires votes != [] && CastAll(w, results, jury, votes).1
    ensures var n := |votes| - 1;
            var (before, ok) := CastAll(w, results, jury, votes[..n]);
            && ok && Cast(w, before, jury, votes[n]).Some?
            && CastAll(w, results, jury, votes).0 == Cast(w, before, jury, votes[n]).value
    decreases |votes|
  {
    hide Cast;
    var n := |votes| - 1;
    if n == 0 {
      assert votes[..0] == [] && votes[1..] == [];
    } else {
      var next := Cast(w, results, jury, votes[0]).value;
      CastAllSplit(w, next, jury, votes[1..]);
      assert votes[1..][..n - 1] == votes[..n][1..] && votes[1..][n - 1] == votes[n];
    }
  }

  /** After a successful call every challenger voted on has exactly the points of the
      last vote for it. */
  lemma {:induction false} VotesStored(w: World, results: seq<Result>, jury: int, votes: seq<Vote>, entry: int)
    requires CastAll(w, results, jury, votes).1 && Mentions(votes, entry)
    ensures entry in w.entries && TheRecord(w, w.entries[entry], jury).Some?
    ensures Holds(CastAll(w, results, jury, votes).0, entry,
                  TheRecord(w, w.entries[entry], jury).value, LastPoints(votes, entry))
    decreases |votes|
  {
    hide TheRecord, Store, Holds, CastAll;
    CastAllSplit(w, results, jury, votes);
    var n := |votes| - 1;
    var before := CastAll(w, results, jury, votes[..n]).0;
    if votes[n].entry == entry {
      CastHolds(w, before, jury, votes[n]);
    } else {
      assert Mentions(votes[..n], entry) by {
        var k :| 0 <= k < |votes| && votes[k].entry == entry;
        assert votes[..n][k].entry == entry;
      }
      VotesStored(w, results, jury, votes[..n], entry);
      CastOther(w, before, jury, votes[n], entry,
                TheRecord(w, w.entries[entry], jury).value, LastPoints(votes[..n], entry));
    }
  }

  lemma ValidateHolds(
      w: World, results: seq<Result>, panel: int, jury: int, entry: int, record: int, points: int)
    requires Holds(results, entry, record, points)
    ensures Holds(Validate(w, results, panel, jury), entry, record, points)
  {
    hide Validate;
    var i :| 0 <= i < |results| && For(results[i], entry, record) && results[i].points == points;
    assert For(Validate(w, results, panel, jury)[i], entry, record);
  }

  /** In any store: a call that does not fail leaves the points of the last vote for
      each challenger voted on. */
  lemma RegisterStores(w: World, results: seq<Result>, call: Call, entry: int)
    requires Register(w, results, call).1.Some? && Mentions(call.votes, entry)
    ensures entry in w.entries && TheRecord(w, w.entries[entry], call.jury).Some?
    ensures Holds(Register(w, results, call).0, entry,
                  TheRecord(w, w.entries[entry], call.jury).value, LastPoints(call.votes, entry))
  {
    hide TheRecord, Holds, CastAll, Complete, Validate;
    VotesStored(w, results, call.jury, call.votes, entry);
    var cast := CastAll(w, results, call.jury, call.votes).0;
    ValidateHolds(w, cast, call.panel, call.jury, entry,
                  TheRecord(w, w.entries[entry], call.jury).value, LastPoints(call.votes, entry));
  }

  // ---------------------------------------------------------------- the store as a table

  /** The result for a challenger and a record, if there is one. */
  function Lookup(results: seq<Result>, entry: int, record: int): Option<Result> {
    if results == [] then None else
      var n := |results| - 1;
      if For(results[n], entry, record) then Some(results[n]) else Lookup(results[..n], entry, record)
  }

  lemma {:induction false} LookupNone(results: seq<Result>, entry: int, record: int)
    requires forall i :: 0 <= i < |results| ==> !For(results[i], entry, record)
    ensures Lookup(results, entry, record) == None
  {
    if results != [] {
      LookupNone(results[..|results| - 1], entry, record);
    }
  }

  lemma {:induction false} LookupIs(results: seq<Result>, i: nat)
    requires i < |results| && Unique(results)
    ensures Lookup(results, results[i].entry, results[i].record) == Some(results[i])
    decreases |results|
  {
    var n := |results| - 1;
    if i < n {
      assert results[..n][i] == results[i];
      LookupIs(results[..n], i);
    }
  }

  /** Two stores that agree on which results they have for a pair agree on the pair. */
  lemma LookupSame(a: seq<Result>, b: seq<Result>, entry: int, record: int)
    requires Unique(a) && Unique(b)
    requires forall i :: 0 <= i < |a| && For(a[i], entry, record) ==> i < |b| && b[i] == a[i]
    requires forall i :: 0 <= i < |b| && For(b[i], entry, record) ==> i < |a| && b[i] == a[i]
    ensures Lookup(a, entry, record) == Lookup(b, entry, record)
  {
    hide Lookup, Unique;
    if i :| 0 <= i < |a| && For(a[i], entry, record) {
      LookupIs(a, i);
      LookupIs(b, i);
    } else {
      LookupNone(a, entry, record);
      LookupNone(b, entry, record);
    }
  }

  lemma StoreLookup(results: seq<Result>, res: Result, entry: int, record: int)
    requires Unique(results) && Store(results, res).Some? && Unique(Store(results, res).value)
    ensures Lookup(Store(results, res).value, entry, record) ==
            if For(res, entry, record) then Some(res) else Lookup(results, entry, record)
  {
    hide Lookup, Unique;
    var after := Store(results, res).value;
    var i :| && 0 <= i < |after| && after[i] == res && |results| <= |after|
             && (i < |results| ==> For(results[i], res.entry, res.record))
             && (forall j :: 0 <= j < |after| && j != i ==> j < |results| && after[j] == results[j]);
    if For(res, entry, record) {
      LookupIs(after, i);
    } else {
      LookupSame(results, after, entry, record);
    }
  }

  /** The vote can be stored: its challenger and the member's record are found, and the
      store takes it. */
  predicate Storable(w: World, jury: int, vote: Vote) {
    vote.saves && vote.entry in w.entries && TheRecord(w, w.entries[vote.entry], jury).Some?
  }

  /** How many votes come before the first that cannot be stored. */
  function Stored(w: World, jury: int, votes: seq<Vote>): (k: nat)
    ensures k <= |votes|
    ensures forall i :: 0 <= i < k ==> Storable(w, jury, votes[i])
    ensures k < |votes| ==> !Storable(w, jury, votes[k])
  {
    if votes == [] || !Storable(w, jury, votes[0]) then 0 else 1 + Stored(w, jury, votes[1..])
  }

  lemma {:induction false} CastAllStops(w: World, results: seq<Result>, jury: int, votes: seq<Vote>)
    requires Safe(w, results)
    ensures var k := Stored(w, jury, votes);
            && CastAll(w, results, jury, votes[..k]) == (CastAll(w, results, jury, votes).0, true)
            && (CastAll(w, results, jury, votes).1 <==> k == |votes|)
    decreases |votes|
  {
    hide Safe, Cast, TheRecord;
    var k := Stored(w, jury, votes);
    if votes != [] {
      CastSafe(w, results, jury, votes[0]);
      if k > 0 {
        var next := Cast(w, results, jury, votes[0]).value;
        CastAllStops(w, next, jury, votes[1..]);
        assert votes[..k][1..] == votes[1..][..k - 1] && votes[..k][0] == votes[0];
      }
    }
  }

  predicate VotedHere(w: World, jury: int, votes: seq<Vote>, entry: int, record: int) {
    Mentions(votes, entry) && entry in w.entries && TheRecord(w, w.entries[entry], jury) == Some(record)
  }

  lemma {:induction false} CastAllLookup(
      w: World, results: seq<Result>, jury: int, votes: seq<Vote>, entry: int, record: int)
    requires Safe(w, results) && CastAll(w, results, jury, votes).1
    ensures Lookup(CastAll(w, results, jury, votes).0, entry, record) ==
            if VotedHere(w, jury, votes, entry, record)
            then Some(Result(entry, record, LastPoints(votes, entry), false)) else Lookup(results, entry, record)
    decreases |votes|
  {
    hide TheRecord, Lookup, Store;
    if votes != [] {
      CastAllSplit(w, results, jury, votes);
      var n := |votes| - 1;
      var before := CastAll(w, results, jury, votes[..n]).0;
      CastAllLookup(w, results, jury, votes[..n], entry, record);
      CastAllSafe(w, results, jury, votes[..n]);
      CastSafe(w, before, jury, votes[n]);
      hide CastAll, Safe;
      var found := TheRecord(w, w.entries[votes[n].entry], jury).value;
      var res := Result(votes[n].entry, found, votes[n].points, false);
      SafeUnique(w, before);
      SafeUnique(w, Cast(w, before, jury, votes[n]).value);
      StoreLookup(before, res, entry, record);
      MentionsNext(votes, n, entry);
    }
  }

  lemma SafeUnique(w: World, results: seq<Result>)
    requires Safe(w, results)
    ensures Unique(results)
  {}

  lemma MentionsNext(votes: seq<Vote>, n: nat, entry: int)
    requires n + 1 == |votes|
    ensures Mentions(votes, entry) <==> Mentions(votes[..n], entry) || votes[n].entry == entry
  {
    if k :| 0 <= k < n && votes[k].entry == entry {
      assert votes[..n][k].entry == entry;
    }
    if k :| 0 <= k < n && votes[..n][k].entry == entry {
      assert votes[k].entry == entry;
    }
  }

  /** Everything a call does to a safe store. It fails exactly when the member is
      unknown or some vote cannot be stored. The votes before that one are stored: each
      challenger voted on has the last points given, every other result keeps its own.
      A completed vote makes all the member's results in the panel valid; otherwise a
      stored vote is not valid and every other result is as valid as before. */
  lemma RegisterExactly(w: World, results: seq<Result>, call: Call, entry: int, record: int)
    requires Safe(w, results)
    ensures var (after, answer) := Register(w, results, call);
            var k := if call.jury in w.juries then Stored(w, call.jury, call.votes) else 0;
            var votes := call.votes[..k];
            var validated := answer == Some(true) && IsRecord(w, record, call.panel, call.jury);
            && (answer == None <==> call.jury !in w.juries || k < |call.votes|)
            && Lookup(after, entry, record) ==
               if VotedHere(w, call.jury, votes, entry, record)
               then Some(Result(entry, record, LastPoints(votes, entry), validated))
               else if Lookup(results, entry, record) == None then None
               else var was := Lookup(results, entry, record).value; Some(was.(valid := was.valid || validated))
  {
    hide TheRecord, Lookup, Safe, CastAll, Complete, Validate, Stored;
    if call.jury in w.juries {
      var k := Stored(w, call.jury, call.votes);
      CastAllStops(w, results, call.jury, call.votes);
      CastAllLookup(w, results, call.jury, call.votes[..k], entry, record);
      CastAllSafe(w, results, call.jury, call.votes);
      var cast := CastAll(w, results, call.jury, call.votes).0;
      SafeUnique(w, cast);
      ValidateLookup(w, cast, call.panel, call.jury, entry, record);
    }
  }

  lemma ValidateLookup(w: World, results: seq<Result>, panel: int, jury: int, entry: int, record: int)
    requires Unique(results)
    ensures Lookup(Validate(w, results, panel, jury), entry, record) ==
            if Lookup(results, entry, record) == None then None
            else var was := Lookup(results, entry, record).value;
                 Some(was.(valid := was.valid || IsRecord(w, record, panel, jury)))
  {
    hide Lookup, Validate;
    var after := Validate(w, results, panel, jury);
    assert forall i :: 0 <= i < |after| ==> For(after[i], results[i].entry, results[i].record);
    if i :| 0 <= i < |results| && For(results[i], entry, record) {
      LookupIs(results, i);
      LookupIs(after, i);
    } else {
      LookupNone(results, entry, record);
      LookupNone(after, entry, record);
    }
  }
}
