/** The coach portal's listing: submodules, in the order they come, nested in their
    modules and trainings. */
module TrainingGroups {
  import opened Inverses

  datatype Submodule = Submodule(id: int, moduleId: int)

  datatype ModuleGroup = ModuleGroup(moduleId: int, submodules: seq<Submodule>)

  datatype TrainingGroup = TrainingGroup(trainingId: int, modules: seq<ModuleGroup>)

  /** The submodules in the order the groups show them. */
  function FlatModules(ms: seq<ModuleGroup>): seq<Submodule> {
    if ms == [] then [] else ms[0].submodules + FlatModules(ms[1..])
  }

  function Flat(ts: seq<TrainingGroup>): seq<Submodule> {
    if ts == [] then [] else FlatModules(ts[0].modules) + Flat(ts[1..])
  }

  predicate ModuleOk(m: ModuleGroup) {
    m.submodules != [] && forall s <- m.submodules :: s.moduleId == m.moduleId
  }

  predicate TrainingOk(t: TrainingGroup, training: int -> int) {
    && t.modules != []
    && (forall i :: 0 <= i < |t.modules| ==> ModuleOk(t.modules[i]) && training(t.modules[i].moduleId) == t.trainingId)
    && (forall i :: 0 < i < |t.modules| ==> t.modules[i - 1].moduleId != t.modules[i].moduleId)
  }

  /** No group is empty, each holds only what belongs to it, and neighbours differ, so
      every group is as long as it can be. */
  predicate Grouped(ts: seq<TrainingGroup>, training: int -> int) {
    && (forall i :: 0 <= i < |ts| ==> TrainingOk(ts[i], training))
    && (forall i :: 0 < i < |ts| ==> ts[i - 1].trainingId != ts[i].trainingId)
  }

  lemma {:induction false} FlatModulesAppend(a: seq<ModuleGroup>, m: ModuleGroup)
    ensures FlatModules(a + [m]) == FlatModules(a) + m.submodules
  {
    if a == [] {
      assert a + [m] == [m] && [m][1..] == [];
      assert FlatModules([m][1..]) == [];
    } else {
      FlatModulesAppend(a[1..], m);
      assert (a + [m])[1..] == a[1..] + [m] && (a + [m])[0] == a[0];
    }
  }

  lemma {:induction false} FlatAppend(a: seq<TrainingGroup>, t: TrainingGroup)
    ensures Flat(a + [t]) == Flat(a) + FlatModules(t.modules)
  {
    hide FlatModules;
    if a == [] {
      assert a + [t] == [t] && [t][1..] == [];
      assert Flat([t][1..]) == [];
    } else {
      FlatAppend(a[1..], t);
      assert (a + [t])[1..] == a[1..] + [t] && (a + [t])[0] == a[0];
    }
  }

  // ---------------------------------------------------------------- the loop

  /** Everything shown so far: the closed trainings, and the open training with its
      closed modules and its open module. */
  function Shown(ts: seq<TrainingGroup>, trainingId: int, ms: seq<ModuleGroup>, moduleId: int,
                 subs: seq<Submodule>): seq<TrainingGroup>
  {
    ts + [TrainingGroup(trainingId, ms + [ModuleGroup(moduleId, subs)])]
  }

  predicate Progress(ts: seq<TrainingGroup>, t: int, ms: seq<ModuleGroup>, m: int, subs: seq<Submodule>,
                     training: int -> int, done: seq<Submodule>) {
    Grouped(Shown(ts, t, ms, m, subs), training) && Flat(Shown(ts, t, ms, m, subs)) == done
  }

  lemma ShownFlat(ts: seq<TrainingGroup>, t: int, ms: seq<ModuleGroup>, m: int, subs: seq<Submodule>)
    ensures Flat(Shown(ts, t, ms, m, subs)) == Flat(ts) + FlatModules(ms) + subs
  {
    hide Flat, FlatModules;
    FlatAppend(ts, TrainingGroup(t, ms + [ModuleGroup(m, subs)]));
    FlatModulesAppend(ms, ModuleGroup(m, subs));
  }

  lemma FirstOne(s: Submodule, training: int -> int)
    ensures Progress([], training(s.moduleId), [], s.moduleId, [s], training, [s])
  {
    ShownFlat([], training(s.moduleId), [], s.moduleId, [s]);
    assert Flat([]) + FlatModules([]) + [s] == [s];
    hide Flat;
  }

  lemma SameModule(ts: seq<TrainingGroup>, t: int, ms: seq<ModuleGroup>, m: int, subs: seq<Submodule>,
                   training: int -> int, done: seq<Submodule>, s: Submodule)
    requires Progress(ts, t, ms, m, subs, training, done) && s.moduleId == m
    ensures Progress(ts, t, ms, m, subs + [s], training, done + [s])
  {
    hide Flat, FlatModules;
    ShownFlat(ts, t, ms, m, subs);
    ShownFlat(ts, t, ms, m, subs + [s]);
    assert Flat(ts) + FlatModules(ms) + (subs + [s]) == Flat(ts) + FlatModules(ms) + subs + [s];
    ShownOk(ts, t, ms, m, subs, training);
    OpenGrouped(ts, t, ms, m, subs + [s], training);
  }

  lemma NewModule(ts: seq<TrainingGroup>, t: int, ms: seq<ModuleGroup>, m: int, subs: seq<Submodule>,
                  training: int -> int, done: seq<Submodule>, s: Submodule)
    requires Progress(ts, t, ms, m, subs, training, done) && s.moduleId != m && training(s.moduleId) == t
    ensures Progress(ts, t, ms + [ModuleGroup(m, subs)], s.moduleId, [s], training, done + [s])
  {
    hide Flat, FlatModules;
    var closed := ms + [ModuleGroup(m, subs)];
    ShownFlat(ts, t, ms, m, subs);
    ShownFlat(ts, t, closed, s.moduleId, [s]);
    FlatModulesAppend(ms, ModuleGroup(m, subs));
    assert Flat(ts) + (FlatModules(ms) + subs) == Flat(ts) + FlatModules(ms) + subs;
    ShownOk(ts, t, ms, m, subs, training);
    OpenGrouped(ts, t, closed, s.moduleId, [s], training);
  }

  lemma NewTraining(ts: seq<TrainingGroup>, t: int, ms: seq<ModuleGroup>, m: int, subs: seq<Submodule>,
                    training: int -> int, done: seq<Submodule>, s: Submodule)
    requires Progress(ts, t, ms, m, subs, training, done) && training(s.moduleId) != t
    ensures Progress(Shown(ts, t, ms, m, subs), training(s.moduleId), [], s.moduleId, [s], training, done + [s])
  {
    hide Flat;
    var closed := Shown(ts, t, ms, m, subs);
    ShownFlat(closed, training(s.moduleId), [], s.moduleId, [s]);
    assert FlatModules([]) == [];
    assert Flat(closed) + [] + [s] == Flat(closed) + [s];
    OpenGrouped(closed, training(s.moduleId), [], s.moduleId, [s], training);
  }

  /** What an open group must satisfy. */
  predicate OpenOk(ts: seq<TrainingGroup>, t: int, ms: seq<ModuleGroup>, m: int, subs: seq<Submodule>,
                   training: int -> int)
  {
    && Grouped(ts, training) && (ts != [] ==> ts[|ts| - 1].trainingId != t)
    && (forall i :: 0 <= i < |ms| ==> ModuleOk(ms[i]) && training(ms[i].moduleId) == t)
    && (forall i :: 0 < i < |ms| ==> ms[i - 1].moduleId != ms[i].moduleId)
    && (ms != [] ==> ms[|ms| - 1].moduleId != m)
    && ModuleOk(ModuleGroup(m, subs)) && training(m) == t
  }

  lemma ShownOk(ts: seq<TrainingGroup>, t: int, ms: seq<ModuleGroup>, m: int, subs: seq<Submodule>,
                training: int -> int)
    requires Grouped(Shown(ts, t, ms, m, subs), training)
    ensures OpenOk(ts, t, ms, m, subs, training)
  {
    hide ModuleOk;
    var all := Shown(ts, t, ms, m, subs);
    assert forall i :: 0 <= i < |ts| ==> all[i] == ts[i];
    var open := all[|ts|];
    assert TrainingOk(open, training);
    assert open.modules[|ms|] == ModuleGroup(m, subs);
    assert forall i :: 0 <= i < |ms| ==> open.modules[i] == ms[i];
  }

  lemma OpenGrouped(ts: seq<TrainingGroup>, t: int, ms: seq<ModuleGroup>, m: int, subs: seq<Submodule>,
                    training: int -> int)
    requires OpenOk(ts, t, ms, m, subs, training)
    ensures Grouped(Shown(ts, t, ms, m, subs), training)
  {
    hide ModuleOk;
  }

  /** The control-break loop. */
  method GroupSubmodules(submodules: seq<Submodule>, training: int -> int) returns (trainings: seq<TrainingGroup>)
    ensures Flat(trainings) == submodules && Grouped(trainings, training)
  {
    trainings := [];
    var modules: seq<ModuleGroup>, subs: seq<Submodule> := [], [];
    var currentTraining: Option<int>, currentModule: Option<int> := None, None;
    var count, total := 0, |submodules|;
    NothingGrouped(training);
    hide Progress, Shown, Flat, Grouped;
    for i := 0 to |submodules|
      invariant count == i
      invariant i == 0 ==> currentTraining == None && currentModule == None
      invariant i == 0 ==> trainings == [] && modules == [] && subs == []
      invariant 0 < i ==> currentTraining.Some? && currentModule.Some?
      invariant 0 < i < total ==>
          Progress(trainings, currentTraining.value, modules, currentModule.value, subs, training, submodules[..i])
      invariant i == total ==> Flat(trainings) == submodules && Grouped(trainings, training)
    {
      var s := submodules[i];
      ghost var was := (trainings, modules, subs);
      ghost var t0, m0 := currentTraining, currentModule;
      if currentModule == None {
        currentModule := Some(s.moduleId);
      }
      if currentModule.value != s.moduleId {
        modules := modules + [ModuleGroup(currentModule.value, subs)];
        subs := [];
        currentModule := Some(s.moduleId);
      }
      if currentTraining == None {
        currentTraining := Some(training(currentModule.value));
      }
      if currentTraining.value != training(currentModule.value) {
        trainings := trainings + [TrainingGroup(currentTraining.value, modules)];
        modules := [];
        currentTraining := Some(training(currentModule.value));
      }
      subs := subs + [s];
      assert submodules[..i + 1] == submodules[..i] + [s];
      Broken(was.0, t0, was.1, m0, was.2, training, submodules[..i], s);
      ghost var done := submodules[..i + 1];
      assert Progress(trainings, currentTraining.value, modules, currentModule.value, subs, training, done);
      count := count + 1;
      if count >= total {
        modules := modules + [ModuleGroup(currentModule.value, subs)];
        ProgressShown(trainings, currentTraining.value, modules, currentModule.value, subs, training, done);
        trainings := trainings + [TrainingGroup(currentTraining.value, modules)];
        assert submodules[..i + 1] == submodules;
      }
    }
  }

  lemma NothingGrouped(training: int -> int)
    ensures Flat([]) == [] && Grouped([], training)
  {}

  lemma ProgressShown(ts: seq<TrainingGroup>, t: int, ms: seq<ModuleGroup>, m: int, subs: seq<Submodule>,
                      training: int -> int, done: seq<Submodule>)
    requires ms != [] && ms[|ms| - 1] == ModuleGroup(m, subs)
    requires Progress(ts, t, ms[..|ms| - 1], m, subs, training, done)
    ensures Grouped(ts + [TrainingGroup(t, ms)], training) && Flat(ts + [TrainingGroup(t, ms)]) == done
  {
    hide Flat, Grouped;
    assert ms == ms[..|ms| - 1] + [ModuleGroup(m, subs)];
  }

  /** One turn of the loop, as the three places where it may break. */
  lemma Broken(ts: seq<TrainingGroup>, t: Option<int>, ms: seq<ModuleGroup>, m: Option<int>, subs: seq<Submodule>,
               training: int -> int, done: seq<Submodule>, s: Submodule)
    requires if done == [] then t == None && m == None && ts == [] && ms == [] && subs == []
             else t.Some? && m.Some? && Progress(ts, t.value, ms, m.value, subs, training, done)
    ensures var t' := training(s.moduleId);
            var closed := if m.Some? then ms + [ModuleGroup(m.value, subs)] else ms;
            if m == None || m.value == s.moduleId then
              Progress(ts, t', ms, s.moduleId, subs + [s], training, done + [s])
            else if t.value == t' then
              Progress(ts, t', closed, s.moduleId, [] + [s], training, done + [s])
            else
              Progress(ts + [TrainingGroup(t.value, closed)], t', [], s.moduleId, [] + [s], training, done + [s])
    ensures m.Some? && m.value == s.moduleId ==> t.value == training(s.moduleId)
  {
    assert [] + [s] == [s];
    if done == [] {
      FirstOne(s, training);
      hide Progress;
    } else {
      assert training(m.value) == t.value by { ShownOk(ts, t.value, ms, m.value, subs, training); }
      if m.value == s.moduleId {
        SameModule(ts, t.value, ms, m.value, subs, training, done, s);
      } else if t.value == training(s.moduleId) {
        NewModule(ts, t.value, ms, m.value, subs, training, done, s);
      } else {
        NewTraining(ts, t.value, ms, m.value, subs, training, done, s);
      }
      hide Progress;
    }
  }

  // ---------------------------------------------------------------- the only grouping

  /** The groups without the first module. */
  function Rest(ts: seq<TrainingGroup>): seq<TrainingGroup>
    requires ts != [] && ts[0].modules != []
  {
    if |ts[0].modules| == 1 then ts[1..]
    else [TrainingGroup(ts[0].trainingId, ts[0].modules[1..])] + ts[1..]
  }

  lemma FlatUnfold(ts: seq<TrainingGroup>)
    requires ts != []
    ensures Flat(ts) == FlatModules(ts[0].modules) + Flat(ts[1..])
  {
    hide FlatModules;
  }

  lemma FlatModulesUnfold(ms: seq<ModuleGroup>)
    requires ms != []
    ensures FlatModules(ms) == ms[0].submodules + FlatModules(ms[1..])
    ensures |ms| == 1 ==> FlatModules(ms) == ms[0].submodules
  {
    if |ms| == 1 {
      assert ms[1..] == [];
    }
  }

  lemma RestFlat(ts: seq<TrainingGroup>)
    requires ts != [] && ts[0].modules != []
    ensures Flat(ts) == ts[0].modules[0].submodules + Flat(Rest(ts))
  {
    hide Flat, FlatModules;
    var ms := ts[0].modules;
    FlatUnfold(ts);
    FlatModulesUnfold(ms);
    if |ms| > 1 {
      FlatUnfold(Rest(ts));
      RestParts(ts);
      hide Rest;
      Associates(ms[0].submodules, FlatModules(ms[1..]), Flat(ts[1..]));
    }
  }

  lemma RestParts(ts: seq<TrainingGroup>)
    requires ts != [] && |ts[0].modules| > 1
    ensures Rest(ts) != [] && Rest(ts)[0].modules == ts[0].modules[1..] && Rest(ts)[1..] == ts[1..]
  {}

  lemma Associates(a: seq<Submodule>, b: seq<Submodule>, c: seq<Submodule>)
    ensures a + b + c == a + (b + c)
  {}

  lemma RestGrouped(ts: seq<TrainingGroup>, training: int -> int)
    requires ts != [] && Grouped(ts, training)
    ensures ts[0].modules != [] && Grouped(Rest(ts), training)
  {
    hide ModuleOk;
    assert TrainingOk(ts[0], training);
    var ms := ts[0].modules;
    if |ms| > 1 {
      assert forall i :: 0 <= i < |ms[1..]| ==> ms[1..][i] == ms[i + 1];
      assert TrainingOk(TrainingGroup(ts[0].trainingId, ms[1..]), training);
      assert forall i :: 1 <= i < |ts| ==> Rest(ts)[i] == ts[i];
    } else {
      assert forall i :: 0 <= i < |ts[1..]| ==> ts[1..][i] == ts[i + 1];
    }
  }

  /** What follows the first module starts with another module. */
  lemma RestStarts(ts: seq<TrainingGroup>, training: int -> int)
    requires ts != [] && Grouped(ts, training)
    ensures var first := ts[0].modules[0].moduleId; Flat(Rest(ts)) != [] ==> Flat(Rest(ts))[0].moduleId != first
  {
    assert TrainingOk(ts[0], training) && ModuleOk(ts[0].modules[0]);
    var rest := Rest(ts);
    RestGrouped(ts, training);
    if rest != [] {
      assert TrainingOk(rest[0], training);
      var m := rest[0].modules[0];
      assert ModuleOk(m);
      assert m.moduleId != ts[0].modules[0].moduleId;
      RestFlat(rest);
      assert m.submodules[0] in m.submodules;
      assert Flat(rest)[0] == m.submodules[0];
    }
  }

  /** The first run of submodules is determined by the flat order. */
  lemma SameRun(a: seq<Submodule>, x: seq<Submodule>, b: seq<Submodule>, y: seq<Submodule>, m: int)
    requires a + x == b + y && |a| <= |b|
    requires forall s <- b :: s.moduleId == m
    requires x != [] ==> x[0].moduleId != m
    ensures a == b && x == y
  {
    assert forall i :: 0 <= i < |b| ==> b[i] in b && b[i] == (a + x)[i];
    assert a == (a + x)[..|a|] && b == (b + y)[..|b|];
    assert x == (a + x)[|a|..] && y == (b + y)[|b|..];
  }

  lemma SameFirst(a: seq<TrainingGroup>, b: seq<TrainingGroup>, training: int -> int)
    requires a != [] && b != [] && Grouped(a, training) && Grouped(b, training) && Flat(a) == Flat(b)
    ensures a[0].modules != [] && b[0].modules != []
    ensures a[0].trainingId == b[0].trainingId && a[0].modules[0] == b[0].modules[0] && Flat(Rest(a)) == Flat(Rest(b))
  {
    assert TrainingOk(a[0], training) && TrainingOk(b[0], training);
    var m, n := a[0].modules[0], b[0].modules[0];
    assert ModuleOk(m) && ModuleOk(n);
    RestFlat(a);
    RestFlat(b);
    RestStarts(a, training);
    RestStarts(b, training);
    var x, y := Flat(Rest(a)), Flat(Rest(b));
    hide Flat, Rest;
    assert m.submodules[0] == (m.submodules + x)[0] == (n.submodules + y)[0] == n.submodules[0];
    assert m.submodules[0] in m.submodules && n.submodules[0] in n.submodules;
    if |m.submodules| <= |n.submodules| {
      SameRun(m.submodules, x, n.submodules, y, m.moduleId);
    } else {
      SameRun(n.submodules, y, m.submodules, x, m.moduleId);
    }
  }

  lemma {:induction false} FlatEmpty(ts: seq<TrainingGroup>, training: int -> int)
    requires Grouped(ts, training)
    ensures Flat(ts) == [] <==> ts == []
  {
    if ts != [] {
      assert TrainingOk(ts[0], training) && ModuleOk(ts[0].modules[0]);
      RestFlat(ts);
    }
  }

  /** Any two groupings of the same submodules are the same: the loop's answer is the
      run-length grouping by module and then by training. */
  lemma {:induction false} OnlyGrouping(a: seq<TrainingGroup>, b: seq<TrainingGroup>, training: int -> int)
    requires Grouped(a, training) && Grouped(b, training) && Flat(a) == Flat(b)
    ensures a == b
    decreases |Flat(a)|
  {
    FlatEmpty(a, training);
    FlatEmpty(b, training);
    if a != [] && b != [] {
      SameFirst(a, b, training);
      RestGrouped(a, training);
      RestGrouped(b, training);
      RestFlat(a);
      assert TrainingOk(a[0], training) && ModuleOk(a[0].modules[0]);
      OnlyGrouping(Rest(a), Rest(b), training);
      RestDetermines(a, b, training);
    }
  }

  lemma RestTraining(ts: seq<TrainingGroup>, training: int -> int)
    requires ts != [] && Grouped(ts, training) && ts[0].modules != []
    ensures |ts[0].modules| > 1 <==> Rest(ts) != [] && Rest(ts)[0].trainingId == ts[0].trainingId
  {
    hide TrainingOk;
  }

  lemma RestDetermines(a: seq<TrainingGroup>, b: seq<TrainingGroup>, training: int -> int)
    requires a != [] && b != [] && Grouped(a, training) && Grouped(b, training)
    requires a[0].modules != [] && b[0].modules != [] && a[0].trainingId == b[0].trainingId
    requires a[0].modules[0] == b[0].modules[0] && Rest(a) == Rest(b)
    ensures a == b
  {
    RestTraining(a, training);
    RestTraining(b, training);
    hide Grouped;
    var m, n := a[0].modules, b[0].modules;
    assert m == [m[0]] + m[1..] && n == [n[0]] + n[1..] && a == [a[0]] + a[1..] && b == [b[0]] + b[1..];
    if |m| > 1 {
      assert Rest(a)[0] == Rest(b)[0] && Rest(a)[1..] == a[1..] && Rest(b)[1..] == b[1..];
    }
  }
}
