/** How the cms command pairs -signer, -inkey and -keyopt options. */
module CmsSigners {
  import opened Inverses

  datatype Operation = Undecided | Encrypt | Sign | OtherOperation

  /** The options that matter here; a recipient certificate may fail to load. */
  datatype Opt =
    | SetOperation(operation: Operation)
    | Signer(file: string)
    | InKey(file: string)
    | KeyOpt(text: string)
    | Recipient(loads: bool)

  /** A list node: the pair it is for, and which options it collects, by position. */
  datatype Node = Node(idx: int, params: seq<nat>)

  datatype State = State(
    operation: Operation, signers: seq<string>, keys: seq<string>,
    signer: Option<string>, key: Option<string>, recipients: nat, nodes: seq<Node>)

  const START := State(Undecided, [], [], None, None, 0, [])

  /** The pair that the options are filling, counting from zero, or -1. */
  function Pending(s: State): int {
    |s.keys| + (if s.signer.Some? || s.key.Some? then 1 else 0) - 1
  }

  /** The index a -keyopt gets: while encrypting it counts recipients. */
  function KeyIndex(s: State): int {
    if s.operation == Encrypt then s.recipients - 1 else Pending(s)
  }

  function AddParam(nodes: seq<Node>, idx: int, at: nat): seq<Node> {
    var n := |nodes| - 1;
    if n >= 0 && nodes[n].idx == idx then nodes[..n] + [Node(idx, nodes[n].params + [at])]
    else nodes + [Node(idx, [at])]
  }

  function Push(s: State, signer: string, key: string): State {
    s.(signers := s.signers + [signer], keys := s.keys + [key])
  }

  function Step(s: State, opt: Opt, at: nat): Option<State> {
    match opt
    case SetOperation(operation) => Some(s.(operation := operation))
    case Signer(file) =>
      if s.signer == None then Some(s.(signer := Some(file)))
      else
        var key := if s.key.Some? then s.key.value else s.signer.value;
        Some(Push(s, s.signer.value, key).(key := None, signer := Some(file)))
    case InKey(file) =>
      if s.key == None then Some(s.(key := Some(file)))
      else if s.signer == None then None
      else Some(Push(s, s.signer.value, s.key.value).(signer := None, key := Some(file)))
    case KeyOpt(_) =>
      if KeyIndex(s) < 0 then None else Some(s.(nodes := AddParam(s.nodes, KeyIndex(s), at)))
    case Recipient(loads) =>
      if s.operation != Encrypt then Some(s)
      else if loads then Some(s.(recipients := s.recipients + 1)) else None
  }

  function Run(opts: seq<Opt>): Option<State> {
    if opts == [] then Some(START) else
      var n := |opts| - 1;
      var before := Run(opts[..n]);
      if before == None then None else Step(before.value, opts[n], n)
  }

  /** The checks after the options: the last pair is closed, and there must be one. */
  function Close(s: State): Option<State> {
    if s.key.Some? && s.signer == None then None
    else
      var t := if s.signer == None then s
               else Push(s, s.signer.value, if s.key.Some? then s.key.value else s.signer.value);
      if t.signers == [] then None else Some(t.(signer := None, key := None))
  }

  /** What the signing loop passes to signer `i`: the first node with its index. */
  function Applied(nodes: seq<Node>, i: int): seq<nat> {
    if nodes == [] then [] else if nodes[0].idx == i then nodes[0].params else Applied(nodes[1..], i)
  }

  // ---------------------------------------------------------------- the loops

  /** The option loop. */
  method ReadOptions(opts: seq<Opt>) returns (r: Option<State>)
    ensures r == Run(opts)
  {
    var operation, signer: Option<string>, key: Option<string>, recipients := Undecided, None, None, 0;
    var signers: seq<string>, keys: seq<string>, nodes: seq<Node> := [], [], [];
    RunEmpty();
    assert opts[..0] == [];
    hide Run, AddParam;
    for i := 0 to |opts|
      invariant recipients >= 0
      invariant Run(opts[..i]) == Some(State(operation, signers, keys, signer, key, recipients, nodes))
    {
      RunNext(opts, i);
      match opts[i] {
        case SetOperation(op) =>
          operation := op;
        case Signer(file) =>
          if signer.Some? {
            signers := signers + [signer.value];
            if key == None {
              key := signer;
            }
            keys := keys + [key.value];
            key := None;
          }
          signer := Some(file);
        case InKey(file) =>
          if key.Some? {
            if signer == None {
              RunStuck(opts, i + 1);
              return None;
            }
            signers := signers + [signer.value];
            signer := None;
            keys := keys + [key.value];
          }
          key := Some(file);
        case KeyOpt(_) =>
          var idx := -1;
          if operation == Encrypt {
            if recipients > 0 {
              idx := idx + recipients;
            }
          } else {
            if key.Some? || signer.Some? {
              idx := idx + 1;
            }
            idx := idx + |keys|;
          }
          if idx < 0 {
            RunStuck(opts, i + 1);
            return None;
          }
          nodes := FileKeyOpt(nodes, idx, i);
        case Recipient(loads) =>
          if operation == Encrypt {
            if !loads {
              RunStuck(opts, i + 1);
              return None;
            }
            recipients := recipients + 1;
          }
      }
    }
    assert opts[..|opts|] == opts;
    return Some(State(operation, signers, keys, signer, key, recipients, nodes));
  }

  /** Opens a new node unless the last one already has the index. */
  method FileKeyOpt(nodes: seq<Node>, idx: int, at: nat) returns (r: seq<Node>)
    ensures r == AddParam(nodes, idx, at)
  {
    r := nodes;
    if r == [] || r[|r| - 1].idx != idx {
      r := r + [Node(idx, [])];
    }
    var n := |r| - 1;
    assert n == |nodes| ==> r[n].params + [at] == [at];
    r := r[n := Node(idx, r[n].params + [at])];
    assert r == AddParam(nodes, idx, at);
  }

  lemma RunNext(opts: seq<Opt>, i: nat)
    requires i < |opts|
    ensures Run(opts[..i + 1]) == if Run(opts[..i]) == None then None else Step(Run(opts[..i]).value, opts[i], i)
  {
    hide Step;
    assert opts[..i + 1][..i] == opts[..i];
  }

  lemma {:induction false} RunStuck(opts: seq<Opt>, i: nat)
    requires i <= |opts| && Run(opts[..i]) == None
    ensures Run(opts) == None
    decreases |opts| - i
  {
    hide Step, Run;
    if i == |opts| {
      assert opts[..i] == opts;
    } else {
      RunNext(opts, i);
      RunStuck(opts, i + 1);
    }
  }

  /** The signing loop: each signer's file, key file and key options. */
  method SignAll(s: State) returns (out: seq<(string, string, seq<nat>)>)
    requires |s.signers| == |s.keys|
    ensures |out| == |s.signers|
    ensures forall i :: 0 <= i < |out| ==> out[i] == (s.signers[i], s.keys[i], Applied(s.nodes, i))
  {
    out := [];
    for i := 0 to |s.signers|
      invariant |out| == i
      invariant forall j :: 0 <= j < i ==> out[j] == (s.signers[j], s.keys[j], Applied(s.nodes, j))
    {
      var params, k := [], 0;
      assert s.nodes[0..] == s.nodes;
      while k < |s.nodes|
        invariant 0 <= k <= |s.nodes| && params == []
        invariant Applied(s.nodes[k..], i) == Applied(s.nodes, i)
      {
        assert s.nodes[k..][1..] == s.nodes[k + 1..];
        if s.nodes[k].idx == i {
          params := s.nodes[k].params;
          break;
        }
        k := k + 1;
      }
      out := out + [(s.signers[i], s.keys[i], params)];
    }
  }

  // ---------------------------------------------------------------- pairs

  /** The pairs only grow, and what is pending ends up in the next pair. */
  predicate Keeps(a: State, b: State) {
    && |a.signers| == |a.keys| && |b.signers| == |b.keys|
    && a.signers <= b.signers && a.keys <= b.keys
    && (a.signer.Some? ==> if |b.keys| == |a.keys| then b.signer == a.signer
                           else b.signers[|a.signers|] == a.signer.value)
    && (a.key.Some? ==> if |b.keys| == |a.keys| then b.key == a.key else b.keys[|a.keys|] == a.key.value)
    && Pending(a) <= Pending(b)
  }

  lemma KeepsTransitive(a: State, b: State, c: State)
    requires Keeps(a, b) && Keeps(b, c)
    ensures Keeps(a, c)
  {}

  lemma StepKeepsPairs(s: State, opt: Opt, at: nat)
    requires |s.signers| == |s.keys| && Step(s, opt, at).Some?
    ensures Keeps(s, Step(s, opt, at).value)
  {}

  lemma {:induction false} RunKeeps(opts: seq<Opt>, k: nat)
    requires k <= |opts| && Run(opts).Some?
    ensures Run(opts[..k]).Some? && Keeps(Run(opts[..k]).value, Run(opts).value)
    decreases |opts|
  {
    hide Step;
    var n := |opts| - 1;
    if opts == [] {
    } else if k <= n {
      assert opts[..n][..k] == opts[..k];
      RunKeeps(opts[..n], k);
      StepKeepsPairs(Run(opts[..n]).value, opts[n], n);
      KeepsTransitive(Run(opts[..k]).value, Run(opts[..n]).value, Run(opts).value);
    } else {
      RunKeeps(opts[..n], n);
      assert opts[..k] == opts && opts[..n][..n] == opts[..n];
      StepKeepsPairs(Run(opts[..n]).value, opts[n], n);
    }
  }

  lemma CloseKeeps(s: State)
    requires |s.signers| == |s.keys| && Close(s).Some?
    ensures var t := Close(s).value;
            && |t.signers| == |t.keys| && s.signers <= t.signers && s.keys <= t.keys && t.nodes == s.nodes
            && Pending(s) == |t.keys| - 1
            && (s.signer.Some? ==> t.signers[|s.signers|] == s.signer.value)
            && (s.key.Some? ==> t.keys[|s.keys|] == s.key.value)
  {}

  function SignerArgs(opts: seq<Opt>): seq<string> {
    if opts == [] then [] else
      var n := |opts| - 1;
      SignerArgs(opts[..n]) + (if opts[n].Signer? then [opts[n].file] else [])
  }

  lemma {:induction false} AllSigners(opts: seq<Opt>)
    requires Run(opts).Some?
    ensures var s := Run(opts).value;
            SignerArgs(opts) == s.signers + (if s.signer.Some? then [s.signer.value] else [])
  {
    if opts != [] {
      AllSigners(opts[..|opts| - 1]);
    }
  }

  /** Option `k` is a -inkey read as the key of pair `i`. */
  predicate Lands(opts: seq<Opt>, k: nat, i: nat) {
    k < |opts| && opts[k].InKey? && Run(opts[..k + 1]).Some? && |Run(opts[..k + 1]).value.keys| == i
  }

  /** A pair's key is the -inkey read for it or, when there was none, its signer. */
  ghost predicate KeyOf(opts: seq<Opt>, i: nat, signer: string, key: string) {
    || (exists k: nat :: Lands(opts, k, i) && opts[k].file == key)
    || ((forall k: nat :: !Lands(opts, k, i)) && key == signer)
  }

  ghost predicate KeysSoFar(opts: seq<Opt>, s: State) {
    && |s.signers| == |s.keys|
    && (forall i :: 0 <= i < |s.keys| ==> KeyOf(opts, i, s.signers[i], s.keys[i]))
    && (s.key.Some? ==> exists k: nat :: Lands(opts, k, |s.keys|) && opts[k].file == s.key.value)
    && (forall k: nat, i: nat :: Lands(opts, k, i) ==> i < |s.keys| || (i == |s.keys| && s.key.Some?))
  }

  lemma LandsPrefix(opts: seq<Opt>, n: nat, k: nat, i: nat)
    requires n <= |opts| && k < n
    ensures Lands(opts[..n], k, i) <==> Lands(opts, k, i)
  {
    assert opts[..n][..k + 1] == opts[..k + 1];
  }

  /** What the next option adds: only a -inkey lands, on the pair then pending. */
  lemma LandsNext(opts: seq<Opt>, n: nat, k: nat, i: nat)
    requires n + 1 == |opts| && Run(opts).Some?
    ensures Lands(opts, k, i)
       <==> Lands(opts[..n], k, i) || (k == n && opts[n].InKey? && i == |Run(opts).value.keys|)
  {
    hide Run;
    assert opts[..n + 1] == opts;
    if k < n {
      LandsPrefix(opts, n, k, i);
    }
  }

  lemma KeyOfNext(opts: seq<Opt>, n: nat, i: nat, signer: string, key: string)
    requires n + 1 == |opts| && Run(opts).Some? && KeyOf(opts[..n], i, signer, key)
    requires opts[n].InKey? ==> i != |Run(opts).value.keys|
    ensures KeyOf(opts, i, signer, key)
  {
    hide Run;
    if k: nat :| Lands(opts[..n], k, i) && opts[..n][k].file == key {
      LandsNext(opts, n, k, i);
      LandsBelow(opts[..n], k, i);
      assert opts[..n][k] == opts[k];
    } else {
      forall k: nat ensures !Lands(opts, k, i) {
        LandsNext(opts, n, k, i);
      }
    }
  }

  lemma LandsBelow(opts: seq<Opt>, k: nat, i: nat)
    requires Lands(opts, k, i)
    ensures k < |opts| && opts[k].InKey?
  {
    hide Run;
  }

  /** Closing the pending pair gives it its key. */
  lemma KeyClosed(opts: seq<Opt>, s: State)
    requires KeysSoFar(opts, s) && s.signer.Some?
    ensures KeyOf(opts, |s.keys|, s.signer.value, if s.key.Some? then s.key.value else s.signer.value)
  {
    hide Run, Lands;
    if s.key == None {
      forall k: nat ensures !Lands(opts, k, |s.keys|) {}
    }
  }

  lemma PendingNext(opts: seq<Opt>, n: nat, i: nat, key: string)
    requires n + 1 == |opts| && Run(opts).Some?
    requires exists k: nat :: Lands(opts[..n], k, i) && opts[..n][k].file == key
    ensures exists k: nat :: Lands(opts, k, i) && opts[k].file == key
  {
    hide Run;
    var k: nat :| Lands(opts[..n], k, i) && opts[..n][k].file == key;
    LandsNext(opts, n, k, i);
    LandsBelow(opts[..n], k, i);
    assert opts[..n][k] == opts[k];
  }

  lemma {:induction false} RunKeys(opts: seq<Opt>)
    requires Run(opts).Some?
    ensures KeysSoFar(opts, Run(opts).value)
    decreases |opts|
  {
    hide Run, KeyOf;
    if opts == [] {
      RunEmpty();
    } else {
      var n := |opts| - 1;
      assert opts[..n + 1] == opts;
      RunNext(opts, n);
      var s, t := Run(opts[..n]).value, Run(opts).value;
      RunKeys(opts[..n]);
      StepKeepsPairs(s, opts[n], n);
      forall i | 0 <= i < |t.keys| ensures KeyOf(opts, i, t.signers[i], t.keys[i]) {
        if i == |s.keys| {
          KeyClosed(opts[..n], s);
        }
        KeyOfNext(opts, n, i, t.signers[i], t.keys[i]);
      }
      if t.key.Some? {
        if opts[n].InKey? {
          LandsNext(opts, n, n, |t.keys|);
        } else {
          PendingNext(opts, n, |t.keys|, t.key.value);
        }
      }
      forall k: nat, i: nat | Lands(opts, k, i) ensures i < |t.keys| || (i == |t.keys| && t.key.Some?) {
        LandsNext(opts, n, k, i);
      }
    }
  }

  /** Every key in the end is the -inkey given for its signer, or the signer's file. */
  lemma KeysPaired(opts: seq<Opt>, i: nat)
    requires Run(opts).Some? && Close(Run(opts).value).Some? && i < |Close(Run(opts).value).value.keys|
    ensures var end := Close(Run(opts).value).value;
            |end.signers| == |end.keys| && KeyOf(opts, i, end.signers[i], end.keys[i])
  {
    hide Run, KeyOf;
    var s := Run(opts).value;
    RunKeys(opts);
    if i == |s.keys| {
      KeyClosed(opts, s);
    }
  }

  // ---------------------------------------------------------------- key options

  /** The index a -keyopt counts by agrees with the pair it is read for. */
  predicate Agrees(s: State) {
    s.operation == Encrypt ==> s.recipients == Pending(s) + 1
  }

  /** Every -keyopt is read while its index agrees with the pending pair: always so
      unless the operation is, at that moment, to encrypt. */
  predicate Steady(opts: seq<Opt>) {
    forall k :: 0 <= k < |opts| && opts[k].KeyOpt? && Run(opts[..k]).Some? ==> Agrees(Run(opts[..k]).value)
  }

  function IndexAt(opts: seq<Opt>, k: nat): int
    requires k < |opts|
  {
    if Run(opts[..k]).Some? then KeyIndex(Run(opts[..k]).value) else -1
  }

  function PendingAt(opts: seq<Opt>, k: nat): int
    requires k < |opts|
  {
    if Run(opts[..k]).Some? then Pending(Run(opts[..k]).value) else -1
  }

  predicate Holds(node: Node, k: nat) {
    k in node.params
  }

  /** The nodes hold exactly the positions of the -keyopt options, each under the
      index it was given. */
  ghost predicate Filed(opts: seq<Opt>, nodes: seq<Node>) {
    && (forall k: nat :: k < |opts| && opts[k].KeyOpt? ==> exists a :: 0 <= a < |nodes| && Holds(nodes[a], k))
    && (forall a: nat, k: nat {:trigger Holds(nodes[a], k)} :: a < |nodes| && Holds(nodes[a], k) ==>
          k < |opts| && opts[k].KeyOpt? && nodes[a].idx == IndexAt(opts, k))
  }

  predicate Increasing(nodes: seq<Node>) {
    forall a, b :: 0 <= a < b < |nodes| ==> nodes[a].idx < nodes[b].idx
  }

  lemma PrefixIndex(opts: seq<Opt>, n: nat, k: nat)
    requires k < n <= |opts|
    ensures IndexAt(opts[..n], k) == IndexAt(opts, k) && PendingAt(opts[..n], k) == PendingAt(opts, k)
    ensures opts[..n][k] == opts[k]
  {
    assert opts[..n][..k] == opts[..k];
  }

  lemma AddParamFiles(nodes: seq<Node>, idx: int, at: nat, a: nat, k: nat)
    requires a < |AddParam(nodes, idx, at)|
    ensures Holds(AddParam(nodes, idx, at)[a], k)
       <==> (a < |nodes| && Holds(nodes[a], k)) || (k == at && a == |AddParam(nodes, idx, at)| - 1)
    ensures AddParam(nodes, idx, at)[a].idx == if a < |nodes| then nodes[a].idx else idx
    ensures |nodes| <= |AddParam(nodes, idx, at)| <= |nodes| + 1
    ensures AddParam(nodes, idx, at)[|AddParam(nodes, idx, at)| - 1].idx == idx
  {}

  lemma FiledPrefix(opts: seq<Opt>, n: nat, nodes: seq<Node>)
    requires n + 1 == |opts| && Filed(opts[..n], nodes)
    ensures forall k: nat :: k < n && opts[k].KeyOpt? ==> exists a :: 0 <= a < |nodes| && Holds(nodes[a], k)
    ensures forall a: nat, k: nat {:trigger Holds(nodes[a], k)} :: a < |nodes| && Holds(nodes[a], k) ==>
              k < n && opts[k].KeyOpt? && nodes[a].idx == IndexAt(opts, k)
  {
    hide IndexAt;
    forall k: nat | k < n && opts[k].KeyOpt? ensures exists a :: 0 <= a < |nodes| && Holds(nodes[a], k) {
      assert opts[..n][k] == opts[k];
    }
    forall a: nat, k: nat {:trigger Holds(nodes[a], k)} | a < |nodes| && Holds(nodes[a], k)
      ensures k < n && opts[k].KeyOpt? && nodes[a].idx == IndexAt(opts, k)
    {
      assert k < n;
      PrefixIndex(opts, n, k);
    }
  }

  lemma {:induction false} RunFiles(opts: seq<Opt>)
    requires Run(opts).Some?
    ensures Filed(opts, Run(opts).value.nodes)
    decreases |opts|
  {
    hide KeyIndex, AddParam, IndexAt, Run;
    if opts == [] {
      assert Run(opts) == Some(START) by { RunEmpty(); }
    } else {
      var n := |opts| - 1;
      assert opts[..|opts|] == opts;
      RunNext(opts, n);
      var s, t := Run(opts[..n]).value, Run(opts).value;
      RunFiles(opts[..n]);
      FiledPrefix(opts, n, s.nodes);
      if opts[n].KeyOpt? {
        assert IndexAt(opts, n) == KeyIndex(s) by { IndexAtIs(opts, n); }
        FilesOne(opts, n, s.nodes);
      } else {
        assert t.nodes == s.nodes;
      }
    }
  }

  lemma RunEmpty()
    ensures Run([]) == Some(START)
  {}

  lemma IndexAtIs(opts: seq<Opt>, n: nat)
    requires n < |opts| && Run(opts[..n]).Some?
    ensures IndexAt(opts, n) == KeyIndex(Run(opts[..n]).value)
  {}

  lemma FilesOne(opts: seq<Opt>, n: nat, nodes: seq<Node>)
    requires n + 1 == |opts| && opts[n].KeyOpt?
    requires forall k: nat :: k < n && opts[k].KeyOpt? ==> exists a :: 0 <= a < |nodes| && Holds(nodes[a], k)
    requires forall a: nat, k: nat {:trigger Holds(nodes[a], k)} :: a < |nodes| && Holds(nodes[a], k) ==>
               k < n && opts[k].KeyOpt? && nodes[a].idx == IndexAt(opts, k)
    ensures Filed(opts, AddParam(nodes, IndexAt(opts, n), n))
  {
    hide IndexAt, AddParam;
    var idx := IndexAt(opts, n);
    var later := AddParam(nodes, idx, n);
    assert |later| > 0 by { AddParamGrows(nodes, idx, n); }
    forall k: nat | k < |opts| && opts[k].KeyOpt? ensures exists a :: 0 <= a < |later| && Holds(later[a], k) {
      AddParamFiles(nodes, idx, n, |later| - 1, k);
      if k < n {
        var a :| 0 <= a < |nodes| && Holds(nodes[a], k);
        AddParamFiles(nodes, idx, n, a, k);
      }
    }
    forall a: nat, k: nat {:trigger Holds(later[a], k)} | a < |later| && Holds(later[a], k)
      ensures k < |opts| && opts[k].KeyOpt? && later[a].idx == IndexAt(opts, k)
    {
      AddParamFiles(nodes, idx, n, a, k);
    }
  }

  lemma AddParamGrows(nodes: seq<Node>, idx: int, at: nat)
    ensures |AddParam(nodes, idx, at)| > 0 && |AddParam(nodes, idx, at)| >= |nodes|
  {}

  // ---------------------------------------------------------------- order

  predicate Bounded(nodes: seq<Node>, bound: int) {
    Increasing(nodes) && forall a :: 0 <= a < |nodes| ==> nodes[a].idx <= bound
  }

  lemma AddParamBounded(nodes: seq<Node>, idx: int, at: nat)
    requires Bounded(nodes, idx)
    ensures Bounded(AddParam(nodes, idx, at), idx)
  {}

  lemma {:induction false} RunIncreasing(opts: seq<Opt>)
    requires Run(opts).Some? && Steady(opts)
    ensures Bounded(Run(opts).value.nodes, Pending(Run(opts).value))
    decreases |opts|
  {
    hide AddParam, Run, Bounded;
    if opts == [] {
      RunEmpty();
      assert Bounded([], Pending(START)) by { NoneBounded(Pending(START)); }
    } else {
      var n := |opts| - 1;
      assert opts[..|opts|] == opts;
      RunNext(opts, n);
      var s, t := Run(opts[..n]).value, Run(opts).value;
      SteadyPrefix(opts, n);
      RunIncreasing(opts[..n]);
      RunKeeps(opts, n);
      BoundedWeaken(s.nodes, Pending(s), Pending(t));
      if opts[n].KeyOpt? {
        AddParamBounded(s.nodes, Pending(s), n);
      }
    }
  }

  lemma NoneBounded(bound: int)
    ensures Bounded([], bound)
  {}

  lemma BoundedWeaken(nodes: seq<Node>, low: int, high: int)
    requires Bounded(nodes, low) && low <= high
    ensures Bounded(nodes, high)
  {}

  lemma SteadyPrefix(opts: seq<Opt>, n: nat)
    requires n <= |opts| && Steady(opts)
    ensures Steady(opts[..n])
  {
    hide Run, Agrees;
    forall k | 0 <= k < n && opts[..n][k].KeyOpt? && Run(opts[..n][..k]).Some?
      ensures Agrees(Run(opts[..n][..k]).value)
    {
      assert opts[..n][..k] == opts[..k];
    }
  }

  // ---------------------------------------------------------------- which signer gets a key option

  lemma {:induction false} AppliedIs(nodes: seq<Node>, i: int, k: nat)
    requires k in Applied(nodes, i)
    ensures exists a :: 0 <= a < |nodes| && nodes[a].idx == i && Holds(nodes[a], k)
  {
    if nodes != [] && nodes[0].idx == i {
      assert Holds(nodes[0], k);
    } else if nodes != [] {
      AppliedIs(nodes[1..], i, k);
      var a :| 0 <= a < |nodes[1..]| && nodes[1..][a].idx == i && Holds(nodes[1..][a], k);
      assert nodes[a + 1] == nodes[1..][a];
    }
  }

  lemma {:induction false} AppliedFirst(nodes: seq<Node>, a: nat)
    requires a < |nodes| && Increasing(nodes)
    ensures Applied(nodes, nodes[a].idx) == nodes[a].params
  {
    if a > 0 {
      assert nodes[1..][a - 1] == nodes[a];
      assert Increasing(nodes[1..]);
      AppliedFirst(nodes[1..], a - 1);
    }
  }

  /** A -keyopt goes to one pair only, the one pending when it was read. */
  predicate RightPair(opts: seq<Opt>, nodes: seq<Node>, k: nat)
    requires k < |opts|
  {
    k in Applied(nodes, PendingAt(opts, k))
  }

  lemma FiledOnce(opts: seq<Opt>, nodes: seq<Node>, k: nat, i: int)
    requires Filed(opts, nodes) && k in Applied(nodes, i)
    ensures k < |opts| && opts[k].KeyOpt? && i == IndexAt(opts, k)
  {
    hide IndexAt;
    AppliedIs(nodes, i, k);
  }

  lemma FiledApplied(opts: seq<Opt>, nodes: seq<Node>, k: nat)
    requires Filed(opts, nodes) && Increasing(nodes) && k < |opts| && opts[k].KeyOpt?
    ensures k in Applied(nodes, IndexAt(opts, k))
  {
    hide IndexAt;
    var a :| 0 <= a < |nodes| && Holds(nodes[a], k);
    AppliedFirst(nodes, a);
  }

  lemma SteadyIndex(opts: seq<Opt>, k: nat)
    requires k < |opts| && opts[k].KeyOpt? && Run(opts[..k]).Some?
    ensures IndexAt(opts, k) == PendingAt(opts, k) <==> Agrees(Run(opts[..k]).value)
  {
    hide Run;
  }

  /** For every accepted command line: one key per signer, every -signer in order, and
      each pending signer and key in the pair counted for them. Every -keyopt reaches
      the pair pending when it was read, exactly when no index was counted by
      recipients that differs from the pair's; the indices then strictly increase. */
  lemma SignerPairing(opts: seq<Opt>)
    requires Run(opts).Some? && Close(Run(opts).value).Some?
    ensures var end := Close(Run(opts).value).value;
            && |end.signers| == |end.keys|
            && end.signers == SignerArgs(opts)
            && (Steady(opts) <==> forall k :: 0 <= k < |opts| && opts[k].KeyOpt? ==> RightPair(opts, end.nodes, k))
            && (Steady(opts) ==> Increasing(end.nodes))
  {
    hide Run, Agrees, IndexAt, PendingAt, Applied;
    var s := Run(opts).value;
    RunKeeps(opts, |opts|);
    assert opts[..|opts|] == opts;
    CloseKeeps(s);
    AllSigners(opts);
    RunFiles(opts);
    var end := Close(s).value;
    if Steady(opts) {
      RunIncreasing(opts);
      forall k | 0 <= k < |opts| && opts[k].KeyOpt? ensures RightPair(opts, end.nodes, k) {
        RunKeeps(opts, k);
        SteadyIndex(opts, k);
        FiledApplied(opts, end.nodes, k);
      }
    }
    if forall k :: 0 <= k < |opts| && opts[k].KeyOpt? ==> RightPair(opts, end.nodes, k) {
      forall k | 0 <= k < |opts| && opts[k].KeyOpt? && Run(opts[..k]).Some? ensures Agrees(Run(opts[..k]).value) {
        assert RightPair(opts, end.nodes, k);
        FiledOnce(opts, end.nodes, k, PendingAt(opts, k));
        SteadyIndex(opts, k);
      }
    }
  }

  /** The pair counted as pending is the one its signer and key end up in, and no
      other signer gets the option. */
  lemma PendingPair(opts: seq<Opt>, k: nat)
    requires Run(opts).Some? && Close(Run(opts).value).Some? && k < |opts| && opts[k].KeyOpt? && Steady(opts)
    ensures var end := Close(Run(opts).value).value;
            var p := PendingAt(opts, k);
            && Run(opts[..k]).Some?
            && var s := Run(opts[..k]).value;
            && 0 <= p < |end.signers| == |end.keys|
            && (s.signer.Some? || s.key.Some? ==> p == |s.keys|)
            && (s.signer.Some? ==> end.signers[p] == s.signer.value)
            && (s.key.Some? ==> end.keys[p] == s.key.value)
            && (forall i :: k in Applied(end.nodes, i) <==> i == p)
  {
    hide Run, Agrees, IndexAt, Applied, SignerArgs;
    RunKeeps(opts, k);
    RunKeeps(opts, |opts|);
    assert opts[..|opts|] == opts;
    RunNext(opts, k);
    RunKeeps(opts, k + 1);
    SignerPairing(opts);
    RunFiles(opts);
    var s, t := Run(opts[..k]).value, Run(opts).value;
    CloseKeeps(t);
    var end := Close(t).value;
    SteadyIndex(opts, k);
    IndexAtIs(opts, k);
    assert RightPair(opts, end.nodes, k);
    forall i | k in Applied(end.nodes, i) ensures i == PendingAt(opts, k) {
      FiledOnce(opts, end.nodes, k, i);
    }
  }

  /** A -keyopt read while encrypting, before the command line turns to signing, is
      lost to its signer: the options -encrypt -signer a -recip r -recip r -keyopt o
      -sign are accepted, and pair 0 gets no key option. */
  lemma CountedByRecipients()
    ensures var opts := [SetOperation(Encrypt), Signer("a"), Recipient(true), Recipient(true),
                         KeyOpt("o"), SetOperation(Sign)];
            && Run(opts).Some? && Close(Run(opts).value).Some?
            && PendingAt(opts, 4) == 0 && Applied(Close(Run(opts).value).value.nodes, 0) == []
  {
    hide Run;
    var opts := [SetOperation(Encrypt), Signer("a"), Recipient(true), Recipient(true), KeyOpt("o"), SetOperation(Sign)];
    RunEmpty();
    assert opts[..0] == [];
    RunNext(opts, 0);
    RunNext(opts, 1);
    RunNext(opts, 2);
    RunNext(opts, 3);
    RunNext(opts, 4);
    RunNext(opts, 5);
    assert opts[..6] == opts;
  }
}
