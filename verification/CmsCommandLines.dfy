/** Which command lines the cms command accepts, read off the options alone, and the
    pairs it makes of them. */
module CmsCommandLines {
  import opened Inverses
  import opened CmsSigners

  // ---------------------------------------------------------------- the three errors

  /** The option that the loop stops at. */
  predicate Faulty(s: State, opt: Opt) {
    match opt
    case SetOperation(_) => false
    case Signer(_) => false
    case InKey(_) => s.key.Some? && s.signer == None
    case KeyOpt(_) => KeyIndex(s) < 0
    case Recipient(loads) => s.operation == Encrypt && !loads
  }

  lemma StepRefuses(s: State, opt: Opt, at: nat)
    ensures Step(s, opt, at).None? <==> Faulty(s, opt)
  {}

  /** Reading stops exactly at a -inkey after one that no signer took, a -keyopt without
      a pair or recipient, or a recipient that does not load. */
  lemma {:induction false} RefusedExactly(opts: seq<Opt>)
    ensures Run(opts).None? <==>
            exists k :: 0 <= k < |opts| && Run(opts[..k]).Some? && Faulty(Run(opts[..k]).value, opts[k])
    decreases |opts|
  {
    hide Step, Faulty, Run;
    if opts == [] {
      RunEmpty();
    } else {
      var n := |opts| - 1;
      var init := opts[..n];
      assert opts[..n + 1] == opts;
      RunNext(opts, n);
      RefusedExactly(init);
      if Run(init).Some? {
        StepRefuses(Run(init).value, opts[n], n);
        forall k | 0 <= k < n && Run(opts[..k]).Some?
          ensures !Faulty(Run(opts[..k]).value, opts[k])
        {
          assert init[..k] == opts[..k] && init[k] == opts[k];
        }
      } else {
        var k :| 0 <= k < n && Run(init[..k]).Some? && Faulty(Run(init[..k]).value, init[k]);
        assert init[..k] == opts[..k] && init[k] == opts[k];
      }
    }
  }

  /** After the loop a key without a signer is refused, and so is no signer at all. */
  lemma ClosedExactly(opts: seq<Opt>)
    requires Run(opts).Some?
    ensures var s := Run(opts).value;
            Close(s).None? <==> (s.key.Some? && s.signer == None) || SignerArgs(opts) == []
  {
    AllSigners(opts);
  }

  // ---------------------------------------------------------------- the grammar

  /** The options of one pair. */
  datatype Group =
    | Alone(signer: string)
    | KeyAfter(signer: string, key: string)
    | KeyBefore(key: string, signer: string)

  function Spell(g: Group): seq<Opt> {
    match g
    case Alone(signer) => [Signer(signer)]
    case KeyAfter(signer, key) => [Signer(signer), InKey(key)]
    case KeyBefore(key, signer) => [InKey(key), Signer(signer)]
  }

  function Spelled(groups: seq<Group>): seq<Opt> {
    if groups == [] then [] else
      var n := |groups| - 1;
      Spelled(groups[..n]) + Spell(groups[n])
  }

  /** A key may come before its signer unless the signer before it could take it. */
  predicate Separate(groups: seq<Group>) {
    forall i :: 0 < i < |groups| && groups[i].KeyBefore? ==> !groups[i - 1].Alone?
  }

  function SignersOf(groups: seq<Group>): seq<string> {
    seq(|groups|, i requires 0 <= i < |groups| => groups[i].signer)
  }

  /** A signer without a key signs with its own file. */
  function KeysOf(groups: seq<Group>): seq<string> {
    seq(|groups|, i requires 0 <= i < |groups| => if groups[i].Alone? then groups[i].signer else groups[i].key)
  }

  // ---------------------------------------------------------------- what the options say

  /** The -signer and -inkey options. */
  function Files(opts: seq<Opt>): seq<Opt> {
    if opts == [] then [] else
      var n := |opts| - 1;
      Files(opts[..n]) + (if opts[n].Signer? || opts[n].InKey? then [opts[n]] else [])
  }

  /** The operation chosen last. */
  function LastOperation(opts: seq<Opt>): Operation {
    if opts == [] then Undecided else
      var n := |opts| - 1;
      if opts[n].SetOperation? then opts[n].operation else LastOperation(opts[..n])
  }

  /** The recipients read while encrypting. */
  function Recipients(opts: seq<Opt>): nat {
    if opts == [] then 0 else
      var n := |opts| - 1;
      Recipients(opts[..n]) + (if opts[n].Recipient? && LastOperation(opts[..n]) == Encrypt then 1 else 0)
  }

  /** A recipient read while encrypting loads, and a -keyopt has a recipient or, while
      not encrypting, a -signer or -inkey before it. */
  predicate Sound(before: seq<Opt>, opt: Opt) {
    var encrypting := LastOperation(before) == Encrypt;
    && (opt.Recipient? && encrypting ==> opt.loads)
    && (opt.KeyOpt? ==> if encrypting then Recipients(before) > 0 else Files(before) != [])
  }

  predicate AllSound(opts: seq<Opt>) {
    forall k :: 0 <= k < |opts| ==> Sound(opts[..k], opts[k])
  }

  lemma SoundNext(opts: seq<Opt>, n: nat)
    requires n + 1 == |opts|
    ensures AllSound(opts) <==> AllSound(opts[..n]) && Sound(opts[..n], opts[n])
  {
    hide Sound;
    var init := opts[..n];
    forall k | 0 <= k < n
      ensures init[..k] == opts[..k] && init[k] == opts[k]
    {}
    if AllSound(init) && Sound(init, opts[n]) {
      forall k | 0 <= k < |opts|
        ensures Sound(opts[..k], opts[k])
      {
        if k < n {
          assert Sound(init[..k], init[k]);
        }
      }
    }
  }

  // ---------------------------------------------------------------- parsing

  /** The groups that are closed, and what is open: nothing, a key, or a group that the
      next option may still complete. */
  datatype Open = Nothing | KeyOnly(key: string) | Begun(group: Group)

  datatype Parse = Parse(closed: seq<Group>, open: Open)

  /** The groups once the one that is open is closed. */
  function Shut(p: Parse): seq<Group> {
    if p.open.Begun? then p.closed + [p.open.group] else p.closed
  }

  function ParseStep(p: Parse, opt: Opt): Option<Parse>
    requires opt.Signer? || opt.InKey?
  {
    if opt.Signer? then
      Some(if p.open.KeyOnly? then Parse(p.closed, Begun(KeyBefore(p.open.key, opt.file)))
           else Parse(Shut(p), Begun(Alone(opt.file))))
    else if p.open.KeyOnly? then None
    else if p.open.Begun? && p.open.group.Alone? then
      Some(Parse(p.closed, Begun(KeyAfter(p.open.group.signer, opt.file))))
    else Some(Parse(Shut(p), KeyOnly(opt.file)))
  }

  function Parsing(files: seq<Opt>): Option<Parse>
    requires forall o <- files :: o.Signer? || o.InKey?
  {
    if files == [] then Some(Parse([], Nothing)) else
      var n := |files| - 1;
      var before := Parsing(files[..n]);
      if before == None then None else ParseStep(before.value, files[n])
  }

  lemma {:induction false} FilesOnly(opts: seq<Opt>)
    ensures forall o <- Files(opts) :: o.Signer? || o.InKey?
  {
    if opts != [] {
      FilesOnly(opts[..|opts| - 1]);
    }
  }

  /** The state of the loop seen as a parse. */
  predicate Matches(p: Parse, s: State) {
    && s.signers == SignersOf(p.closed) && s.keys == KeysOf(p.closed)
    && (p.open.Nothing? ==> p.closed == [])
    && s.signer == (if p.open.Begun? then Some(p.open.group.signer) else None)
    && s.key == match p.open
                case Nothing => None
                case KeyOnly(key) => Some(key)
                case Begun(g) => if g.Alone? then None else Some(g.key)
  }

  lemma ParseStepMatches(p: Parse, s: State, opt: Opt, at: nat)
    requires Matches(p, s) && (opt.Signer? || opt.InKey?)
    ensures Step(s, opt, at).Some? <==> ParseStep(p, opt).Some?
    ensures Step(s, opt, at).Some? ==>
              && Matches(ParseStep(p, opt).value, Step(s, opt, at).value)
              && Step(s, opt, at).value.operation == s.operation
              && Step(s, opt, at).value.recipients == s.recipients
  {
    if p.open.Begun? {
      assert SignersOf(p.closed + [p.open.group]) == SignersOf(p.closed) + [p.open.group.signer];
      var g := p.open.group;
      assert KeysOf(p.closed + [g]) == KeysOf(p.closed) + [if g.Alone? then g.signer else g.key];
    }
  }

  lemma ParsingNext(files: seq<Opt>, opt: Opt)
    requires (forall o <- files :: o.Signer? || o.InKey?) && (opt.Signer? || opt.InKey?)
    ensures Parsing(files + [opt]) ==
            if Parsing(files) == None then None else ParseStep(Parsing(files).value, opt)
  {
    hide ParseStep;
    assert (files + [opt])[..|files|] == files;
  }

  lemma {:induction false} ParsedNothing(files: seq<Opt>)
    requires (forall o <- files :: o.Signer? || o.InKey?) && Parsing(files).Some?
    ensures Parsing(files).value.open.Nothing? <==> files == []
  {}

  /** The loop follows the parser and the two conditions. */
  ghost predicate Follows(opts: seq<Opt>)
    requires forall o <- Files(opts) :: o.Signer? || o.InKey?
  {
    && (Run(opts).Some? <==> Parsing(Files(opts)).Some? && AllSound(opts))
    && (Run(opts).Some? ==>
          && Matches(Parsing(Files(opts)).value, Run(opts).value)
          && Run(opts).value.operation == LastOperation(opts)
          && Run(opts).value.recipients == Recipients(opts))
  }

  lemma {:induction false} RunFollows(opts: seq<Opt>)
    ensures forall o <- Files(opts) :: o.Signer? || o.InKey?
    ensures Follows(opts)
    decreases |opts|
  {
    FilesOnly(opts);
    if opts == [] {
      assert Parsing([]) == Some(Parse([], Nothing));
    } else {
      var n := |opts| - 1;
      RunFollows(opts[..n]);
      assert opts[..n + 1] == opts;
      RunNext(opts, n);
      SoundNext(opts, n);
      if opts[n].Signer? || opts[n].InKey? {
        FollowsFile(opts, n);
      } else {
        FollowsOther(opts, n);
      }
    }
  }

  lemma FollowsFile(opts: seq<Opt>, n: nat)
    requires n + 1 == |opts| && (opts[n].Signer? || opts[n].InKey?)
    requires (forall o <- Files(opts[..n]) :: o.Signer? || o.InKey?) && Follows(opts[..n])
    requires forall o <- Files(opts) :: o.Signer? || o.InKey?
    requires Run(opts) == if Run(opts[..n]) == None then None else Step(Run(opts[..n]).value, opts[n], n)
    requires AllSound(opts) <==> AllSound(opts[..n]) && Sound(opts[..n], opts[n])
    ensures Follows(opts)
  {
    var init, opt := opts[..n], opts[n];
    var files := Files(init);
    assert Files(opts) == files + [opt] && LastOperation(opts) == LastOperation(init);
    assert Recipients(opts) == Recipients(init) && Sound(init, opt);
    hide Run, Step, AllSound, Parsing, ParseStep, Files, LastOperation, Recipients, Sound, Matches;
    ParsingNext(files, opt);
    if Run(init).Some? {
      ParseStepMatches(Parsing(files).value, Run(init).value, opt, n);
    }
  }

  lemma FollowsOther(opts: seq<Opt>, n: nat)
    requires n + 1 == |opts| && !opts[n].Signer? && !opts[n].InKey?
    requires (forall o <- Files(opts[..n]) :: o.Signer? || o.InKey?) && Follows(opts[..n])
    requires forall o <- Files(opts) :: o.Signer? || o.InKey?
    requires Run(opts) == if Run(opts[..n]) == None then None else Step(Run(opts[..n]).value, opts[n], n)
    requires AllSound(opts) <==> AllSound(opts[..n]) && Sound(opts[..n], opts[n])
    ensures Follows(opts)
  {
    hide Run, AllSound, Parsing, AddParam;
    var files := Files(opts[..n]);
    assert Files(opts) == files + [] == files;
    if Run(opts[..n]).Some? {
      ParsedNothing(files);
    }
  }

  // ---------------------------------------------------------------- parses and groups

  predicate Apart(p: Parse) {
    && Separate(p.closed)
    && (p.open.Nothing? ==> p.closed == [])
    && (p.open.KeyOnly? && p.closed != [] ==> !p.closed[|p.closed| - 1].Alone?)
    && (p.open.Begun? ==> Separate(p.closed + [p.open.group]))
  }

  function OpenSpelled(open: Open): seq<Opt> {
    match open
    case Nothing => []
    case KeyOnly(key) => [InKey(key)]
    case Begun(group) => Spell(group)
  }

  lemma SpelledNext(groups: seq<Group>, g: Group)
    ensures Spelled(groups + [g]) == Spelled(groups) + Spell(g)
  {
    assert (groups + [g])[..|groups|] == groups;
  }

  lemma SeparateNext(groups: seq<Group>, g: Group)
    requires Separate(groups) && (g.KeyBefore? && groups != [] ==> !groups[|groups| - 1].Alone?)
    ensures Separate(groups + [g])
  {}

  lemma ParseStepSpells(p: Parse, opt: Opt)
    requires Apart(p) && (opt.Signer? || opt.InKey?) && ParseStep(p, opt).Some?
    ensures var q := ParseStep(p, opt).value;
            Apart(q) && Spelled(q.closed) + OpenSpelled(q.open) == Spelled(p.closed) + OpenSpelled(p.open) + [opt]
  {
    hide Spelled;
    var q := ParseStep(p, opt).value;
    if p.open.Begun? {
      SpelledNext(p.closed, p.open.group);
    }
    if q.open.Begun? {
      SeparateNext(q.closed, q.open.group);
    }
    var done := Spelled(p.closed);
    if opt.Signer? && p.open.KeyOnly? {
      assert done + [InKey(p.open.key), opt] == done + [InKey(p.open.key)] + [opt];
    } else if opt.InKey? && p.open.Begun? && p.open.group.Alone? {
      assert done + [Signer(p.open.group.signer), opt] == done + [Signer(p.open.group.signer)] + [opt];
    } else if p.open.Nothing? {
      assert done + [] == done;
    }
  }

  /** What the parser reads, it can spell. */
  lemma {:induction false} ParsingSpells(files: seq<Opt>)
    requires (forall o <- files :: o.Signer? || o.InKey?) && Parsing(files).Some?
    ensures var p := Parsing(files).value;
            Apart(p) && files == Spelled(p.closed) + OpenSpelled(p.open)
    decreases |files|
  {
    if files == [] {
      assert Spelled([]) == [];
    } else {
      hide Apart, Spelled, OpenSpelled, ParseStep;
      var n := |files| - 1;
      assert files == files[..n] + [files[n]];
      ParsingSpells(files[..n]);
      ParseStepSpells(Parsing(files[..n]).value, files[n]);
    }
  }

  /** What is spelled, the parser reads. */
  lemma {:induction false} SpelledParses(groups: seq<Group>)
    requires Separate(groups) && groups != []
    ensures forall o <- Spelled(groups) :: o.Signer? || o.InKey?
    ensures Parsing(Spelled(groups)) == Some(Parse(groups[..|groups| - 1], Begun(groups[|groups| - 1])))
    decreases |groups|
  {
    var n := |groups| - 1;
    var init, g := groups[..n], groups[n];
    assert groups == init + [g];
    SpelledNext(init, g);
    if init == [] {
      assert Spelled(init) == [] && Parsing([]) == Some(Parse([], Nothing));
    } else {
      SpelledParses(init);
      assert init[..n - 1] + [init[n - 1]] == init;
    }
    hide Spelled, Parsing;
    GroupParses(Spelled(init), g);
  }

  lemma GroupParses(files: seq<Opt>, g: Group)
    requires (forall o <- files :: o.Signer? || o.InKey?) && Parsing(files).Some?
    requires !Parsing(files).value.open.KeyOnly?
    requires g.KeyBefore? && Parsing(files).value.open.Begun? ==> !Parsing(files).value.open.group.Alone?
    ensures forall o <- files + Spell(g) :: o.Signer? || o.InKey?
    ensures Parsing(files + Spell(g)) == Some(Parse(Shut(Parsing(files).value), Begun(g)))
  {
    hide Parsing;
    match g {
      case Alone(signer) =>
        ParsingNext(files, Signer(signer));
      case KeyAfter(signer, key) =>
        ParsingNext(files, Signer(signer));
        ParsingNext(files + [Signer(signer)], InKey(key));
        assert files + Spell(g) == files + [Signer(signer)] + [InKey(key)];
      case KeyBefore(key, signer) =>
        ParsingNext(files, InKey(key));
        ParsingNext(files + [InKey(key)], Signer(signer));
        assert files + Spell(g) == files + [InKey(key)] + [Signer(signer)];
    }
  }

  // ---------------------------------------------------------------- the theorem

  predicate Accepted(opts: seq<Opt>) {
    Run(opts).Some? && Close(Run(opts).value).Some?
  }

  /** The -signer and -inkey options fall into pairs. */
  predicate Spells(opts: seq<Opt>, groups: seq<Group>) {
    groups != [] && Separate(groups) && Files(opts) == Spelled(groups)
  }

  /** A command line whose options fall into pairs is accepted when its recipients and
      key options are sound, and then signs with exactly those pairs. */
  lemma PairsAccepted(opts: seq<Opt>, groups: seq<Group>)
    requires Spells(opts, groups)
    ensures Accepted(opts) <==> AllSound(opts)
    ensures AllSound(opts) ==>
              var end := Close(Run(opts).value).value;
              end.signers == SignersOf(groups) && end.keys == KeysOf(groups)
  {
    RunFollows(opts);
    SpelledParses(groups);
    hide Run, Parsing, AllSound, Separate, Spelled, Files;
    if AllSound(opts) {
      CloseMatches(groups, Run(opts).value);
    }
  }

  lemma CloseMatches(groups: seq<Group>, s: State)
    requires groups != []
    requires Matches(Parse(groups[..|groups| - 1], Begun(groups[|groups| - 1])), s)
    ensures Close(s).Some?
    ensures Close(s).value.signers == SignersOf(groups) && Close(s).value.keys == KeysOf(groups)
  {
    var n := |groups| - 1;
    assert SignersOf(groups) == SignersOf(groups[..n]) + [groups[n].signer];
    assert KeysOf(groups) ==
           KeysOf(groups[..n]) + [if groups[n].Alone? then groups[n].signer else groups[n].key];
  }

  /** Exactly the command lines that are accepted. */
  lemma AcceptedExactly(opts: seq<Opt>)
    ensures Accepted(opts) <==> AllSound(opts) && exists groups :: Spells(opts, groups)
  {
    RunFollows(opts);
    hide Run, AllSound;
    if Accepted(opts) {
      var p := Parsing(Files(opts)).value;
      ParsingSpells(Files(opts));
      assert p.open.Begun?;
      var groups := p.closed + [p.open.group];
      SpelledNext(p.closed, p.open.group);
      assert Spells(opts, groups);
    } else if groups :| Spells(opts, groups) {
      PairsAccepted(opts, groups);
    }
  }

  lemma {:induction false} FilesAll(opts: seq<Opt>)
    requires forall o <- opts :: o.Signer? || o.InKey?
    ensures Files(opts) == opts
    decreases |opts|
  {
    if opts != [] {
      var n := |opts| - 1;
      FilesAll(opts[..n]);
      assert opts == opts[..n] + [opts[n]];
    }
  }

  /** In particular every -signer may be followed by one -inkey or by none. */
  lemma SignersWithKeys(groups: seq<Group>)
    requires groups != [] && forall g <- groups :: !g.KeyBefore?
    ensures Accepted(Spelled(groups))
    ensures var end := Close(Run(Spelled(groups)).value).value;
            end.signers == SignersOf(groups) && end.keys == KeysOf(groups)
  {
    hide Run, Files, Close, Spelled, Parsing;
    SpelledParses(groups);
    FilesAll(Spelled(groups));
    forall k | 0 <= k < |Spelled(groups)|
      ensures Sound(Spelled(groups)[..k], Spelled(groups)[k])
    {
      var o := Spelled(groups)[k];
      assert o in Spelled(groups);
    }
    PairsAccepted(Spelled(groups), groups);
  }
}
