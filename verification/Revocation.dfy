/** The revocation field of a database row, "time[,reason[,argument]]": how it is
    made and how it is taken apart again. */
module Revocation {
  import opened Inverses

  /** The time and object identifier parsers of the library. */
  datatype Library = Library(
    time: string -> bool,
    utcTime: string -> bool,
    generalizedTime: string -> bool,
    oid: string -> Option<int>)

  datatype RevType = NoReason | AddValid | CrlReason | Hold | KeyCompromise | CaCompromise

  /** The revocation time, the CRL reason code or -1, the hold instruction and the
      invalidity date. */
  datatype RevInfo = RevInfo(time: string, reason: int, hold: Option<int>, invalidity: Option<string>)

  const CRL_REASONS: seq<string> := [
    "unspecified", "keyCompromise", "CACompromise", "affiliationChanged", "superseded",
    "cessationOfOperation", "certificateHold", "removeFromCRL",
    "holdInstruction", "keyTime", "CAkeyTime"]

  function Lower(c: char): char {
    if 'A' <= c <= 'Z' then (c as int + 32) as char else c
  }

  predicate SameIgnoringCase(a: string, b: string) {
    |a| == |b| && forall i :: 0 <= i < |a| ==> Lower(a[i]) == Lower(b[i])
  }

  /** The first of the reasons from `i` up to `count` that the text names. */
  function FirstReason(text: string, i: nat, count: nat): (r: Option<nat>)
    requires count <= 11
    ensures r.Some? ==> r.value < count
    decreases count - i
  {
    if i >= count then None
    else if SameIgnoringCase(text, CRL_REASONS[i]) then Some(i)
    else FirstReason(text, i + 1, count)
  }

  method FindReason(text: string, count: nat) returns (reason: Option<nat>)
    requires count <= 11
    ensures reason == FirstReason(text, 0, count)
  {
    hide SameIgnoringCase;
    for i := 0 to count
      invariant FirstReason(text, i, count) == FirstReason(text, 0, count)
    {
      if SameIgnoringCase(text, CRL_REASONS[i]) {
        return Some(i);
      }
    }
    return None;
  }

  // ---------------------------------------------------------------- making

  predicate Acceptable(lib: Library, kind: RevType, arg: string) {
    match kind
    case NoReason => true
    case AddValid => true
    case CrlReason => FirstReason(arg, 0, 8).Some?
    case Hold => lib.oid(arg).Some?
    case KeyCompromise => lib.generalizedTime(arg)
    case CaCompromise => lib.generalizedTime(arg)
  }

  function MakeRevocation(lib: Library, kind: RevType, arg: string, now: string): Option<string> {
    if !Acceptable(lib, kind, arg) then None else
      match kind
      case NoReason => Some(now)
      case AddValid => Some(now)
      case CrlReason => Some(now + "," + CRL_REASONS[FirstReason(arg, 0, 8).value])
      case Hold => Some(now + "," + CRL_REASONS[8] + "," + arg)
      case KeyCompromise => Some(now + "," + CRL_REASONS[9] + "," + arg)
      case CaCompromise => Some(now + "," + CRL_REASONS[10] + "," + arg)
  }

  method MakeRevocationString(lib: Library, kind: RevType, arg: string, now: string) returns (str: Option<string>)
    ensures str == MakeRevocation(lib, kind, arg, now)
  {
    hide FirstReason;
    var reason: Option<string>, other: Option<string> := None, None;
    match kind {
      case NoReason =>
      case AddValid =>
      case CrlReason =>
        var i := FindReason(arg, 8);
        if i == None {
          return None;
        }
        reason := Some(CRL_REASONS[i.value]);
      case Hold =>
        if lib.oid(arg) == None {
          return None;
        }
        reason, other := Some("holdInstruction"), Some(arg);
      case _ =>
        if !lib.generalizedTime(arg) {
          return None;
        }
        other := Some(arg);
        reason := Some(if kind == KeyCompromise then "keyTime" else "CAkeyTime");
    }
    var text := now;
    if reason.Some? {
      text := text + "," + reason.value;
    }
    if other.Some? {
      text := text + "," + other.value;
    }
    return Some(text);
  }

  // ---------------------------------------------------------------- taking apart

  function Comma(s: string): (n: nat)
    ensures n <= |s| && (n < |s| ==> s[n] == ',')
  {
    if s == "" || s[0] == ',' then 0 else 1 + Comma(s[1..])
  }

  /** Cut at the first two commas; further commas belong to the argument. */
  function Parts(s: string): (string, Option<string>, Option<string>) {
    var n := Comma(s);
    if n == |s| then (s, None, None) else
      var rest := s[n + 1..];
      var m := Comma(rest);
      if m == |rest| then (s[..n], Some(rest), None)
      else (s[..n], Some(rest[..m]), Some(rest[m + 1..]))
  }

  function Unpack(lib: Library, s: string): Option<RevInfo> {
    var (time, reason, arg) := Parts(s);
    if !lib.utcTime(time) then None
    else if reason == None then Some(RevInfo(time, -1, None, None))
    else
      match FirstReason(reason.value, 0, 11)
      case None => None
      case Some(i) =>
        if i < 7 then Some(RevInfo(time, i, None, None))
        else if i == 7 then Some(RevInfo(time, 8, None, None))
        else if arg == None then None
        else if i == 8 then
          if lib.oid(arg.value) == None then None
          else Some(RevInfo(time, 6, lib.oid(arg.value), None))
        else if !lib.generalizedTime(arg.value) then None
        else Some(RevInfo(time, if i == 9 then 1 else 2, None, Some(arg.value)))
  }

  method UnpackRevocation(lib: Library, s: string) returns (info: Option<RevInfo>)
    ensures info == Unpack(lib, s)
  {
    hide FirstReason;
    var (time, reason, arg) := Parts(s);
    var code: int, hold: Option<int>, invalidity: Option<string> := -1, None, None;
    if !lib.utcTime(time) {
      return None;
    }
    if reason.Some? {
      var i := FindReason(reason.value, 11);
      if i == None {
        return None;
      }
      code := i.value;
      if code == 7 {
        code := 8;
      } else if code == 8 {
        if arg == None {
          return None;
        }
        code := 6;
        hold := lib.oid(arg.value);
        if hold == None {
          return None;
        }
      } else if code == 9 || code == 10 {
        if arg == None || !lib.generalizedTime(arg.value) {
          return None;
        }
        invalidity := Some(arg.value);
        code := if code == 9 then 1 else 2;
      }
    }
    return Some(RevInfo(time, code, hold, invalidity));
  }

  // ---------------------------------------------------------------- round trip

  /** The reason codes of section 5.3.1 of RFC 5280 by name. */
  function ReasonCode(name: string): Option<nat> {
    if SameIgnoringCase(name, "unspecified") then Some(0)
    else if SameIgnoringCase(name, "keyCompromise") then Some(1)
    else if SameIgnoringCase(name, "CACompromise") then Some(2)
    else if SameIgnoringCase(name, "affiliationChanged") then Some(3)
    else if SameIgnoringCase(name, "superseded") then Some(4)
    else if SameIgnoringCase(name, "cessationOfOperation") then Some(5)
    else if SameIgnoringCase(name, "certificateHold") then Some(6)
    else if SameIgnoringCase(name, "removeFromCRL") then Some(8)
    else None
  }

  /** What a revocation request means. */
  function Meaning(lib: Library, kind: RevType, arg: string, now: string): Option<RevInfo> {
    match kind
    case NoReason => Some(RevInfo(now, -1, None, None))
    case AddValid => Some(RevInfo(now, -1, None, None))
    case CrlReason =>
      if ReasonCode(arg).Some? then Some(RevInfo(now, ReasonCode(arg).value, None, None)) else None
    case Hold => if lib.oid(arg).Some? then Some(RevInfo(now, 6, lib.oid(arg), None)) else None
    case KeyCompromise => if lib.generalizedTime(arg) then Some(RevInfo(now, 1, None, Some(arg))) else None
    case CaCompromise => if lib.generalizedTime(arg) then Some(RevInfo(now, 2, None, Some(arg))) else None
  }

  lemma {:induction false} FirstReasonIs(text: string, i: nat, count: nat)
    requires count <= 11
    ensures var r := FirstReason(text, i, count);
            && (r.Some? ==> i <= r.value < count && SameIgnoringCase(text, CRL_REASONS[r.value]))
            && (forall j :: i <= j < (if r.Some? then r.value else count) ==> !SameIgnoringCase(text, CRL_REASONS[j]))
    decreases count - i
  {
    hide SameIgnoringCase;
    if i < count {
      FirstReasonIs(text, i + 1, count);
    }
  }

  lemma ReasonsDiffer(i: nat, j: nat)
    requires i < 11 && j < 11 && SameIgnoringCase(CRL_REASONS[i], CRL_REASONS[j])
    ensures i == j
  {
    assert Lower("keyCompromise"[0]) != Lower("removeFromCRL"[0]);
    assert Lower("certificateHold"[0]) != Lower("holdInstruction"[0]);
  }

  lemma ReasonFound(i: nat)
    requires i < 11
    ensures FirstReason(CRL_REASONS[i], 0, 11) == Some(i)
  {
    FirstReasonIs(CRL_REASONS[i], 0, 11);
    var r := FirstReason(CRL_REASONS[i], 0, 11);
    hide FirstReason;
    if r.Some? {
      ReasonsDiffer(i, r.value);
    }
  }

  lemma ReasonNames()
    ensures |CRL_REASONS| == 11
    ensures CRL_REASONS[0] == "unspecified" && CRL_REASONS[1] == "keyCompromise"
    ensures CRL_REASONS[2] == "CACompromise" && CRL_REASONS[3] == "affiliationChanged"
    ensures CRL_REASONS[4] == "superseded" && CRL_REASONS[5] == "cessationOfOperation"
    ensures CRL_REASONS[6] == "certificateHold" && CRL_REASONS[7] == "removeFromCRL"
  {}

  lemma ReasonCodeIs(arg: string)
    ensures var r := FirstReason(arg, 0, 8);
            ReasonCode(arg) == if r == None then None else Some(if r.value == 7 then 8 else r.value)
  {
    hide SameIgnoringCase, FirstReason, CRL_REASONS;
    FirstReasonIs(arg, 0, 8);
    ReasonNames();
  }

  lemma ReasonComma(i: nat)
    requires i < 11
    ensures ',' !in CRL_REASONS[i]
  {}

  lemma {:induction false} CommaAt(s: string, rest: string)
    requires ',' !in s
    ensures Comma(s) == |s|
    ensures Comma(s + "," + rest) == |s|
  {
    var t := s + "," + rest;
    if s != "" {
      CommaAt(s[1..], rest);
      assert t[1..] == s[1..] + "," + rest;
    }
  }

  lemma OnePart(s: string)
    requires ',' !in s
    ensures Parts(s) == (s, None, None)
  {
    CommaAt(s, "");
  }

  lemma TwoParts(s: string, r: string)
    requires ',' !in s && ',' !in r
    ensures Parts(s + "," + r) == (s, Some(r), None)
  {
    hide Comma;
    CommaAt(s, r);
    CommaAt(r, "");
    assert (s + "," + r)[..|s|] == s && (s + "," + r)[|s| + 1..] == r;
  }

  lemma ThreeParts(s: string, r: string, arg: string)
    requires ',' !in s && ',' !in r
    ensures Parts(s + "," + r + "," + arg) == (s, Some(r), Some(arg))
  {
    hide Comma;
    var rest := r + "," + arg;
    assert s + "," + r + "," + arg == s + "," + rest;
    CommaAt(s, rest);
    CommaAt(r, arg);
    assert (s + "," + rest)[..|s|] == s && (s + "," + rest)[|s| + 1..] == rest;
    assert rest[..|r|] == r && rest[|r| + 1..] == arg;
  }

  /** A request is turned into a field exactly when it means something, and the
      field is taken apart into that meaning exactly when the time it was made at is
      a UTC time. */
  lemma RoundTrip(lib: Library, kind: RevType, arg: string, now: string)
    requires ',' !in now
    ensures MakeRevocation(lib, kind, arg, now).Some? <==> Meaning(lib, kind, arg, now).Some?
    ensures var made := MakeRevocation(lib, kind, arg, now);
            made.Some? ==> Unpack(lib, made.value) == if lib.utcTime(now) then Meaning(lib, kind, arg, now) else None
  {
    hide FirstReason, CRL_REASONS, Parts, ReasonCode;
    ReasonNames();
    match kind {
      case NoReason => OnePart(now);
      case AddValid => OnePart(now);
      case CrlReason =>
        ReasonCodeIs(arg);
        FirstReasonIs(arg, 0, 8);
        if FirstReason(arg, 0, 8).Some? {
          var i := FirstReason(arg, 0, 8).value;
          ReasonComma(i);
          ReasonFound(i);
          TwoParts(now, CRL_REASONS[i]);
        }
      case Hold =>
        ReasonComma(8);
        ReasonFound(8);
        ThreeParts(now, CRL_REASONS[8], arg);
      case KeyCompromise =>
        ReasonComma(9);
        ReasonFound(9);
        ThreeParts(now, CRL_REASONS[9], arg);
      case CaCompromise =>
        ReasonComma(10);
        ReasonFound(10);
        ThreeParts(now, CRL_REASONS[10], arg);
    }
  }

  // ---------------------------------------------------------------- letter case

  /** The same characters, or the two cases of one letter. */
  predicate SameLetter(a: char, b: char) {
    || a == b
    || ('A' <= a <= 'Z' && b as int == a as int + 32)
    || ('A' <= b <= 'Z' && a as int == b as int + 32)
  }

  lemma LowerIdentifies(a: char, b: char)
    ensures Lower(a) == Lower(b) <==> SameLetter(a, b)
  {}

  /** Changing the case of letters does not change which reason a text names. */
  lemma {:induction false} CaseIgnored(text: string, other: string, i: nat, count: nat)
    requires |text| == |other| && forall k :: 0 <= k < |text| ==> SameLetter(text[k], other[k])
    requires count <= 11
    ensures FirstReason(text, i, count) == FirstReason(other, i, count)
    decreases count - i
  {
    forall k | 0 <= k < |text|
      ensures Lower(text[k]) == Lower(other[k])
    {
      LowerIdentifies(text[k], other[k]);
    }
    hide Lower;
    if i < count {
      CaseIgnored(text, other, i + 1, count);
    }
  }

  // ---------------------------------------------------------------- any field

  function Joined(time: string, reason: Option<string>, arg: Option<string>): string {
    if reason == None then time
    else if arg == None then time + "," + reason.value
    else time + "," + reason.value + "," + arg.value
  }

  /** The parts are put together again by commas. */
  lemma PartsJoin(s: string)
    ensures var (time, reason, arg) := Parts(s);
            && s == Joined(time, reason, arg) && ',' !in time
            && (reason.Some? ==> ',' !in reason.value) && (arg.Some? ==> reason.Some?)
  {
    hide Comma;
    CutAt(s);
    if Comma(s) < |s| {
      var time, rest := s[..Comma(s)], s[Comma(s) + 1..];
      CutAt(rest);
      assert rest[..|rest|] == rest;
      if Comma(rest) < |rest| {
        Reassociate(time, rest[..Comma(rest)], rest[Comma(rest) + 1..]);
      }
    } else {
      assert s[..|s|] == s;
    }
  }

  lemma Reassociate(a: string, b: string, c: string)
    ensures a + "," + (b + "," + c) == a + "," + b + "," + c
  {}

  lemma CutAt(s: string)
    ensures ',' !in s[..Comma(s)]
    ensures Comma(s) < |s| ==> s == s[..Comma(s)] + "," + s[Comma(s) + 1..]
    ensures Comma(s) == |s| ==> ',' !in s
  {
    NoCommaBefore(s);
    assert s[..|s|] == s;
    hide Comma;
  }

  lemma {:induction false} NoCommaBefore(s: string)
    ensures ',' !in s[..Comma(s)]
  {
    var n := Comma(s);
    if n > 0 {
      NoCommaBefore(s[1..]);
      assert s[..n] == [s[0]] + s[1..][..n - 1];
    }
  }

  /** What a field means, whoever wrote it: the reasons are read by name, in any case,
      and what follows a reason that takes no argument is ignored. */
  function FieldMeaning(lib: Library, time: string, reason: Option<string>, arg: Option<string>): Option<RevInfo> {
    if !lib.utcTime(time) then None
    else if reason == None then Some(RevInfo(time, -1, None, None))
    else if ReasonCode(reason.value).Some? then Some(RevInfo(time, ReasonCode(reason.value).value, None, None))
    else if arg == None then None
    else if SameIgnoringCase(reason.value, "holdInstruction") && lib.oid(arg.value).Some? then
      Some(RevInfo(time, 6, lib.oid(arg.value), None))
    else if SameIgnoringCase(reason.value, "keyTime") && lib.generalizedTime(arg.value) then
      Some(RevInfo(time, 1, None, arg))
    else if SameIgnoringCase(reason.value, "CAkeyTime") && lib.generalizedTime(arg.value) then
      Some(RevInfo(time, 2, None, arg))
    else None
  }

  lemma LastReasons()
    ensures CRL_REASONS[8] == "holdInstruction" && CRL_REASONS[9] == "keyTime" && CRL_REASONS[10] == "CAkeyTime"
  {}

  lemma {:induction false} MoreReasons(text: string, i: nat, low: nat, high: nat)
    requires i <= low <= high <= 11
    ensures FirstReason(text, i, high) ==
            if FirstReason(text, i, low).Some? then FirstReason(text, i, low) else FirstReason(text, low, high)
    decreases low - i
  {
    hide SameIgnoringCase, CRL_REASONS;
    if i < low {
      MoreReasons(text, i + 1, low, high);
    }
  }

  lemma ReasonsApart(text: string, i: nat, j: nat)
    requires i < j < 11
    ensures !(SameIgnoringCase(text, CRL_REASONS[i]) && SameIgnoringCase(text, CRL_REASONS[j]))
  {
    hide Lower, CRL_REASONS;
    ReasonNames();
    if SameIgnoringCase(text, CRL_REASONS[i]) && SameIgnoringCase(text, CRL_REASONS[j]) {
      assert SameIgnoringCase(CRL_REASONS[i], CRL_REASONS[j]);
      ReasonsDiffer(i, j);
    }
  }

  /** Every field, parsable or not, is taken apart into its meaning. */
  lemma UnpackAny(lib: Library, s: string)
    ensures var (time, reason, arg) := Parts(s);
            Unpack(lib, s) == FieldMeaning(lib, time, reason, arg)
  {
    hide SameIgnoringCase, FirstReason, CRL_REASONS, Parts, ReasonCode;
    var (time, reason, arg) := Parts(s);
    if reason.Some? {
      var text := reason.value;
      ReasonCodeIs(text);
      MoreReasons(text, 0, 8, 11);
      FirstReasonIs(text, 8, 11);
      LastReasons();
      ReasonsApart(text, 8, 9);
      ReasonsApart(text, 8, 10);
      ReasonsApart(text, 9, 10);
    }
  }
}
