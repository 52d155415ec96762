/** The CA policy: which entries of the requested name reach the subject. */
module CaPolicy {
  import opened Inverses

  /** A name entry: its object and its ASN.1 string, type and contents. */
  datatype NameEntry = NameEntry(obj: int, kind: int, data: seq<int>)

  type Name = seq<NameEntry>

  datatype Rule = Rule(objectName: string, mode: string)

  /** Scans for the next entry of a type after position `last`. */
  method NextIndex(name: Name, obj: int, last: int) returns (j: int)
    requires -1 <= last < |name|
    ensures j == -1 || last < j < |name|
    ensures j >= 0 ==> name[j].obj == obj
    ensures forall i :: last < i < (if j >= 0 then j else |name|) ==> name[i].obj != obj
  {
    j := last + 1;
    while j < |name|
      invariant last < j <= |name|
      invariant forall i :: last < i < j ==> name[i].obj != obj
    {
      if name[j].obj == obj {
        return;
      }
      j := j + 1;
    }
    j := -1;
  }

  // ---------------------------------------------------------------- specification

  /** The entries of a type, or all the others. */
  function Select(name: Name, obj: int, same: bool): Name {
    if name == [] then []
    else if (name[0].obj == obj) == same then [name[0]] + Select(name[1..], obj, same)
    else Select(name[1..], obj, same)
  }

  function OfType(name: Name, obj: int): Name {
    Select(name, obj, true)
  }

  function Without(name: Name, obj: int): Name {
    Select(name, obj, false)
  }

  predicate Occurs(name: Name, obj: int) {
    exists e <- name :: e.obj == obj
  }

  predicate Satisfied(rule: Rule, name: Name, ca: Name, nid: string -> Option<int>) {
    && nid(rule.objectName).Some?
    && var obj := nid(rule.objectName).value;
    && rule.mode in {"optional", "supplied", "match"}
    && (rule.mode in {"supplied", "match"} ==> Occurs(name, obj))
    && (rule.mode == "match" ==> forall e <- name :: e.obj == obj ==> e in ca)
  }

  function Entries(rule: Rule, name: Name, nid: string -> Option<int>): Name {
    var obj := nid(rule.objectName);
    if obj.Some? then OfType(name, obj.value) else []
  }

  /** In policy order, all the request's entries of each named type. */
  function Selected(policy: seq<Rule>, name: Name, nid: string -> Option<int>): Name {
    if policy == [] then [] else Entries(policy[0], name, nid) + Selected(policy[1..], name, nid)
  }

  lemma SelectedNext(policy: seq<Rule>, i: nat, name: Name, nid: string -> Option<int>)
    requires i < |policy|
    ensures Selected(policy[i..], name, nid) == Entries(policy[i], name, nid) + Selected(policy[i + 1..], name, nid)
  {
    hide Entries;
    assert policy[i..][1..] == policy[i + 1..];
  }

  function Picked(e: NameEntry, obj: int, same: bool): Name {
    if (e.obj == obj) == same then [e] else []
  }

  lemma SelectHead(a: Name, obj: int, same: bool)
    requires a != []
    ensures Select(a, obj, same) == Picked(a[0], obj, same) + Select(a[1..], obj, same)
  {}

  lemma SelectNone(obj: int, same: bool)
    ensures Select([], obj, same) == []
  {}

  lemma Associates(a: Name, b: Name, c: Name)
    ensures a + b + c == a + (b + c)
  {}

  lemma {:induction false} SelectAppend(a: Name, b: Name, obj: int, same: bool)
    ensures Select(a + b, obj, same) == Select(a, obj, same) + Select(b, obj, same)
  {
    hide *;
    if a == [] {
      SelectNone(obj, same);
      assert a + b == b && [] + Select(b, obj, same) == Select(b, obj, same);
    } else {
      var whole := a + b;
      assert whole[1..] == a[1..] + b && whole[0] == a[0];
      SelectHead(whole, obj, same);
      SelectHead(a, obj, same);
      SelectAppend(a[1..], b, obj, same);
      Associates(Picked(a[0], obj, same), Select(a[1..], obj, same), Select(b, obj, same));
    }
  }

  lemma {:induction false} SelectOther(a: Name, obj: int)
    requires forall i :: 0 <= i < |a| ==> a[i].obj != obj
    ensures OfType(a, obj) == [] && Without(a, obj) == a
  {
    if a != [] {
      SelectOther(a[1..], obj);
      assert a == [a[0]] + a[1..];
    }
  }

  lemma SelectOne(e: NameEntry, obj: int)
    requires e.obj == obj
    ensures OfType([e], obj) == [e] && Without([e], obj) == []
  {
    assert [e][1..] == [];
    assert Select([e][1..], obj, true) == [] && Select([e][1..], obj, false) == [];
  }

  /** Selecting a type and selecting the others divides the name. */
  lemma {:induction false} SelectDivides(name: Name, obj: int)
    ensures multiset(OfType(name, obj)) + multiset(Without(name, obj)) == multiset(name)
    ensures (forall e <- OfType(name, obj) :: e.obj == obj) && (forall e <- Without(name, obj) :: e.obj != obj)
  {
    if name != [] {
      SelectDivides(name[1..], obj);
      assert name == [name[0]] + name[1..];
    }
  }

  /** Stepping from one occurrence to the next. */
  lemma OfTypeStep(name: Name, obj: int, last: int, j: int)
    requires -1 <= last < j < |name| && name[j].obj == obj
    requires forall i :: last < i < j ==> name[i].obj != obj
    ensures OfType(name[..j + 1], obj) == OfType(name[..last + 1], obj) + [name[j]]
  {
    var gap := name[last + 1..j];
    assert name[..j + 1] == name[..last + 1] + (gap + [name[j]]);
    SelectAppend(name[..last + 1], gap + [name[j]], obj, true);
    SelectAppend(gap, [name[j]], obj, true);
    SelectOther(gap, obj);
    SelectOne(name[j], obj);
    hide Select;
  }

  lemma OfTypeEnd(name: Name, obj: int, last: int)
    requires -1 <= last < |name|
    requires forall i :: last < i < |name| ==> name[i].obj != obj
    ensures OfType(name[..last + 1], obj) == OfType(name, obj)
  {
    assert name == name[..last + 1] + name[last + 1..];
    SelectAppend(name[..last + 1], name[last + 1..], obj, true);
    SelectOther(name[last + 1..], obj);
    hide Select;
  }

  // ---------------------------------------------------------------- order

  /** `s` lists the entries of `name` at the positions `ps`, which are in order and are
      all those of the type, or all the others. */
  predicate Picks(name: Name, obj: int, same: bool, ps: seq<nat>, s: Name) {
    && |ps| == |s|
    && (forall t :: 0 <= t < |s| ==> ps[t] < |name| && s[t] == name[ps[t]] && (s[t].obj == obj) == same)
    && (forall t, u :: 0 <= t < u < |s| ==> ps[t] < ps[u])
    && (forall i :: 0 <= i < |name| && (name[i].obj == obj) == same ==> i in ps)
  }

  lemma {:induction false} SelectPicks(name: Name, obj: int, same: bool) returns (ps: seq<nat>)
    ensures Picks(name, obj, same, ps, Select(name, obj, same))
    decreases |name|
  {
    if name == [] {
      return [];
    }
    var n := |name| - 1;
    ps := SelectPicks(name[..n], obj, same);
    assert name == name[..n] + [name[n]];
    SelectAppend(name[..n], [name[n]], obj, same);
    assert Select([name[n]], obj, same) == Picked(name[n], obj, same) by { assert [name[n]][1..] == []; }
    hide Select;
    if (name[n].obj == obj) == same {
      PicksNext(name[..n], name[n], obj, same, ps, Select(name[..n], obj, same));
      ps := ps + [n];
    } else {
      PicksSkip(name[..n], name[n], obj, same, ps, Select(name[..n], obj, same));
    }
  }

  lemma PicksNext(name: Name, e: NameEntry, obj: int, same: bool, ps: seq<nat>, s: Name)
    requires Picks(name, obj, same, ps, s) && (e.obj == obj) == same
    ensures Picks(name + [e], obj, same, ps + [|name|], s + [e])
  {
    forall i | 0 <= i < |name + [e]| && ((name + [e])[i].obj == obj) == same
      ensures i in ps + [|name|]
    {
      if i < |name| {
        assert (name + [e])[i] == name[i];
      }
    }
  }

  lemma PicksSkip(name: Name, e: NameEntry, obj: int, same: bool, ps: seq<nat>, s: Name)
    requires Picks(name, obj, same, ps, s) && (e.obj == obj) != same
    ensures Picks(name + [e], obj, same, ps, s + [])
  {
    assert s + [] == s;
  }

  /** Where an entry of the subject comes from: a rule and an entry of its type. */
  datatype Rank = Rank(rule: nat, entry: nat)

  predicate Precedes(a: Rank, b: Rank) {
    a.rule < b.rule || (a.rule == b.rule && a.entry < b.entry)
  }

  predicate Asks(policy: seq<Rule>, name: Name, nid: string -> Option<int>, r: Rank) {
    && r.rule < |policy| && r.entry < |name|
    && nid(policy[r.rule].objectName) == Some(name[r.entry].obj)
  }

  /** `s` lists all pairs of a rule and an entry of its type, by rule and then by entry. */
  ghost predicate Ranked(policy: seq<Rule>, name: Name, nid: string -> Option<int>, ranks: seq<Rank>, s: Name) {
    && |ranks| == |s|
    && (forall t :: 0 <= t < |s| ==> Asks(policy, name, nid, ranks[t]) && s[t] == name[ranks[t].entry])
    && (forall t, u :: 0 <= t < u < |s| ==> Precedes(ranks[t], ranks[u]))
    && (forall r: Rank :: Asks(policy, name, nid, r) ==> r in ranks)
  }

  lemma {:induction false} SelectedAppend(policy: seq<Rule>, rule: Rule, name: Name, nid: string -> Option<int>)
    ensures Selected(policy + [rule], name, nid) == Selected(policy, name, nid) + Entries(rule, name, nid)
  {
    hide Entries;
    if policy == [] {
      assert policy + [rule] == [rule] && [rule][1..] == [];
      assert Selected([rule], name, nid) == Entries(rule, name, nid) + Selected([], name, nid);
    } else {
      SelectedAppend(policy[1..], rule, name, nid);
      assert (policy + [rule])[1..] == policy[1..] + [rule];
      Associates(Entries(policy[0], name, nid), Selected(policy[1..], name, nid), Entries(rule, name, nid));
    }
  }

  /** The selection is in policy order. */
  lemma {:induction false} SelectedInOrder(policy: seq<Rule>, name: Name, nid: string -> Option<int>)
      returns (ranks: seq<Rank>)
    ensures Ranked(policy, name, nid, ranks, Selected(policy, name, nid))
    decreases |policy|
  {
    if policy == [] {
      return [];
    }
    var n := |policy| - 1;
    var rule := policy[n];
    assert policy == policy[..n] + [rule];
    ranks := SelectedInOrder(policy[..n], name, nid);
    SelectedAppend(policy[..n], rule, name, nid);
    var before := Selected(policy[..n], name, nid);
    var obj := nid(rule.objectName);
    if obj == None {
      assert before + [] == before;
      RankedSkip(policy[..n], rule, name, nid, ranks, before);
    } else {
      var ps := SelectPicks(name, obj.value, true);
      hide Selected, Select;
      RankedNext(policy[..n], rule, name, nid, ranks, before, ps, OfType(name, obj.value));
      ranks := ranks + RanksOf(n, ps);
    }
  }

  function RanksOf(rule: nat, ps: seq<nat>): (ranks: seq<Rank>)
    ensures |ranks| == |ps| && forall t :: 0 <= t < |ps| ==> ranks[t] == Rank(rule, ps[t])
  {
    seq(|ps|, t requires 0 <= t < |ps| => Rank(rule, ps[t]))
  }

  lemma RankedSkip(
      policy: seq<Rule>, rule: Rule, name: Name, nid: string -> Option<int>, ranks: seq<Rank>, s: Name)
    requires Ranked(policy, name, nid, ranks, s) && nid(rule.objectName) == None
    ensures Ranked(policy + [rule], name, nid, ranks, s)
  {
    forall r: Rank | Asks(policy + [rule], name, nid, r)
      ensures r in ranks
    {
      assert Asks(policy, name, nid, r);
    }
  }

  lemma RankedNext(
      policy: seq<Rule>, rule: Rule, name: Name, nid: string -> Option<int>, ranks: seq<Rank>, s: Name,
      ps: seq<nat>, more: Name)
    requires Ranked(policy, name, nid, ranks, s) && nid(rule.objectName).Some?
    requires Picks(name, nid(rule.objectName).value, true, ps, more)
    ensures Ranked(policy + [rule], name, nid, ranks + RanksOf(|policy|, ps), s + more)
  {
    var all := ranks + RanksOf(|policy|, ps);
    forall r: Rank | Asks(policy + [rule], name, nid, r)
      ensures r in all
    {
      if r.rule < |policy| {
        assert Asks(policy, name, nid, r);
      } else {
        var t :| 0 <= t < |ps| && ps[t] == r.entry;
        assert all[|ranks| + t] == r;
      }
    }
    forall t | 0 <= t < |s + more|
      ensures Asks(policy + [rule], name, nid, all[t]) && (s + more)[t] == name[all[t].entry]
    {
      if t < |s| {
        assert Asks(policy, name, nid, ranks[t]);
      } else {
        assert all[t] == Rank(|policy|, ps[t - |s|]);
      }
    }
  }

  // ---------------------------------------------------------------- the loops

  /** Looks through the CA's entries of the type for one equal to the request's. */
  method MatchInCa(ca: Name, obj: int, entry: NameEntry) returns (push: Option<NameEntry>)
    requires entry.obj == obj
    ensures push == if entry in ca then Some(entry) else None
  {
    var last := -1;
    while true
      invariant -1 <= last < |ca|
      invariant entry !in ca[..last + 1]
      decreases |ca| - last
    {
      var j := NextIndex(ca, obj, last);
      if j < 0 {
        assert ca == ca[..last + 1] + ca[last + 1..];
        return None;
      }
      last := j;
      if ca[j].kind == entry.kind && ca[j].data == entry.data {
        return Some(ca[j]);
      }
    }
  }

  /** One rule: every occurrence of its type is checked and appended. */
  method ApplyRule(rule: Rule, name: Name, ca: Name, nid: string -> Option<int>, before: Name)
      returns (subject: Option<Name>)
    ensures subject == if Satisfied(rule, name, ca, nid)
                       then Some(before + OfType(name, nid(rule.objectName).value)) else None
  {
    hide OfType;
    if nid(rule.objectName) == None {
      return None;
    }
    var obj := nid(rule.objectName).value;
    var built, last := before, -1;
    SelectOther(name[..0], obj);
    assert before + [] == before;
    while true
      invariant -1 <= last < |name|
      invariant last >= 0 ==> name[last].obj == obj && rule.mode in {"optional", "supplied", "match"}
      invariant built == before + OfType(name[..last + 1], obj)
      invariant rule.mode == "match" ==> forall i :: 0 <= i <= last && name[i].obj == obj ==> name[i] in ca
      decreases |name| - last
    {
      var j := NextIndex(name, obj, last);
      if j < 0 {
        OfTypeEnd(name, obj, last);
        if last != -1 {
          break;
        }
        if rule.mode != "optional" {
          return None;
        }
        break;
      }
      OfTypeStep(name, obj, last, j);
      last := j;
      var push := name[j];
      if rule.mode == "match" {
        var found := MatchInCa(ca, obj, name[j]);
        if found == None {
          return None;
        }
        push := found.value;
      } else if rule.mode != "optional" && rule.mode != "supplied" {
        return None;
      }
      built := built + [push];
    }
    return Some(built);
  }

  /** The policy loop of `do_body`: it succeeds exactly when every rule is
      satisfied, and then selects. */
  method ApplyPolicy(policy: seq<Rule>, name: Name, ca: Name, nid: string -> Option<int>)
      returns (subject: Option<Name>)
    ensures subject.Some? <==> forall rule <- policy :: Satisfied(rule, name, ca, nid)
    ensures subject.Some? ==> subject.value == Selected(policy, name, nid)
  {
    hide Satisfied, OfType, Selected;
    var built: Name := [];
    assert built + Selected(policy[0..], name, nid) == Selected(policy, name, nid) by { assert policy[0..] == policy; }
    for i := 0 to |policy|
      invariant forall k :: 0 <= k < i ==> Satisfied(policy[k], name, ca, nid)
      invariant built + Selected(policy[i..], name, nid) == Selected(policy, name, nid)
    {
      SelectedNext(policy, i, name, nid);
      SatisfiedKnown(policy[i], name, ca, nid);
      var next := ApplyRule(policy[i], name, ca, nid, built);
      if next == None {
        assert policy[i] in policy;
        return None;
      }
      assert built + (Entries(policy[i], name, nid) + Selected(policy[i + 1..], name, nid))
          == next.value + Selected(policy[i + 1..], name, nid);
      built := next.value;
    }
    assert policy[|policy|..] == [];
    assert built + Selected([], name, nid) == built by { SelectedNone(name, nid); }
    return Some(built);
  }

  /** What an accepted policy guarantees of the request: every type of a "supplied" or
      "match" rule occurs in the subject, and every entry of a "match" rule's type there
      is one of the CA's. */
  lemma PolicyGuarantees(policy: seq<Rule>, name: Name, ca: Name, nid: string -> Option<int>, i: nat)
    requires i < |policy| && forall rule <- policy :: Satisfied(rule, name, ca, nid)
    ensures nid(policy[i].objectName).Some?
    ensures var obj, subject := nid(policy[i].objectName).value, Selected(policy, name, nid);
            && policy[i].mode in {"optional", "supplied", "match"}
            && (policy[i].mode in {"supplied", "match"} ==> Occurs(subject, obj))
            && (policy[i].mode == "match" ==> forall e <- subject :: e.obj == obj ==> e in ca)
  {
    var rule := policy[i];
    assert rule in policy;
    assert Satisfied(rule, name, ca, nid);
    var obj, subject := nid(rule.objectName).value, Selected(policy, name, nid);
    var ranks := SelectedInOrder(policy, name, nid);
    hide Selected;
    if Occurs(name, obj) {
      var k :| 0 <= k < |name| && name[k].obj == obj;
      assert Asks(policy, name, nid, Rank(i, k));
      var t :| 0 <= t < |ranks| && ranks[t] == Rank(i, k);
      assert subject[t] == name[k] && subject[t] in subject;
    }
    forall e | e in subject
      ensures e in name
    {
      var t :| 0 <= t < |subject| && subject[t] == e;
      assert Asks(policy, name, nid, ranks[t]);
    }
  }

  lemma SelectedNone(name: Name, nid: string -> Option<int>)
    ensures Selected([], name, nid) == []
  {}

  lemma SatisfiedKnown(rule: Rule, name: Name, ca: Name, nid: string -> Option<int>)
    ensures Satisfied(rule, name, ca, nid) ==> nid(rule.objectName).Some?
  {}

  // ---------------------------------------------------------------- string types

  const UTF8_STRING := 12
  const PRINTABLE_STRING := 19
  const T61_STRING := 20
  const IA5_STRING := 22
  const BMP_STRING := 30

  predicate Ascii(c: int) {
    0 <= c < 128
  }

  /** The characters of a PrintableString. */
  predicate Printable(c: int) {
    || 'A' as int <= c <= 'Z' as int || 'a' as int <= c <= 'z' as int || '0' as int <= c <= '9' as int
    || c in [32, 39, 40, 41, 43, 44, 45, 46, 47, 58, 61, 63]
  }

  /** The narrowest type that holds the characters. */
  method PrintableType(data: seq<int>) returns (t: int)
    ensures t == T61_STRING <==> exists c <- data :: !Ascii(c)
    ensures t == PRINTABLE_STRING <==> forall c <- data :: Printable(c)
    ensures t in [PRINTABLE_STRING, T61_STRING, IA5_STRING]
  {
    var ia5, t61 := false, false;
    for i := 0 to |data|
      invariant t61 <==> exists k :: 0 <= k < i && !Ascii(data[k])
      invariant ia5 <==> exists k :: 0 <= k < i && !Printable(data[k])
    {
      if !Printable(data[i]) {
        ia5 := true;
      }
      if !Ascii(data[i]) {
        t61 := true;
      }
    }
    return if t61 then T61_STRING else if ia5 then IA5_STRING else PRINTABLE_STRING;
  }

  /** An e-mail address that is not wanted is passed over; one that is wanted is an
      IA5String. Only a T61String, BMPString or UTF8String holds characters beyond ASCII,
      and a PrintableString only printable ones. */
  predicate Legal(e: NameEntry, email: int, wanted: bool) {
    || (e.obj == email && !wanted)
    || (&& (e.obj == email ==> e.kind == IA5_STRING)
        && ((exists c <- e.data :: !Ascii(c)) ==> e.kind in [T61_STRING, BMP_STRING, UTF8_STRING])
        && (e.kind == PRINTABLE_STRING ==> forall c <- e.data :: Printable(c)))
  }

  /** The characters of a PrintableString as in section 41.4 of ITU-T X.680: letters,
      digits, the space and eleven signs. */
  lemma PrintableSigns(c: char)
    ensures Printable(c as int) <==>
            'A' <= c <= 'Z' || 'a' <= c <= 'z' || '0' <= c <= '9' || c in " '()+,-./:=?"
  {
    assert ' ' as int == 32 && '\'' as int == 39 && '(' as int == 40 && ')' as int == 41 && '+' as int == 43;
    assert ',' as int == 44 && '-' as int == 45 && '.' as int == 46 && '/' as int == 47;
    assert ':' as int == 58 && '=' as int == 61 && '?' as int == 63;
  }

  /** What is legal by the universal tags of section 8.4 of ITU-T X.680: 12 is a
      UTF8String, 19 a PrintableString, 20 a T61String, 22 an IA5String and 30 a
      BMPString. */
  lemma LegalByTag(e: NameEntry, email: int, wanted: bool)
    ensures Legal(e, email, wanted) <==>
            || (e.obj == email && !wanted)
            || (&& (e.obj == email ==> e.kind == 22)
                && (forall c <- e.data :: c < 0 || 128 <= c ==> e.kind == 20 || e.kind == 30 || e.kind == 12)
                && (e.kind == 19 ==> forall c <- e.data :: Printable(c)))
  {
    hide Printable;
  }

  /** The checks made of every entry before the policy. */
  method CheckStrings(name: Name, email: int, wanted: bool) returns (ok: bool)
    ensures ok <==> forall e <- name :: Legal(e, email, wanted)
  {
    hide Printable, Ascii;
    for i := 0 to |name|
      invariant forall k :: 0 <= k < i ==> Legal(name[k], email, wanted)
    {
      var e := name[i];
      assert e in name;
      if e.obj == email && !wanted {
        continue;
      }
      if e.obj == email && e.kind != IA5_STRING {
        return false;
      }
      if e.kind != BMP_STRING && e.kind != UTF8_STRING {
        var j := PrintableType(e.data);
        if (j == T61_STRING && e.kind != T61_STRING) || (j == IA5_STRING && e.kind == PRINTABLE_STRING) {
          return false;
        }
      }
    }
    return true;
  }

  // ---------------------------------------------------------------- e-mail removal

  lemma DeleteKeeps(name: Name, obj: int, i: nat)
    requires i < |name| && name[i].obj == obj
    ensures Without(name[..i] + name[i + 1..], obj) == Without(name, obj)
  {
    assert name == name[..i] + ([name[i]] + name[i + 1..]);
    SelectAppend(name[..i], [name[i]] + name[i + 1..], obj, false);
    SelectAppend([name[i]], name[i + 1..], obj, false);
    SelectAppend(name[..i], name[i + 1..], obj, false);
    SelectOne(name[i], obj);
    hide Select;
  }

  /** Deletes while walking; stepping the index back after each deletion is what
      keeps adjacent e-mail entries from being skipped. */
  method RemoveEmail(name: Name, email: int) returns (r: Name)
    ensures r == Without(name, email)
    ensures !Occurs(r, email)
  {
    hide Without;
    r := name;
    var i := -1;
    while true
      invariant -1 <= i < |r|
      invariant Without(r, email) == Without(name, email)
      invariant forall k :: 0 <= k <= i ==> r[k].obj != email
      decreases |r|
    {
      i := NextIndex(r, email, i);
      if i < 0 {
        break;
      }
      DeleteKeeps(r, email, i);
      r := r[..i] + r[i + 1..];
      i := i - 1;
    }
    SelectOther(r, email);
  }
}
