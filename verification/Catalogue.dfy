/**
 One survey: what every host reported, folded into the catalogue of families and
 into the choices the routing reads.
 */
module Catalogue {
  import opened Basics
  import opened Order
  import opened Provenance
  import opened Hosts

  /** Zero is a context the host did not report. */
  datatype ModelContext = ModelContext(maximum: int, effective: int)

  /** What one host answered. A host that did not answer has an empty reading. */
  datatype Reading = Reading(
    resident: seq<string>,
    installed: seq<string>,
    profiles: Option<map<string, seq<string>>>,
    contexts: map<string, ModelContext>)

  /** A name on a host, or with an empty host the name of a model only stores hold. */
  datatype Alias = Alias(
    host: string,
    name: string,
    resident: bool,
    servable: bool,
    hosted: bool,
    profiles: seq<string>,
    heldIn: seq<string>,
    contextLength: int,
    effective: int)

  datatype Family = Family(family: string, names: seq<Alias>, heldIn: seq<string>, source: string, components: seq<Component>)

  /** A name on one server, the server by its place in the preference order. */
  type Served = (nat, string)

  predicate ServedBefore(a: Served, b: Served) {
    if a.1 != b.1 then Before(a.1, b.1) else a.0 < b.0
  }

  predicate FamilyBefore(a: Family, b: Family) {
    Before(a.family, b.family)
  }

  lemma ServedOrder()
    ensures StrictTotal(ServedBefore)
  {
    hide Before;
    BeforeStrictTotal();
  }

  lemma FamilyOrder()
    ensures StrictWeak(FamilyBefore)
  {
    hide Before;
    BeforeStrictTotal();
  }

  /** A name one host reported, resident or installed. */
  datatype Noted = Noted(host: nat, name: string, resident: bool)

  /** What a survey starts from: the hosts, their readings, and the families the stores declare. */
  datatype Inputs = Inputs(env: Naming, declared: map<string, string>, hosts: seq<Host>, readings: seq<Reading>) {
    predicate Valid() {
      |readings| == |hosts|
    }

    /** The family of a host's name: the declared one of its lower-cased key, else the naming's. */
    function FamilyOf(name: string): string {
      var key := env.lower(name);
      if key in declared && declared[key] != "" then declared[key] else env.Family(name)
    }

    predicate Knows(notes: seq<Noted>) {
      forall n :: n in notes ==> n.host < |hosts|
    }

    predicate Noting(notes: seq<Noted>, key: Served) {
      exists n :: n in notes && (n.host, n.name) == key
    }

    predicate NotingResident(notes: seq<Noted>, key: Served) {
      exists n :: n in notes && n.resident && (n.host, n.name) == key
    }

    lemma NotingNext(notes: seq<Noted>, n: Noted, key: Served)
      ensures Noting(notes + [n], key) <==> Noting(notes, key) || key == (n.host, n.name)
      ensures NotingResident(notes + [n], key) <==> NotingResident(notes, key) || (n.resident && key == (n.host, n.name))
      ensures NotingResident(notes, key) ==> Noting(notes, key)
    {
      var all := notes + [n];
      assert n in all && forall m :: m in all <==> m in notes || m == n;
      if key == (n.host, n.name) {
        assert n in all && (n.host, n.name) == key;
      }
    }

    lemma NotingGives(notes: seq<Noted>, key: Served)
      ensures Noting(notes, key) ==> exists n :: n in notes && n.host == key.0 && n.name == key.1
      ensures NotingResident(notes, key) ==> Noting(notes, key)
    {
    }

    /** The alias of a name on a server. */
    function AliasOf(key: Served, resident: bool): Alias
      requires Valid() && key.0 < |hosts|
    {
      var h, r := hosts[key.0], readings[key.0];
      var context := if key.1 in r.contexts then r.contexts[key.1] else ModelContext(0, 0);
      var profiles := if r.profiles.Some? && key.1 in r.profiles.value then r.profiles.value[key.1] else [];
      Alias(h.name, key.1, resident, h.Servable(), h.hosted, profiles, [], context.maximum, context.effective)
    }

    lemma AliasResident(key: Served, before: bool, after: bool)
      requires Valid() && key.0 < |hosts|
      ensures AliasOf(key, before).resident == before
      ensures AliasOf(key, before).(resident := after) == AliasOf(key, after)
    {
    }

    /** The name a host is asked for a family by: its last resident name, or its first name when none is resident. */
    function Picked(notes: seq<Noted>, fam: string, host: string): Option<string>
      requires Knows(notes)
    {
      if |notes| == 0 then None
      else
        var n := notes[|notes| - 1];
        assert forall m :: m in notes[..|notes| - 1] ==> m in notes;
        var before := Picked(notes[..|notes| - 1], fam, host);
        if FamilyOf(n.name) == fam && hosts[n.host].name == host && (before.None? || n.resident) then Some(n.name) else before
    }
  }

  // ---- The fold ----

  class Survey {
    const inputs: Inputs
    var aliasFamily: map<string, string>
    var byFamily: map<string, map<Served, Alias>>
    var pick: map<string, map<string, string>>

    constructor (inputs: Inputs)
      requires inputs.Valid()
      ensures this.inputs == inputs && Holds([])
    {
      this.inputs := inputs;
      aliasFamily, byFamily, pick := map[], map[], map[];
    }

    /** Every noted name of some family, and nothing else, is sent to its family. */
    ghost predicate NamesHold(notes: seq<Noted>)
      reads `aliasFamily
    {
      && (forall n :: n in notes && inputs.FamilyOf(n.name) != "" ==>
            inputs.env.lower(n.name) in aliasFamily && aliasFamily[inputs.env.lower(n.name)] == inputs.FamilyOf(n.name))
      && (forall key :: key in aliasFamily ==>
            exists n :: n in notes && inputs.FamilyOf(n.name) != "" && inputs.env.lower(n.name) == key)
    }

    /** Every noted name is one alias of its family, resident when it was noted resident. */
    ghost predicate AliasesHold(notes: seq<Noted>)
      requires inputs.Valid() && inputs.Knows(notes)
      reads `byFamily
    {
      && (forall n :: n in notes && inputs.FamilyOf(n.name) != "" ==>
            inputs.FamilyOf(n.name) in byFamily && (n.host, n.name) in byFamily[inputs.FamilyOf(n.name)])
      && (forall fam :: fam in byFamily ==> fam != "" && byFamily[fam] != map[])
      && (forall fam, key :: fam in byFamily && key in byFamily[fam] ==>
            && inputs.Noting(notes, key) && inputs.FamilyOf(key.1) == fam
            && key.0 < |inputs.hosts|
            && byFamily[fam][key] == inputs.AliasOf(key, inputs.NotingResident(notes, key)))
    }

    ghost predicate PicksHold(notes: seq<Noted>)
      requires inputs.Knows(notes)
      reads `pick
    {
      && (forall fam :: fam in pick ==> fam != "")
      && (forall fam, host :: fam != "" ==>
            inputs.Picked(notes, fam, host) == if fam in pick && host in pick[fam] then Some(pick[fam][host]) else None)
    }

    ghost predicate Holds(notes: seq<Noted>)
      reads this
    {
      inputs.Valid() && inputs.Knows(notes) && NamesHold(notes) && AliasesHold(notes) && PicksHold(notes)
    }

    method NoteName(name: string, resident: bool, host: nat, ghost notes: seq<Noted>)
      requires NamesHold(notes) && inputs.FamilyOf(name) != ""
      modifies `aliasFamily
      ensures NamesHold(notes + [Noted(host, name, resident)])
    {
      aliasFamily := aliasFamily[inputs.env.lower(name) := inputs.FamilyOf(name)];
      ghost var n, all := Noted(host, name, resident), notes + [Noted(host, name, resident)];
      assert n in all && forall m :: m in notes ==> m in all;
    }

    method NoteAlias(name: string, resident: bool, host: nat, ghost notes: seq<Noted>)
      requires inputs.Valid() && inputs.Knows(notes) && host < |inputs.hosts|
      requires AliasesHold(notes) && inputs.FamilyOf(name) != ""
      modifies `byFamily
      ensures inputs.Knows(notes + [Noted(host, name, resident)])
      ensures AliasesHold(notes + [Noted(host, name, resident)])
    {
      hide Inputs.Noting, Inputs.NotingResident, Inputs.AliasOf, Inputs.FamilyOf;
      var fam, key := inputs.FamilyOf(name), (host, name);
      var names := if fam in byFamily then byFamily[fam] else map[];
      ghost var was := inputs.NotingResident(notes, key);
      inputs.AliasResident(key, was, was || resident);
      inputs.NotingGives(notes, key);
      if key in names {
        // One alias for both listings; residency is never lost.
        names := names[key := names[key].(resident := names[key].resident || resident)];
      } else {
        names := names[key := inputs.AliasOf(key, resident)];
      }
      byFamily := byFamily[fam := names];
      ghost var n, all := Noted(host, name, resident), notes + [Noted(host, name, resident)];
      forall other: Served
        ensures inputs.NotingResident(all, other) <==> inputs.NotingResident(notes, other) || (other == key && resident)
        ensures inputs.Noting(all, other) <==> inputs.Noting(notes, other) || other == key
        ensures inputs.NotingResident(notes, other) ==> inputs.Noting(notes, other)
      {
        inputs.NotingNext(notes, n, other);
      }
      forall m | m in all ensures m == n || m in notes {
      }
      assert key in byFamily[fam];
    }

    method NotePick(name: string, resident: bool, host: nat, ghost notes: seq<Noted>)
      requires inputs.Knows(notes) && host < |inputs.hosts|
      requires PicksHold(notes) && inputs.FamilyOf(name) != ""
      modifies `pick
      ensures inputs.Knows(notes + [Noted(host, name, resident)])
      ensures PicksHold(notes + [Noted(host, name, resident)])
    {
      var fam, h := inputs.FamilyOf(name), inputs.hosts[host].name;
      if fam !in pick {
        pick := pick[fam := map[]];
      }
      if h !in pick[fam] || resident {
        pick := pick[fam := pick[fam][h := name]];
      }
      assert (notes + [Noted(host, name, resident)])[..|notes|] == notes;
    }

    method Note(name: string, resident: bool, host: nat, ghost notes: seq<Noted>)
      requires Holds(notes) && host < |inputs.hosts|
      modifies this
      ensures Holds(notes + [Noted(host, name, resident)])
    {
      hide NamesHold, AliasesHold, PicksHold;
      ghost var all := notes + [Noted(host, name, resident)];
      var fam := inputs.FamilyOf(name);
      if fam == "" {
        Unnamed(notes, Noted(host, name, resident));
        return;
      }
      NoteName(name, resident, host, notes);
      assert NamesHold(all) && AliasesHold(notes) && PicksHold(notes);
      NoteAlias(name, resident, host, notes);
      assert NamesHold(all) && AliasesHold(all) && PicksHold(notes);
      NotePick(name, resident, host, notes);
      assert NamesHold(all) && AliasesHold(all) && PicksHold(all);
    }

    /** A name of no family changes nothing. */
    lemma Unnamed(notes: seq<Noted>, n: Noted)
      requires Holds(notes) && n.host < |inputs.hosts| && inputs.FamilyOf(n.name) == ""
      ensures Holds(notes + [n])
    {
      hide NamesHold, AliasesHold, PicksHold;
      UnnamedNames(notes, n);
      UnnamedAliases(notes, n);
      UnnamedPicks(notes, n);
    }

    lemma UnnamedNames(notes: seq<Noted>, n: Noted)
      requires NamesHold(notes) && inputs.FamilyOf(n.name) == ""
      ensures NamesHold(notes + [n])
    {
      hide Inputs.FamilyOf;
      assert forall m :: m in notes + [n] <==> m in notes || m == n;
    }

    lemma UnnamedAliases(notes: seq<Noted>, n: Noted)
      requires inputs.Valid() && inputs.Knows(notes) && n.host < |inputs.hosts|
      requires AliasesHold(notes) && inputs.FamilyOf(n.name) == ""
      ensures inputs.Knows(notes + [n]) && AliasesHold(notes + [n])
    {
      hide Inputs.AliasOf, Inputs.FamilyOf, Inputs.Noting, Inputs.NotingResident;
      var all := notes + [n];
      assert forall m :: m in all <==> m in notes || m == n;
      forall fam, key | fam in byFamily && key in byFamily[fam]
        ensures inputs.Noting(all, key) && inputs.NotingResident(all, key) == inputs.NotingResident(notes, key)
      {
        inputs.NotingNext(notes, n, key);
        assert inputs.FamilyOf(key.1) != "";
      }
    }

    lemma UnnamedPicks(notes: seq<Noted>, n: Noted)
      requires inputs.Knows(notes) && n.host < |inputs.hosts|
      requires PicksHold(notes) && inputs.FamilyOf(n.name) == ""
      ensures inputs.Knows(notes + [n]) && PicksHold(notes + [n])
    {
      hide Inputs.FamilyOf;
      var all := notes + [n];
      assert all[..|notes|] == notes && all[|notes|] == n;
      assert inputs.Knows(all) by {
        assert forall m :: m in all <==> m in notes || m == n;
      }
      forall fam, host | fam != "" ensures inputs.Picked(all, fam, host) == inputs.Picked(notes, fam, host) {
      }
    }

    method NoteEach(names: seq<string>, resident: bool, host: nat, ghost notes: seq<Noted>)
      requires Holds(notes) && host < |inputs.hosts|
      modifies this
      ensures Holds(notes + NotesFor(names, resident, host))
    {
      assert notes + [] == notes;
      for i := 0 to |names|
        invariant Holds(notes + NotesFor(names[..i], resident, host))
      {
        hide Holds;
        assert names[..i + 1][..i] == names[..i];
        Note(names[i], resident, host, notes + NotesFor(names[..i], resident, host));
        assert (notes + NotesFor(names[..i], resident, host)) + [Noted(host, names[i], resident)] == notes + NotesFor(names[..i + 1], resident, host);
      }
      assert names[..|names|] == names;
    }

    method NoteAll()
      requires inputs.Valid() && Holds([])
      modifies this
      ensures Holds(Notes(inputs.readings, |inputs.hosts|))
    {
      hide Holds, NotesFor;
      for i := 0 to |inputs.hosts|
        invariant Holds(Notes(inputs.readings, i))
      {
        var r := inputs.readings[i];
        ghost var before := Notes(inputs.readings, i);
        NoteEach(r.resident, true, i, before);
        NoteEach(r.installed, false, i, before + NotesFor(r.resident, true, i));
      }
    }
  }

  function NotesFor(names: seq<string>, resident: bool, host: nat): seq<Noted> {
    if |names| == 0 then [] else NotesFor(names[..|names| - 1], resident, host) + [Noted(host, names[|names| - 1], resident)]
  }

  /** The names in the order a survey folds them: host by host, resident names first. */
  function Notes(readings: seq<Reading>, hosts: nat): seq<Noted>
    requires hosts <= |readings|
  {
    if hosts == 0 then []
    else
      var r := readings[hosts - 1];
      Notes(readings, hosts - 1) + NotesFor(r.resident, true, hosts - 1) + NotesFor(r.installed, false, hosts - 1)
  }

  // ---- The families ----

  function AliasMaker(names: map<Served, Alias>): Served -> seq<Alias> {
    (key: Served) => if key in names then [names[key]] else []
  }

  /** A family's aliases in the order ServedBefore gives their keys. */
  ghost function NamesListed(names: map<Served, Alias>): seq<Alias> {
    Flat(Ranked(names.Keys, ServedBefore), AliasMaker(names))
  }

  method ListNames(names: map<Served, Alias>) returns (r: seq<Alias>)
    ensures r == NamesListed(names)
  {
    var keys := Gather(names.Keys);
    ServedOrder();
    GatheredRanked(keys, names.Keys, ServedBefore);
    keys := Sort(keys, ServedBefore);
    r := [];
    for i := 0 to |keys|
      invariant r == Flat(keys[..i], AliasMaker(names))
    {
      RankedMembers(names.Keys, ServedBefore);
      FlatStep(keys, AliasMaker(names), i);
      r := r + [names[keys[i]]];
    }
    assert keys[..|keys|] == keys;
  }

  ghost function FamilyMaker(byFamily: map<string, map<Served, Alias>>): string -> seq<Family> {
    (fam: string) => if fam in byFamily then [Family(fam, NamesListed(byFamily[fam]), [], "", [])] else []
  }

  ghost function FamiliesListed(byFamily: map<string, map<Served, Alias>>): seq<Family> {
    Sort(Flat(Listed(byFamily.Keys), FamilyMaker(byFamily)), FamilyBefore)
  }

  lemma MadeFamily(byFamily: map<string, map<Served, Alias>>, fams: seq<string>, f: Family)
    ensures f in Flat(fams, FamilyMaker(byFamily)) <==>
            f.family in fams && f.family in byFamily && f == Family(f.family, NamesListed(byFamily[f.family]), [], "", [])
  {
    FlatMember(fams, FamilyMaker(byFamily), f);
  }

  lemma FamiliesApart(fs: seq<Family>)
    requires forall f, g :: f in fs && g in fs && f.family == g.family ==> f == g
    ensures Apart(fs, FamilyBefore)
  {
    hide Before;
    BeforeStrictTotal();
  }

  method ListFamilies(byFamily: map<string, map<Served, Alias>>) returns (families: seq<Family>)
    ensures families == FamiliesListed(byFamily)
  {
    var fams := Gather(byFamily.Keys);
    families := [];
    for i := 0 to |fams|
      invariant families == Flat(fams[..i], FamilyMaker(byFamily))
    {
      SameInside(fams, byFamily.Keys);
      FlatStep(fams, FamilyMaker(byFamily), i);
      var names := ListNames(byFamily[fams[i]]);
      families := families + [Family(fams[i], names, [], "", [])];
    }
    assert fams[..|fams|] == fams;
    forall f, g | f in families && g in families && f.family == g.family ensures f == g {
      MadeFamily(byFamily, fams, f);
      MadeFamily(byFamily, fams, g);
    }
    FamiliesApart(families);
    FamilyOrder();
    FlatOrderFree(fams, Listed(byFamily.Keys), FamilyMaker(byFamily));
    SortOrderFree(families, Flat(Listed(byFamily.Keys), FamilyMaker(byFamily)), FamilyBefore);
    families := Sort(families, FamilyBefore);
  }

  lemma SameInside<T>(r: seq<T>, s: set<T>)
    requires multiset(r) == multiset(s)
    ensures forall x :: x in r <==> x in s
  {
    forall x ensures x in r <==> x in s {
      assert x in multiset(r) <==> x in multiset(s);
    }
  }
}
