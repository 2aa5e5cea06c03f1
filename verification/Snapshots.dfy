/** The snapshot a survey publishes, and how its indexes agree with one another. */
module Snapshots {
  import opened Basics
  import opened Order
  import opened Provenance
  import opened Identity
  import opened Hosts
  import opened Catalogue
  import opened Composition

  datatype Snapshot = Snapshot(
    families: seq<Family>,
    pick: map<string, map<string, string>>,
    profiles: map<string, map<string, seq<string>>>,
    aliasFamily: map<string, string>)

  /** The family lists an alias of the host under the name. */
  predicate Lists(s: Snapshot, fam: string, host: string, name: string) {
    exists f, a :: f in s.families && f.family == fam && a in f.names && a.host == host && a.name == name
  }

  /** A name some host serves is sent to the family it is listed in, and that host is asked for the family by some name. */
  predicate Placed(env: Naming, s: Snapshot, fam: string, a: Alias) {
    && fam != ""
    && env.lower(a.name) in s.aliasFamily && s.aliasFamily[env.lower(a.name)] == fam
    && fam in s.pick && a.host in s.pick[fam]
  }

  /** The indexes agree: families, aliases and picks tell one story. */
  predicate Agrees(env: Naming, s: Snapshot) {
    && OnceEach(s.families)
    && (forall f, a :: f in s.families && a in f.names && a.host != "" ==> Placed(env, s, f.family, a))
    && (forall fam, host :: fam in s.pick && host in s.pick[fam] ==> Lists(s, fam, host, s.pick[fam][host]))
  }

  /** The profiles each host's own metadata reports, by host name. */
  ghost function ProfilesOf(hosts: seq<Host>, readings: seq<Reading>): map<string, map<string, seq<string>>>
    requires |hosts| == |readings|
  {
    if |hosts| == 0 then map[]
    else
      var n := |hosts| - 1;
      var before := ProfilesOf(hosts[..n], readings[..n]);
      if readings[n].profiles.Some? then before[hosts[n].name := readings[n].profiles.value] else before
  }

  // ---- Members of the listed families ----

  lemma ListedNames(names: map<Served, Alias>, a: Alias)
    ensures a in NamesListed(names) <==> exists key :: key in names && names[key] == a
  {
    ServedOrder();
    RankedMembers(names.Keys, ServedBefore);
    FlatMember(Ranked(names.Keys, ServedBefore), AliasMaker(names), a);
    if key :| key in names && names[key] == a {
      assert key in Ranked(names.Keys, ServedBefore);
      var i :| 0 <= i < |Ranked(names.Keys, ServedBefore)| && Ranked(names.Keys, ServedBefore)[i] == key;
      assert a in AliasMaker(names)(Ranked(names.Keys, ServedBefore)[i]);
    }
  }

  lemma ListedFamilies(byFamily: map<string, map<Served, Alias>>, f: Family)
    ensures f in FamiliesListed(byFamily) <==>
            f.family in byFamily && f == Family(f.family, NamesListed(byFamily[f.family]), [], "", [])
  {
    var fams := Listed(byFamily.Keys);
    SameInside(fams, byFamily.Keys);
    MadeFamily(byFamily, fams, f);
    SameMembers(FamiliesListed(byFamily), Flat(fams, FamilyMaker(byFamily)));
  }

  lemma {:induction false} MadeOnce(byFamily: map<string, map<Served, Alias>>, fams: seq<string>)
    requires forall i, j :: 0 <= i < j < |fams| ==> fams[i] != fams[j]
    ensures OnceEach(Flat(fams, FamilyMaker(byFamily)))
  {
    hide NamesListed;
    if |fams| > 0 {
      var n := |fams| - 1;
      MadeOnce(byFamily, fams[..n]);
      forall f: Family | f in Flat(fams[..n], FamilyMaker(byFamily)) ensures f.family != fams[n] {
        MadeFamily(byFamily, fams[..n], f);
      }
    }
  }

  lemma FamiliesOnce(byFamily: map<string, map<Served, Alias>>)
    ensures OnceEach(FamiliesListed(byFamily))
  {
    var fams := Listed(byFamily.Keys);
    ListedOnce(byFamily.Keys);
    MadeOnce(byFamily, fams);
    RearrangedOnce(Flat(fams, FamilyMaker(byFamily)), FamiliesListed(byFamily));
  }

  // ---- The pick ----

  /** A note of a host's name for a family. */
  predicate NotesAt(inputs: Inputs, n: Noted, fam: string, host: string)
    requires n.host < |inputs.hosts|
  {
    inputs.FamilyOf(n.name) == fam && inputs.hosts[n.host].name == host
  }

  /** notes[i] decides: the last resident note of the host for the family, or the first of all when none is resident. */
  predicate Decides(inputs: Inputs, notes: seq<Noted>, fam: string, host: string, i: nat)
    requires inputs.Knows(notes) && i < |notes|
  {
    && NotesAt(inputs, notes[i], fam, host)
    && if notes[i].resident
       then forall j :: i < j < |notes| && NotesAt(inputs, notes[j], fam, host) ==> !notes[j].resident
       else forall j :: 0 <= j < |notes| && NotesAt(inputs, notes[j], fam, host) ==> i <= j && !notes[j].resident
  }

  /** The pick is the last resident name, or the first name when none is resident; there is none when nothing was noted. */
  lemma {:induction false} PickedDecides(inputs: Inputs, notes: seq<Noted>, fam: string, host: string)
    requires inputs.Knows(notes)
    ensures match inputs.Picked(notes, fam, host)
            case None => forall i :: 0 <= i < |notes| ==> !NotesAt(inputs, notes[i], fam, host)
            case Some(name) => exists i :: 0 <= i < |notes| && Decides(inputs, notes, fam, host, i) && notes[i].name == name
  {
    hide NotesAt, Decides;
    if |notes| > 0 {
      var k := |notes| - 1;
      var front, n := notes[..k], notes[k];
      assert forall m :: m in front ==> m in notes;
      PickedDecides(inputs, front, fam, host);
      var before := inputs.Picked(front, fam, host);
      PickedNext(inputs, notes, fam, host);
      if NotesAt(inputs, n, fam, host) && (before.None? || n.resident) {
        DecidesNow(inputs, notes, front, fam, host);
      } else if before.Some? {
        var i :| 0 <= i < |front| && Decides(inputs, front, fam, host, i) && front[i].name == before.value;
        DecidesStill(inputs, notes, fam, host, i);
        assert notes[i].name == before.value;
      } else {
        forall i | 0 <= i < |notes| ensures !NotesAt(inputs, notes[i], fam, host) {
          if i < k {
            assert notes[i] == front[i];
          }
        }
      }
    }
  }

  lemma PickedNext(inputs: Inputs, notes: seq<Noted>, fam: string, host: string)
    requires inputs.Knows(notes) && |notes| > 0
    ensures inputs.Knows(notes[..|notes| - 1])
    ensures var n, before := notes[|notes| - 1], inputs.Picked(notes[..|notes| - 1], fam, host);
            inputs.Picked(notes, fam, host) == if NotesAt(inputs, n, fam, host) && (before.None? || n.resident) then Some(n.name) else before
  {
    assert forall m :: m in notes[..|notes| - 1] ==> m in notes;
  }

  lemma DecidesNow(inputs: Inputs, notes: seq<Noted>, front: seq<Noted>, fam: string, host: string)
    requires inputs.Knows(notes) && |notes| > 0 && front == notes[..|notes| - 1] && inputs.Knows(front)
    requires NotesAt(inputs, notes[|notes| - 1], fam, host)
    requires notes[|notes| - 1].resident || forall i :: 0 <= i < |front| ==> !NotesAt(inputs, front[i], fam, host)
    ensures Decides(inputs, notes, fam, host, |notes| - 1)
  {
    hide NotesAt;
    forall j | 0 <= j < |front| ensures front[j] == notes[j] {
    }
  }

  lemma DecidesStill(inputs: Inputs, notes: seq<Noted>, fam: string, host: string, i: nat)
    requires inputs.Knows(notes) && |notes| > 0 && inputs.Knows(notes[..|notes| - 1])
    requires i < |notes| - 1 && Decides(inputs, notes[..|notes| - 1], fam, host, i)
    requires NotesAt(inputs, notes[|notes| - 1], fam, host) ==> !notes[|notes| - 1].resident
    ensures Decides(inputs, notes, fam, host, i)
  {
    hide NotesAt;
    var front := notes[..|notes| - 1];
    assert front[i] == notes[i];
    forall j | 0 <= j < |notes| && NotesAt(inputs, notes[j], fam, host) && !notes[i].resident ensures i <= j && !notes[j].resident {
      if j < |front| {
        assert front[j] == notes[j];
      }
    }
    forall j | i < j < |notes| && NotesAt(inputs, notes[j], fam, host) && notes[i].resident ensures !notes[j].resident {
      if j < |front| {
        assert front[j] == notes[j];
      }
    }
  }

  // ---- The survey ----

  /** What a survey leaves of its inputs: the catalogue composed with the stores, and the indexes of the fold. */
  ghost predicate Surveyed(inputs: Inputs, view: View, survey: Survey, notes: seq<Noted>, s: Snapshot)
    reads survey
  {
    && survey.inputs == inputs && survey.Holds(notes)
    && s.families == Composed(inputs.env, view, FamiliesListed(survey.byFamily))
    && s.pick == survey.pick && s.aliasFamily == survey.aliasFamily
  }

  /** An alias stands for a note. */
  lemma AliasNoted(survey: Survey, notes: seq<Noted>, fam: string, key: Served) returns (i: nat)
    requires survey.Holds(notes) && fam in survey.byFamily && key in survey.byFamily[fam]
    ensures i < |notes| && (notes[i].host, notes[i].name) == key && key.0 < |survey.inputs.hosts|
    ensures fam != "" && survey.inputs.FamilyOf(key.1) == fam
    ensures survey.byFamily[fam][key].host == survey.inputs.hosts[key.0].name && survey.byFamily[fam][key].name == key.1
  {
    hide Inputs.FamilyOf, Inputs.NotingResident, Inputs.Picked;
    assert survey.AliasesHold(notes);
    assert survey.inputs.Noting(notes, key);
    var n :| n in notes && (n.host, n.name) == key;
    i :| 0 <= i < |notes| && notes[i] == n;
  }

  /** A note stands for an alias. */
  lemma NoteListed(survey: Survey, notes: seq<Noted>, i: nat)
    requires survey.Holds(notes) && i < |notes| && survey.inputs.FamilyOf(notes[i].name) != ""
    ensures var fam, key := survey.inputs.FamilyOf(notes[i].name), (notes[i].host, notes[i].name);
            && fam in survey.byFamily && key in survey.byFamily[fam] && notes[i].host < |survey.inputs.hosts|
            && survey.byFamily[fam][key].host == survey.inputs.hosts[key.0].name && survey.byFamily[fam][key].name == key.1
            && survey.inputs.env.lower(notes[i].name) in survey.aliasFamily
            && survey.aliasFamily[survey.inputs.env.lower(notes[i].name)] == fam
  {
    hide Inputs.FamilyOf, Inputs.NotingResident, Inputs.Picked;
    assert notes[i] in notes;
    var fam, key := survey.inputs.FamilyOf(notes[i].name), (notes[i].host, notes[i].name);
    assert survey.AliasesHold(notes) && survey.NamesHold(notes);
    assert fam in survey.byFamily && key in survey.byFamily[fam];
  }

  /** A pick is an alias of that host in that family. */
  lemma PickListed(survey: Survey, notes: seq<Noted>, fam: string, host: string)
    requires survey.Holds(notes) && fam in survey.pick && host in survey.pick[fam]
    ensures fam in survey.byFamily
    ensures exists key :: key in survey.byFamily[fam] && survey.byFamily[fam][key].host == host
                          && survey.byFamily[fam][key].name == survey.pick[fam][host]
  {
    hide Inputs.FamilyOf, Inputs.Picked, Survey.AliasesHold, Survey.NamesHold;
    PickedDecides(survey.inputs, notes, fam, host);
    var i :| 0 <= i < |notes| && Decides(survey.inputs, notes, fam, host, i) && notes[i].name == survey.pick[fam][host];
    NoteListed(survey, notes, i);
    assert (notes[i].host, notes[i].name) in survey.byFamily[fam];
  }

  /** Every alias's host is picked for the alias's family. */
  lemma AliasPicked(survey: Survey, notes: seq<Noted>, fam: string, key: Served)
    requires survey.Holds(notes) && fam in survey.byFamily && key in survey.byFamily[fam]
    ensures fam != "" && fam in survey.pick && survey.byFamily[fam][key].host in survey.pick[fam]
    ensures survey.inputs.env.lower(key.1) in survey.aliasFamily && survey.aliasFamily[survey.inputs.env.lower(key.1)] == fam
    ensures survey.byFamily[fam][key].name == key.1
  {
    hide Inputs.FamilyOf, Inputs.Picked, Survey.AliasesHold, Survey.NamesHold;
    var i := AliasNoted(survey, notes, fam, key);
    NoteListed(survey, notes, i);
    var host := survey.byFamily[fam][key].host;
    PickedDecides(survey.inputs, notes, fam, host);
    assert NotesAt(survey.inputs, notes[i], fam, host);
    assert survey.inputs.Picked(notes, fam, host).Some?;
  }

  /** After any survey, whatever the hosts report and the stores hold, the indexes agree. */
  lemma SurveyAgrees(inputs: Inputs, view: View, survey: Survey, notes: seq<Noted>, s: Snapshot)
    requires Surveyed(inputs, view, survey, notes, s)
    ensures Agrees(inputs.env, s)
  {
    hide Composed, FamiliesListed, Survey.Holds, OnceEach;
    var env := inputs.env;
    FamiliesOnce(survey.byFamily);
    ComposedOnce(env, view, FamiliesListed(survey.byFamily));
    forall f, a | f in s.families && a in f.names && a.host != "" ensures Placed(env, s, f.family, a) {
      HostedAlias(inputs, view, survey, notes, s, f, a);
    }
    forall fam, host | fam in s.pick && host in s.pick[fam] ensures Lists(s, fam, host, s.pick[fam][host]) {
      PickIsListed(inputs, view, survey, notes, s, fam, host);
    }
  }

  /** An alias of a host in the composed catalogue is one the survey noted. */
  lemma HostedAlias(inputs: Inputs, view: View, survey: Survey, notes: seq<Noted>, s: Snapshot, f: Family, a: Alias)
    requires Surveyed(inputs, view, survey, notes, s) && f in s.families && a in f.names && a.host != ""
    ensures Placed(inputs.env, s, f.family, a)
  {
    hide Composed, FamiliesListed, NamesListed, StoresIn, Survey.Holds;
    var env := inputs.env;
    ComposedFamilies(env, view, FamiliesListed(survey.byFamily), f);
    var g :| g in FamiliesListed(survey.byFamily) && f == HeldFamily(env, view, g);
    ListedFamilies(survey.byFamily, g);
    var i :| 0 <= i < |f.names| && f.names[i] == a;
    var b := g.names[i];
    assert a == HeldAlias(env, view, b);
    ListedNames(survey.byFamily[g.family], b);
    var key :| key in survey.byFamily[g.family] && survey.byFamily[g.family][key] == b;
    AliasPicked(survey, notes, g.family, key);
  }

  lemma PickIsListed(inputs: Inputs, view: View, survey: Survey, notes: seq<Noted>, s: Snapshot, fam: string, host: string)
    requires Surveyed(inputs, view, survey, notes, s) && fam in s.pick && host in s.pick[fam]
    ensures Lists(s, fam, host, s.pick[fam][host])
  {
    hide Composed, FamiliesListed, Survey.Holds;
    PickListed(survey, notes, fam, host);
    var key :| key in survey.byFamily[fam] && survey.byFamily[fam][key].host == host && survey.byFamily[fam][key].name == s.pick[fam][host];
    AliasIsListed(inputs, view, survey, notes, s, fam, key);
  }

  /** Every alias of the fold is in the composed catalogue. */
  lemma AliasIsListed(inputs: Inputs, view: View, survey: Survey, notes: seq<Noted>, s: Snapshot, fam: string, key: Served)
    requires Surveyed(inputs, view, survey, notes, s) && fam in survey.byFamily && key in survey.byFamily[fam]
    ensures exists f :: f in s.families && f.family == fam && HeldAlias(inputs.env, view, survey.byFamily[fam][key]) in f.names
    ensures Lists(s, fam, survey.byFamily[fam][key].host, survey.byFamily[fam][key].name)
  {
    hide Composed, FamiliesListed, NamesListed, StoresIn, Survey.Holds;
    var env, a := inputs.env, survey.byFamily[fam][key];
    ListedNames(survey.byFamily[fam], a);
    var g := Family(fam, NamesListed(survey.byFamily[fam]), [], "", []);
    ListedFamilies(survey.byFamily, g);
    var f := HeldFamily(env, view, g);
    ComposedFamilies(env, view, FamiliesListed(survey.byFamily), f);
    var i :| 0 <= i < |g.names| && g.names[i] == a;
    assert f.names[i] == HeldAlias(env, view, a) && f.names[i] in f.names;
  }

  /** Every name a host reported, resident or installed, is listed under its family, resident when it was reported so. */
  lemma ReportedListed(inputs: Inputs, view: View, survey: Survey, notes: seq<Noted>, s: Snapshot, i: nat)
    requires Surveyed(inputs, view, survey, notes, s) && i < |notes| && inputs.FamilyOf(notes[i].name) != ""
    ensures notes[i].host < |inputs.hosts|
    ensures exists f, a :: && f in s.families && f.family == inputs.FamilyOf(notes[i].name) && a in f.names
                           && a.host == inputs.hosts[notes[i].host].name && a.name == notes[i].name
                           && (a.resident <==> inputs.NotingResident(notes, (notes[i].host, notes[i].name)))
  {
    hide Composed, StoresIn, Inputs.FamilyOf, Inputs.NotingResident, Inputs.Picked;
    NoteListed(survey, notes, i);
    var fam, key := inputs.FamilyOf(notes[i].name), (notes[i].host, notes[i].name);
    AliasIsListed(inputs, view, survey, notes, s, fam, key);
    assert survey.AliasesHold(notes);
    assert survey.byFamily[fam][key] == inputs.AliasOf(key, inputs.NotingResident(notes, key));
  }

  /** The survey: the stores' index, the fold over the hosts, the catalogue of both. */
  method Take(env: Naming, held: seq<HeldObject>, hosts: seq<Host>, readings: seq<Reading>) 
    returns (s: Snapshot, ghost survey: Survey, ghost index: Index)
    requires |hosts| == |readings|
    ensures Agrees(env, s)
    ensures s.profiles == ProfilesOf(hosts, readings)
    ensures index.Holds(HeldLog(env, held), JoinsLog(HeldLog(env, held).digests, held))
    ensures Surveyed(Inputs(env, DeclaredOf(env, held), hosts, readings), ViewOf(index), survey, Notes(readings, |hosts|), s)
  {
    hide Composed, FamiliesListed, HeldLog, JoinsLog, Notes;
    var stores := Build(env, held);
    index := stores;
    var inputs := Inputs(env, stores.declared, hosts, readings);
    var fold := new Survey(inputs);
    fold.NoteAll();
    survey := fold;
    var families := ListFamilies(fold.byFamily);
    FamiliesOnce(survey.byFamily);
    families := Compose(env, stores, families);
    var profiles := map[];
    for i := 0 to |hosts|
      invariant profiles == ProfilesOf(hosts[..i], readings[..i])
    {
      assert hosts[..i + 1][..i] == hosts[..i] && readings[..i + 1][..i] == readings[..i];
      if readings[i].profiles.Some? {
        profiles := profiles[hosts[i].name := readings[i].profiles.value];
      }
    }
    assert hosts[..|hosts|] == hosts && readings[..|readings|] == readings;
    s := Snapshot(families, fold.pick, profiles, fold.aliasFamily);
    SurveyAgrees(inputs, ViewOf(index), survey, Notes(readings, |hosts|), s);
  }

  // ---- What the catalogue keeps ----

  /** Every alias the hosts produced is in the composed catalogue, unchanged but for the stores that hold it. */
  lemma AliasKept(env: Naming, v: View, families: seq<Family>, f: Family, a: Alias)
    requires f in families && a in f.names
    ensures exists g :: g in Composed(env, v, families) && g.family == f.family && HeldAlias(env, v, a) in g.names
  {
    hide Composed, StoresIn;
    var g := HeldFamily(env, v, f);
    ComposedFamilies(env, v, families, g);
    var i :| 0 <= i < |f.names| && f.names[i] == a;
    assert g.names[i] == HeldAlias(env, v, a);
  }

  /** Every named model a store holds is in the composed catalogue, under its family, with its store. */
  lemma HeldModelListed(env: Naming, v: View, held: seq<HeldObject>, families: seq<Family>, o: HeldObject, name: string)
    requires v.byFamily == ByFamilyOf(env, held) && v.spelling == SpellingOf(env, held)
    requires o in held && !IsComponent(o) && name in o.names && FamilyUnder(env, o, name) != "" && o.store != ""
    ensures exists g :: g in Composed(env, v, families) && g.family == FamilyUnder(env, o, name) && o.store in g.heldIn
  {
    hide Composed, ByFamilyOf, HeldLog, ComponentsIn, HeldAliases;
    var fam := FamilyUnder(env, o, name);
    assert FilesUnder(env, o, name, Stores(fam, o.store)) && FilesUnder(env, o, name, Spells(fam, name));
    assert Files(env, o, Stores(fam, o.store)) && Files(env, o, Spells(fam, name));
    assert Filed(env, held, Stores(fam, o.store));
    StoreHoldsFamily(env, held, fam, o.store);
    HeldFiles(env, held, Spells(fam, name));
    SpelledKnown(env, held, fam, name);
    BeforeStrictTotal();
    RankedMembers(v.byFamily[fam], Before);
    if fam in FamilyNames(families) {
      var f :| f in families && f.family == fam;
      ComposedFamilies(env, v, families, HeldFamily(env, v, f));
    } else {
      ComposedFamilies(env, v, families, StoredFamily(v, fam));
    }
  }

  lemma SpelledKnown(env: Naming, held: seq<HeldObject>, fam: string, name: string)
    requires (fam, name) in HeldLog(env, held).spelled
    ensures fam in SpellingOf(env, held)
  {
    var ds := HeldLog(env, held).spelled;
    var i :| 0 <= i < |ds| && ds[i] == (fam, name);
    assert ds[i].0 == fam;
  }
}
