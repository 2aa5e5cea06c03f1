/**
 The catalogue and the choice of a name, told from what the hosts reported:
 which aliases a survey lists, what each one carries, which host could serve a
 family for a profile, and by which of its names it is asked.
 */
module Reports {
  import opened Basics
  import opened Order
  import opened Provenance
  import opened Hosts
  import opened Catalogue
  import opened Composition
  import opened Snapshots
  import opened Routing
  import opened Decisions
  import opened Rearranging

  // ---- What one host reports ----

  /** The profiles of a host: the declared ones, else those of its wire. */
  predicate HasProfile(h: Host, profile: string) {
    if h.profiles != [] then profile in h.profiles
    else if h.wire == "openai-realtime" then profile == "live"
    else if h.chat == "" then false
    else if !h.hosted || h.wire == "openai-compatible" then
      profile == "chat" || profile == "embed" || profile == "transcription" || profile == "speech" || profile == "image"
    else if h.wire == "deepgram-prerecorded" then profile == "transcription"
    else if h.wire == "elevenlabs-stream" then profile == "speech"
    else if h.wire == "stability-v2beta" || h.wire == "fal-queue" || h.wire == "replicate-predictions" then profile == "image"
    else profile == "chat"
  }

  lemma HasProfileExact(h: Host, profile: string)
    ensures HasProfile(h, profile) <==> profile in h.HostProfiles()
  {
  }

  /** The host reports the name, in memory or on disk. */
  predicate Reported(r: Reading, name: string) {
    name in r.resident || name in r.installed
  }

  /** A name the host's own metadata speaks of serves what that says, and any other name what the host serves. */
  predicate Fit(h: Host, r: Reading, name: string, profile: string) {
    if r.profiles.Some? && name in r.profiles.value then profile in r.profiles.value[name] else HasProfile(h, profile)
  }

  /** The host lists the name in the family and serves the profile by it. */
  predicate Takes(inputs: Inputs, i: nat, fam: string, profile: string, name: string)
    requires inputs.Valid() && i < |inputs.hosts|
  {
    Reported(inputs.readings[i], name) && inputs.FamilyOf(name) == fam && Fit(inputs.hosts[i], inputs.readings[i], name, profile)
  }

  /** An alias is what host i reports of its name, field by field. */
  ghost predicate Carries(inputs: Inputs, view: View, i: nat, a: Alias)
    requires inputs.Valid() && i < |inputs.hosts|
  {
    var h, r := inputs.hosts[i], inputs.readings[i];
    && a.host == h.name && Reported(r, a.name)
    && (a.resident <==> a.name in r.resident)
    && (a.servable <==> h.chat != "") && a.hosted == h.hosted
    && a.profiles == (if r.profiles.Some? && a.name in r.profiles.value then r.profiles.value[a.name] else [])
    && a.contextLength == (if a.name in r.contexts then r.contexts[a.name].maximum else 0)
    && a.effective == (if a.name in r.contexts then r.contexts[a.name].effective else 0)
    && a.heldIn == StoresIn(view.byName, inputs.env.lower(a.name))
  }

  // ---- The snapshot of a survey ----

  /** A snapshot taken from these inputs, with hosts told apart by names that are not empty. */
  ghost predicate TakenFrom(inputs: Inputs, view: View, fold: Survey, s: Snapshot)
    reads fold
  {
    && inputs.Valid() && DistinctNames(inputs.hosts) && (forall h :: h in inputs.hosts ==> h.name != "")
    && Surveyed(inputs, view, fold, Notes(inputs.readings, |inputs.hosts|), s)
    && s.profiles == ProfilesOf(inputs.hosts, inputs.readings)
  }

  /** What routing reads as serving is what the host reported. */
  lemma FitExact(inputs: Inputs, s: Snapshot, i: nat, name: string, profile: string)
    requires inputs.Valid() && DistinctNames(inputs.hosts) && i < |inputs.hosts|
    requires s.profiles == ProfilesOf(inputs.hosts, inputs.readings)
    ensures Serves(s, inputs.hosts[i], name, profile) <==> Fit(inputs.hosts[i], inputs.readings[i], name, profile)
  {
    hide Host.HostProfiles, HasProfile;
    ProfilesFound(inputs.hosts, inputs.readings, i);
    HasProfileExact(inputs.hosts[i], profile);
  }

  lemma NotedExactly(inputs: Inputs, key: Served)
    requires inputs.Valid()
    ensures inputs.Noting(Notes(inputs.readings, |inputs.hosts|), key) <==>
            key.0 < |inputs.hosts| && Reported(inputs.readings[key.0], key.1)
    ensures inputs.NotingResident(Notes(inputs.readings, |inputs.hosts|), key) <==>
            key.0 < |inputs.hosts| && key.1 in inputs.readings[key.0].resident
  {
    var notes := Notes(inputs.readings, |inputs.hosts|);
    NotesMember(inputs.readings, |inputs.hosts|, Noted(key.0, key.1, true));
    NotesMember(inputs.readings, |inputs.hosts|, Noted(key.0, key.1, false));
    assert forall n :: n in notes && (n.host, n.name) == key ==> n == Noted(key.0, key.1, true) || n == Noted(key.0, key.1, false);
    if Noted(key.0, key.1, true) in notes {
      assert inputs.NotingResident(notes, key);
    }
    if Noted(key.0, key.1, false) in notes {
      assert inputs.Noting(notes, key);
    }
  }

  /** The alias of a listed name carries what its host reported. */
  lemma AliasCarries(inputs: Inputs, view: View, key: Served)
    requires inputs.Valid() && key.0 < |inputs.hosts| && Reported(inputs.readings[key.0], key.1)
    ensures var a := HeldAlias(inputs.env, view, inputs.AliasOf(key, key.1 in inputs.readings[key.0].resident));
            Carries(inputs, view, key.0, a) && a.name == key.1
            && forall b :: Carries(inputs, view, key.0, b) && b.name == key.1 ==> b == a
  {
    hide StoresIn;
  }

  /** The fold's alias under a key. */
  lemma Folded(inputs: Inputs, fold: Survey, fam: string, key: Served)
    requires inputs.Valid() && fold.inputs == inputs && fold.Holds(Notes(inputs.readings, |inputs.hosts|))
    ensures fam in fold.byFamily && key in fold.byFamily[fam] <==>
            fam != "" && key.0 < |inputs.hosts| && Reported(inputs.readings[key.0], key.1) && inputs.FamilyOf(key.1) == fam
    ensures fam in fold.byFamily && key in fold.byFamily[fam] ==>
              fold.byFamily[fam][key] == inputs.AliasOf(key, key.1 in inputs.readings[key.0].resident)
  {
    hide Inputs.FamilyOf, Inputs.AliasOf, Inputs.Picked, Reported, Inputs.Noting, Inputs.NotingResident;
    var notes := Notes(inputs.readings, |inputs.hosts|);
    NotedExactly(inputs, key);
    assert fold.AliasesHold(notes);
    if fam != "" && key.0 < |inputs.hosts| && Reported(inputs.readings[key.0], key.1) && inputs.FamilyOf(key.1) == fam {
      var n := NoteOf(inputs, key);
    }
  }

  lemma NoteOf(inputs: Inputs, key: Served) returns (n: Noted)
    requires inputs.Valid() && key.0 < |inputs.hosts| && Reported(inputs.readings[key.0], key.1)
    ensures n in Notes(inputs.readings, |inputs.hosts|) && n.host == key.0 && n.name == key.1
  {
    n := Noted(key.0, key.1, key.1 in inputs.readings[key.0].resident);
    NotesMember(inputs.readings, |inputs.hosts|, n);
  }

  /**
   After any survey, the aliases of hosts in a family are exactly the names the
   hosts reported that belong to it, each carrying its own host's report.
   */
  lemma AliasesExact(inputs: Inputs, view: View, fold: Survey, s: Snapshot, fam: string, a: Alias)
    requires TakenFrom(inputs, view, fold, s) && a.host != ""
    ensures a in AliasesIn(s, fam) <==>
            fam != "" && inputs.FamilyOf(a.name) == fam && exists i :: 0 <= i < |inputs.hosts| && Carries(inputs, view, i, a)
  {
    hide Composed, FamiliesListed, Carries, Inputs.FamilyOf, Inputs.AliasOf, Survey.Holds, Notes, ProfilesOf, DistinctNames, Reported;
    AliasesInFamily(s, fam, a);
    if a in AliasesIn(s, fam) {
      var f :| f in s.families && f.family == fam && a in f.names;
      var key := HostedKey(inputs, view, fold, s, f, a);
      Folded(inputs, fold, fam, key);
      AliasCarries(inputs, view, key);
    }
    if i :| fam != "" && inputs.FamilyOf(a.name) == fam && 0 <= i < |inputs.hosts| && Carries(inputs, view, i, a) {
      assert Reported(inputs.readings[i], a.name) by { CarriedListed(inputs, view, i, a); }
      Folded(inputs, fold, fam, (i, a.name));
      AliasCarries(inputs, view, (i, a.name));
      AliasIsListed(inputs, view, fold, Notes(inputs.readings, |inputs.hosts|), s, fam, (i, a.name));
    }
  }

  lemma CarriedListed(inputs: Inputs, view: View, i: nat, a: Alias)
    requires inputs.Valid() && i < |inputs.hosts| && Carries(inputs, view, i, a)
    ensures Reported(inputs.readings[i], a.name) && a.host == inputs.hosts[i].name
  {
  }

  /** The key an alias of a host was folded under. */
  lemma HostedKey(inputs: Inputs, view: View, fold: Survey, s: Snapshot, f: Family, a: Alias) returns (key: Served)
    requires inputs.Valid() && Surveyed(inputs, view, fold, Notes(inputs.readings, |inputs.hosts|), s)
    requires f in s.families && a in f.names && a.host != ""
    ensures f.family in fold.byFamily && key in fold.byFamily[f.family]
    ensures a == HeldAlias(inputs.env, view, fold.byFamily[f.family][key])
  {
    hide Composed, FamiliesListed, NamesListed, StoresIn, Survey.Holds;
    var env := inputs.env;
    ComposedFamilies(env, view, FamiliesListed(fold.byFamily), f);
    var g :| g in FamiliesListed(fold.byFamily) && f == HeldFamily(env, view, g);
    ListedFamilies(fold.byFamily, g);
    var i :| 0 <= i < |f.names| && f.names[i] == a;
    ListedNames(fold.byFamily[g.family], g.names[i]);
    key :| key in fold.byFamily[g.family] && fold.byFamily[g.family][key] == g.names[i];
  }

  // ---- Which hosts could serve ----

  /** Some name the host lists in the family serves the profile. */
  predicate TakesAny(inputs: Inputs, i: nat, fam: string, profile: string)
    requires inputs.Valid() && i < |inputs.hosts|
  {
    var r := inputs.readings[i];
    exists name :: name in r.resident + r.installed && Takes(inputs, i, fam, profile, name)
  }

  /** Some such name is in memory. */
  predicate TakesResident(inputs: Inputs, i: nat, fam: string, profile: string)
    requires inputs.Valid() && i < |inputs.hosts|
  {
    exists name :: name in inputs.readings[i].resident && Takes(inputs, i, fam, profile, name)
  }

  /** 0: holds a name that serves. 1: has one on disk. 2: is hosted and lists one. None: no endpoint, or no such name. */
  function Standing(inputs: Inputs, i: nat, fam: string, profile: string): Option<nat>
    requires inputs.Valid() && i < |inputs.hosts|
  {
    var h := inputs.hosts[i];
    if h.chat == "" || !TakesAny(inputs, i, fam, profile) then None
    else if h.hosted then Some(2)
    else if TakesResident(inputs, i, fam, profile) then Some(0)
    else Some(1)
  }

  /** The alias a host's listed name becomes. */
  ghost function AliasFor(inputs: Inputs, view: View, i: nat, name: string): Alias
    requires inputs.Valid() && i < |inputs.hosts|
  {
    HeldAlias(inputs.env, view, inputs.AliasOf((i, name), name in inputs.readings[i].resident))
  }

  lemma SameIndex(inputs: Inputs, view: View, i: nat, j: nat, a: Alias)
    requires inputs.Valid() && DistinctNames(inputs.hosts) && i < |inputs.hosts| && j < |inputs.hosts|
    requires Carries(inputs, view, j, a) && a.host == inputs.hosts[i].name
    ensures i == j
  {
  }

  /** An alias answers for host i exactly when it carries a report of that host that serves. */
  lemma AnswersExact(inputs: Inputs, view: View, fold: Survey, s: Snapshot, i: nat, fam: string, profile: string, a: Alias)
    requires TakenFrom(inputs, view, fold, s) && i < |inputs.hosts| && fam != ""
    ensures a in AliasesIn(s, fam) && Answers(s, inputs.hosts[i], profile, a) <==>
            Carries(inputs, view, i, a) && Takes(inputs, i, fam, profile, a.name)
  {
    hide Composed, Surveyed, AliasesIn, Carries, Inputs.FamilyOf, Serves, Notes, ProfilesOf, DistinctNames, Reported, Fit;
    var h := inputs.hosts[i];
    assert h in inputs.hosts && h.name != "";
    FitExact(inputs, s, i, a.name, profile);
    if a.host == h.name {
      AliasesExact(inputs, view, fold, s, fam, a);
      if j :| 0 <= j < |inputs.hosts| && Carries(inputs, view, j, a) {
        SameIndex(inputs, view, i, j, a);
        CarriedListed(inputs, view, i, a);
      }
    } else if Carries(inputs, view, i, a) {
      CarriedListed(inputs, view, i, a);
    }
  }

  lemma ForCarries(inputs: Inputs, view: View, i: nat, name: string)
    requires inputs.Valid() && i < |inputs.hosts| && Reported(inputs.readings[i], name)
    ensures Carries(inputs, view, i, AliasFor(inputs, view, i, name)) && AliasFor(inputs, view, i, name).name == name
    ensures AliasFor(inputs, view, i, name).resident <==> name in inputs.readings[i].resident
    ensures forall b :: Carries(inputs, view, i, b) && b.name == name ==> b == AliasFor(inputs, view, i, name)
  {
    hide Carries, StoresIn;
    AliasCarries(inputs, view, (i, name));
  }

  lemma TakesListed(inputs: Inputs, i: nat, fam: string, profile: string, name: string)
    requires inputs.Valid() && i < |inputs.hosts| && Takes(inputs, i, fam, profile, name)
    ensures Reported(inputs.readings[i], name)
    ensures TakesAny(inputs, i, fam, profile)
    ensures name in inputs.readings[i].resident ==> TakesResident(inputs, i, fam, profile)
  {
    var r := inputs.readings[i];
    assert name in r.resident + r.installed;
  }

  lemma CarriedResident(inputs: Inputs, view: View, i: nat, a: Alias)
    requires inputs.Valid() && i < |inputs.hosts| && Carries(inputs, view, i, a)
    ensures a.resident <==> a.name in inputs.readings[i].resident
  {
  }

  /** The class a host stands in is the one its report gives it. */
  lemma StandingExact(inputs: Inputs, view: View, fold: Survey, s: Snapshot, i: nat, fam: string, profile: string)
    requires TakenFrom(inputs, view, fold, s) && i < |inputs.hosts| && fam != ""
    ensures ClassOf(s, fam, profile, inputs.hosts[i]) == Standing(inputs, i, fam, profile)
  {
    hide TakenFrom, AliasesIn, Answers, Carries, Takes, TakesAny, TakesResident, AliasFor, Reported;
    assert inputs.Valid() by { TakenValid(inputs, view, fold, s); }
    var h := inputs.hosts[i];
    forall a ensures a in AliasesIn(s, fam) && Answers(s, h, profile, a) <==> Carries(inputs, view, i, a) && Takes(inputs, i, fam, profile, a.name) {
      AnswersExact(inputs, view, fold, s, i, fam, profile, a);
    }
    if a :| a in AliasesIn(s, fam) && Answers(s, h, profile, a) {
      TakesListed(inputs, i, fam, profile, a.name);
    }
    if a :| a in AliasesIn(s, fam) && a.resident && Answers(s, h, profile, a) {
      CarriedResident(inputs, view, i, a);
      TakesListed(inputs, i, fam, profile, a.name);
    }
    if TakesAny(inputs, i, fam, profile) {
      var name := SomeTaken(inputs, i, fam, profile);
      TakesListed(inputs, i, fam, profile, name);
      ForCarries(inputs, view, i, name);
    }
    if TakesResident(inputs, i, fam, profile) {
      var name := SomeHeld(inputs, i, fam, profile);
      TakesListed(inputs, i, fam, profile, name);
      ForCarries(inputs, view, i, name);
    }
  }

  lemma TakenValid(inputs: Inputs, view: View, fold: Survey, s: Snapshot)
    requires TakenFrom(inputs, view, fold, s)
    ensures inputs.Valid() && DistinctNames(inputs.hosts)
  {
  }

  lemma SomeTaken(inputs: Inputs, i: nat, fam: string, profile: string) returns (name: string)
    requires inputs.Valid() && i < |inputs.hosts| && TakesAny(inputs, i, fam, profile)
    ensures Takes(inputs, i, fam, profile, name)
  {
    var r := inputs.readings[i];
    name :| name in r.resident + r.installed && Takes(inputs, i, fam, profile, name);
  }

  lemma SomeHeld(inputs: Inputs, i: nat, fam: string, profile: string) returns (name: string)
    requires inputs.Valid() && i < |inputs.hosts| && TakesResident(inputs, i, fam, profile)
    ensures Takes(inputs, i, fam, profile, name) && name in inputs.readings[i].resident
  {
    name :| name in inputs.readings[i].resident && Takes(inputs, i, fam, profile, name);
  }

  // ---- By which name ----

  /** Aliases by name, those of one name together. */
  predicate InNameOrder(aliases: seq<Alias>) {
    forall p, q :: 0 <= p < q < |aliases| ==> aliases[p].name == aliases[q].name || Before(aliases[p].name, aliases[q].name)
  }

  lemma {:induction false} ListedByKey(names: map<Served, Alias>, keys: seq<Served>)
    requires forall key :: key in keys ==> key in names
    ensures var out := Flat(keys, AliasMaker(names)); |out| == |keys| && forall p :: 0 <= p < |keys| ==> out[p] == names[keys[p]]
  {
    if |keys| > 0 {
      var n := |keys| - 1;
      assert keys == keys[..n] + [keys[n]];
      ListedByKey(names, keys[..n]);
    }
  }

  lemma KeysByName(a: Served, b: Served)
    requires !ServedBefore(b, a)
    ensures a.1 == b.1 || Before(a.1, b.1)
  {
    hide Before;
    BeforeTotal(a.1, b.1);
  }

  lemma KeysRanked(keys: set<Served>)
    ensures var ks := Ranked(keys, ServedBefore);
            (forall k :: k in ks ==> k in keys) && forall p, q :: 0 <= p < q < |ks| ==> ks[p].1 == ks[q].1 || Before(ks[p].1, ks[q].1)
  {
    hide Before, Ranked, ServedBefore;
    var ks := Ranked(keys, ServedBefore);
    ServedOrder();
    RankedMembers(keys, ServedBefore);
    forall p, q | 0 <= p < q < |ks| ensures ks[p].1 == ks[q].1 || Before(ks[p].1, ks[q].1) {
      assert !ServedBefore(ks[q], ks[p]);
      KeysByName(ks[p], ks[q]);
    }
  }

  /** A family's aliases stand in name order. */
  lemma NamesOrdered(names: map<Served, Alias>)
    requires forall key :: key in names ==> names[key].name == key.1
    ensures InNameOrder(NamesListed(names))
  {
    hide Before, Ranked, ServedBefore;
    var keys := Ranked(names.Keys, ServedBefore);
    KeysRanked(names.Keys);
    ListedByKey(names, keys);
    assert NamesListed(names) == Flat(keys, AliasMaker(names));
    forall p | 0 <= p < |keys| ensures NamesListed(names)[p].name == keys[p].1 {
      assert keys[p] in keys;
    }
  }

  lemma {:induction false} NoFamily(families: seq<Family>, fam: string)
    requires forall i :: 0 <= i < |families| ==> families[i].family != fam
    ensures Flat(families, NamesIf(fam)) == []
  {
    if |families| > 0 {
      NoFamily(families[..|families| - 1], fam);
    }
  }

  lemma {:induction false} OneFamily(families: seq<Family>, fam: string)
    requires OnceEach(families)
    ensures var out := Flat(families, NamesIf(fam)); out == [] || exists f :: f in families && f.family == fam && out == f.names
  {
    if |families| > 0 {
      var n := |families| - 1;
      var front, last := families[..n], families[n];
      assert families == front + [last];
      if last.family == fam {
        NoFamily(front, fam);
        assert Flat(families, NamesIf(fam)) == last.names;
      } else {
        OneFamily(front, fam);
        assert Flat(families, NamesIf(fam)) == Flat(front, NamesIf(fam));
      }
    }
  }

  lemma HeldInOrder(env: Naming, view: View, names: seq<Alias>)
    requires InNameOrder(names)
    ensures InNameOrder(HeldAliases(env, view, names))
  {
    hide StoresIn, Before;
  }

  lemma AliasesOrdered(inputs: Inputs, view: View, fold: Survey, s: Snapshot, fam: string)
    requires TakenFrom(inputs, view, fold, s)
    ensures InNameOrder(AliasesIn(s, fam))
  {
    hide Composed, FamiliesListed, NamesListed, StoresIn, InNameOrder, Inputs.FamilyOf, Inputs.AliasOf, Reported, Notes, Survey.Holds, ProfilesOf, DistinctNames;
    var env, notes := inputs.env, Notes(inputs.readings, |inputs.hosts|);
    FamiliesOnce(fold.byFamily);
    ComposedOnce(env, view, FamiliesListed(fold.byFamily));
    OneFamily(s.families, fam);
    if AliasesIn(s, fam) == [] {
      NoneInOrder();
    } else {
      var f :| f in s.families && f.family == fam && AliasesIn(s, fam) == f.names;
      ComposedFamilies(env, view, FamiliesListed(fold.byFamily), f);
      if g :| g in FamiliesListed(fold.byFamily) && f == HeldFamily(env, view, g) {
        ListedFamilies(fold.byFamily, g);
        forall key | key in fold.byFamily[fam] ensures fold.byFamily[fam][key].name == key.1 {
          Folded(inputs, fold, fam, key);
          AliasNamed(inputs, key);
        }
        NamesOrdered(fold.byFamily[fam]);
        HeldInOrder(env, view, g.names);
      } else {
        OneInOrder(f.names[0]);
        assert f.names == [f.names[0]];
      }
    }
  }

  lemma AliasNamed(inputs: Inputs, key: Served)
    requires inputs.Valid() && key.0 < |inputs.hosts|
    ensures inputs.AliasOf(key, key.1 in inputs.readings[key.0].resident).name == key.1
  {
  }

  lemma NoneInOrder()
    ensures InNameOrder([])
  {
  }

  lemma OneInOrder(a: Alias)
    ensures InNameOrder([a])
  {
  }

  lemma OrderedFront(aliases: seq<Alias>)
    requires InNameOrder(aliases) && |aliases| > 0
    ensures InNameOrder(aliases[..|aliases| - 1])
    ensures forall a :: a in aliases[..|aliases| - 1] ==> a.name == aliases[|aliases| - 1].name || Before(a.name, aliases[|aliases| - 1].name)
  {
    hide Before;
  }

  /** The first alias that answers has the least name of all that do. */
  lemma {:induction false} FirstIsLeast(s: Snapshot, aliases: seq<Alias>, h: Host, profile: string)
    requires InNameOrder(aliases) && FirstAnswer(s, aliases, h, profile).Some?
    ensures forall b :: b in aliases && Answers(s, h, profile, b) ==>
              b.name == FirstAnswer(s, aliases, h, profile).value || Before(FirstAnswer(s, aliases, h, profile).value, b.name)
  {
    hide Answers, Before, InNameOrder;
    var n := |aliases| - 1;
    assert aliases == aliases[..n] + [aliases[n]];
    OrderedFront(aliases);
    if FirstAnswer(s, aliases[..n], h, profile).Some? {
      FirstIsLeast(s, aliases[..n], h, profile);
    }
  }

  lemma {:induction false} FirstResidentIsLeast(s: Snapshot, aliases: seq<Alias>, h: Host, profile: string)
    requires InNameOrder(aliases) && ServingResidents(s, aliases, h, profile) != []
    ensures var first := ServingResidents(s, aliases, h, profile)[0];
            forall b :: b in aliases && b.resident && Answers(s, h, profile, b) ==> b.name == first || Before(first, b.name)
  {
    hide Answers, Before, InNameOrder;
    var n := |aliases| - 1;
    assert aliases == aliases[..n] + [aliases[n]];
    OrderedFront(aliases);
    if ServingResidents(s, aliases[..n], h, profile) != [] {
      FirstResidentIsLeast(s, aliases[..n], h, profile);
      var first := ServingResidents(s, aliases[..n], h, profile)[0];
      assert first in ServingResidents(s, aliases[..n], h, profile);
    }
  }

  // ---- The recorded pick ----

  /** The last name of the family in a listing. */
  function LastOf(inputs: Inputs, names: seq<string>, fam: string): (r: Option<string>)
    ensures r.None? <==> forall k :: 0 <= k < |names| ==> inputs.FamilyOf(names[k]) != fam
    ensures r.Some? ==> exists k :: 0 <= k < |names| && names[k] == r.value && inputs.FamilyOf(names[k]) == fam
                                    && forall l :: k < l < |names| ==> inputs.FamilyOf(names[l]) != fam
  {
    if |names| == 0 then None
    else
      var n := |names| - 1;
      if inputs.FamilyOf(names[n]) == fam then Some(names[n]) else LastOf(inputs, names[..n], fam)
  }

  /** The first name of the family in a listing. */
  function FirstOf(inputs: Inputs, names: seq<string>, fam: string): (r: Option<string>)
    ensures r.None? <==> forall k :: 0 <= k < |names| ==> inputs.FamilyOf(names[k]) != fam
    ensures r.Some? ==> exists k :: 0 <= k < |names| && names[k] == r.value && inputs.FamilyOf(names[k]) == fam
                                    && forall l :: 0 <= l < k ==> inputs.FamilyOf(names[l]) != fam
  {
    if |names| == 0 then None
    else
      var n := |names| - 1;
      var before := FirstOf(inputs, names[..n], fam);
      if before.Some? then before else if inputs.FamilyOf(names[n]) == fam then Some(names[n]) else None
  }

  /** A host's own choice for a family: the last name it holds in memory, else the first it has on disk. */
  function Choice(inputs: Inputs, i: nat, fam: string): Option<string>
    requires inputs.Valid() && i < |inputs.hosts|
  {
    var r := inputs.readings[i];
    if LastOf(inputs, r.resident, fam).Some? then LastOf(inputs, r.resident, fam) else FirstOf(inputs, r.installed, fam)
  }

  /** The pick after one more listing of a host. */
  lemma {:induction false} PickedOver(inputs: Inputs, notes: seq<Noted>, names: seq<string>, resident: bool, i: nat, fam: string, host: string)
    requires i < |inputs.hosts| && inputs.Knows(notes)
    ensures inputs.Knows(notes + NotesFor(names, resident, i))
    ensures inputs.Picked(notes + NotesFor(names, resident, i), fam, host) ==
            if inputs.hosts[i].name != host then inputs.Picked(notes, fam, host)
            else if resident then (if LastOf(inputs, names, fam).Some? then LastOf(inputs, names, fam) else inputs.Picked(notes, fam, host))
            else if inputs.Picked(notes, fam, host).Some? then inputs.Picked(notes, fam, host)
            else FirstOf(inputs, names, fam)
  {
    hide Inputs.FamilyOf;
    if |names| == 0 {
      assert notes + NotesFor(names, resident, i) == notes;
    } else {
      var n := |names| - 1;
      PickedOver(inputs, notes, names[..n], resident, i, fam, host);
      var all := notes + NotesFor(names, resident, i);
      assert all[..|all| - 1] == notes + NotesFor(names[..n], resident, i);
      assert all[|all| - 1] == Noted(i, names[n], resident);
      PushKnown(inputs, notes + NotesFor(names[..n], resident, i), Noted(i, names[n], resident));
      assert all == (notes + NotesFor(names[..n], resident, i)) + [Noted(i, names[n], resident)];
    }
  }

  lemma PushKnown(inputs: Inputs, notes: seq<Noted>, n: Noted)
    requires inputs.Knows(notes) && n.host < |inputs.hosts|
    ensures inputs.Knows(notes + [n])
  {
    assert forall m :: m in notes + [n] ==> m in notes || m == n;
  }

  /** After the first hosts' listings, a host's pick is its choice, if it was among them. */
  lemma {:induction false} PickedChoice(inputs: Inputs, hosts: nat, i: nat, fam: string)
    requires inputs.Valid() && DistinctNames(inputs.hosts) && hosts <= |inputs.hosts| && i < |inputs.hosts|
    ensures inputs.Knows(Notes(inputs.readings, hosts))
    ensures inputs.Picked(Notes(inputs.readings, hosts), fam, inputs.hosts[i].name) == if i < hosts then Choice(inputs, i, fam) else None
  {
    hide Inputs.FamilyOf, LastOf, FirstOf;
    if hosts > 0 {
      var n := hosts - 1;
      var r, host := inputs.readings[n], inputs.hosts[i].name;
      PickedChoice(inputs, n, i, fam);
      assert inputs.hosts[n].name == host <==> n == i;
      PickedOver(inputs, Notes(inputs.readings, n), r.resident, true, n, fam, host);
      PickedOver(inputs, Notes(inputs.readings, n) + NotesFor(r.resident, true, n), r.installed, false, n, fam, host);
    }
  }

  /** The pick a survey records is the host's choice. */
  lemma PickExact(inputs: Inputs, view: View, fold: Survey, s: Snapshot, i: nat, fam: string)
    requires TakenFrom(inputs, view, fold, s) && i < |inputs.hosts| && fam != ""
    ensures fam in s.pick && inputs.hosts[i].name in s.pick[fam] <==> Choice(inputs, i, fam).Some?
    ensures fam in s.pick && inputs.hosts[i].name in s.pick[fam] ==> Choice(inputs, i, fam) == Some(s.pick[fam][inputs.hosts[i].name])
  {
    hide Composed, FamiliesListed, Inputs.FamilyOf, Inputs.Picked, Choice, Notes, ProfilesOf, Survey.AliasesHold, Survey.NamesHold;
    PickedChoice(inputs, |inputs.hosts|, i, fam);
    assert fold.PicksHold(Notes(inputs.readings, |inputs.hosts|));
  }

  /** The name a host that could serve is asked by. */
  ghost predicate AskedBy(inputs: Inputs, i: nat, fam: string, profile: string, name: string)
    requires inputs.Valid() && i < |inputs.hosts|
  {
    && Takes(inputs, i, fam, profile, name)
    && if !inputs.hosts[i].hosted && TakesResident(inputs, i, fam, profile) then
         // In memory: the least such name.
         && name in inputs.readings[i].resident
         && forall other :: other in inputs.readings[i].resident && Takes(inputs, i, fam, profile, other) ==> other == name || Before(name, other)
       else if Choice(inputs, i, fam).Some? && Takes(inputs, i, fam, profile, Choice(inputs, i, fam).value) then
         // Its own choice, when that serves.
         name == Choice(inputs, i, fam).value
       else
         // The least name that does.
         forall other :: Takes(inputs, i, fam, profile, other) ==> other == name || Before(name, other)
  }

  lemma ChoiceTakes(inputs: Inputs, i: nat, fam: string, profile: string)
    requires inputs.Valid() && i < |inputs.hosts| && Choice(inputs, i, fam).Some?
    ensures Takes(inputs, i, fam, profile, Choice(inputs, i, fam).value) <==>
            Fit(inputs.hosts[i], inputs.readings[i], Choice(inputs, i, fam).value, profile)
  {
    hide Inputs.FamilyOf, Fit;
  }

  /** A host that could serve is asked by the name its report gives. */
  lemma NameExact(inputs: Inputs, view: View, fold: Survey, s: Snapshot, i: nat, fam: string, profile: string)
    requires TakenFrom(inputs, view, fold, s) && i < |inputs.hosts| && fam != "" && Standing(inputs, i, fam, profile).Some?
    ensures AskedBy(inputs, i, fam, profile, NameFor(s, fam, profile, inputs.hosts[i]))
  {
    hide TakenFrom, AliasesIn, Answers, Carries, Takes, TakesResident, Reported, Choice, InNameOrder, Before, Serves, FirstAnswer, ServingResidents, Fit;
    assert inputs.Valid() && s.profiles == ProfilesOf(inputs.hosts, inputs.readings) by { TakenProfiles(inputs, view, fold, s); }
    TakenValid(inputs, view, fold, s);
    var h, aliases := inputs.hosts[i], AliasesIn(s, fam);
    AliasesOrdered(inputs, view, fold, s, fam);
    PickExact(inputs, view, fold, s, i, fam);
    forall a ensures a in aliases && Answers(s, h, profile, a) <==> Carries(inputs, view, i, a) && Takes(inputs, i, fam, profile, a.name) {
      AnswersExact(inputs, view, fold, s, i, fam, profile, a);
    }
    forall a | Carries(inputs, view, i, a) && Takes(inputs, i, fam, profile, a.name)
      ensures (a.resident <==> a.name in inputs.readings[i].resident) && (a.resident ==> TakesResident(inputs, i, fam, profile))
    {
      CarriedResident(inputs, view, i, a);
      TakesListed(inputs, i, fam, profile, a.name);
    }
    forall name | Takes(inputs, i, fam, profile, name)
      ensures exists a :: a in aliases && Answers(s, h, profile, a) && a.name == name && (a.resident <==> name in inputs.readings[i].resident)
    {
      TakesListed(inputs, i, fam, profile, name);
      ForCarries(inputs, view, i, name);
      assert AliasFor(inputs, view, i, name) in aliases;
    }
    var held := ServingResidents(s, aliases, h, profile);
    if held != [] {
      FirstResidentIsLeast(s, aliases, h, profile);
      assert held[0] in held;
    }
    if TakesResident(inputs, i, fam, profile) {
      var name := SomeHeld(inputs, i, fam, profile);
    }
    var name := SomeTaken(inputs, i, fam, profile);
    if FirstAnswer(s, aliases, h, profile).Some? {
      FirstIsLeast(s, aliases, h, profile);
    }
    if Choice(inputs, i, fam).Some? {
      FitExact(inputs, s, i, Choice(inputs, i, fam).value, profile);
      ChoiceTakes(inputs, i, fam, profile);
    }
  }

  lemma TakenProfiles(inputs: Inputs, view: View, fold: Survey, s: Snapshot)
    requires TakenFrom(inputs, view, fold, s)
    ensures inputs.Valid() && s.profiles == ProfilesOf(inputs.hosts, inputs.readings)
  {
  }
}
