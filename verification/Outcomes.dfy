/** Every decision told from what the hosts reported: who is chosen, by which name, and how a decision ends that chooses nobody. */
module Outcomes {
  import opened Basics
  import opened Order
  import opened Provenance
  import opened Identity
  import opened Hosts
  import opened Catalogue
  import opened Composition
  import opened Snapshots
  import opened Routing
  import opened Decisions
  import opened Reports
  import Rearranging

  // ---- The family asked for ----

  /** Some host reports a name of this lower-cased spelling. */
  predicate Spelled(inputs: Inputs, key: string)
    requires inputs.Valid()
  {
    exists i :: 0 <= i < |inputs.hosts| && SpelledBy(inputs, i, key)
  }

  predicate SpelledBy(inputs: Inputs, i: nat, key: string)
    requires inputs.Valid() && i < |inputs.hosts|
  {
    var r := inputs.readings[i];
    exists name :: name in r.resident + r.installed && inputs.env.lower(name) == key
  }

  /** A name some host reports is asked for under the family it was surveyed in, any other under the family its spelling gives. */
  lemma FamilyAsked(inputs: Inputs, view: View, fold: Survey, s: Snapshot, name: string)
    requires TakenFrom(inputs, view, fold, s)
    ensures FamilyFor(inputs.env, s, name) ==
            if Spelled(inputs, inputs.env.lower(name)) then inputs.FamilyOf(name) else inputs.env.known(inputs.env.lower(name))
  {
    hide Composed, FamiliesListed, Inputs.Picked, ProfilesOf, Survey.AliasesHold, Survey.PicksHold, Notes, DistinctNames;
    var notes, key := Notes(inputs.readings, |inputs.hosts|), inputs.env.lower(name);
    assert fold.NamesHold(notes);
    if Spelled(inputs, key) {
      var i :| 0 <= i < |inputs.hosts| && SpelledBy(inputs, i, key);
      var other :| other in inputs.readings[i].resident + inputs.readings[i].installed && inputs.env.lower(other) == key;
      assert Reported(inputs.readings[i], other);
      var n := NoteOf(inputs, (i, other));
      assert inputs.FamilyOf(other) == inputs.FamilyOf(name);
    } else {
      NotSpelled(inputs, fold, key);
    }
  }

  lemma NotSpelled(inputs: Inputs, fold: Survey, key: string)
    requires inputs.Valid() && fold.inputs == inputs && fold.NamesHold(Notes(inputs.readings, |inputs.hosts|))
    ensures key in fold.aliasFamily ==> Spelled(inputs, key)
  {
    hide Inputs.FamilyOf;
    if key in fold.aliasFamily {
      var n :| n in Notes(inputs.readings, |inputs.hosts|) && inputs.FamilyOf(n.name) != "" && inputs.env.lower(n.name) == key;
      NotedReported(inputs, n);
      assert SpelledBy(inputs, n.host, key);
    }
  }

  lemma NotedReported(inputs: Inputs, n: Noted)
    requires inputs.Valid() && n in Notes(inputs.readings, |inputs.hosts|)
    ensures n.host < |inputs.hosts| && n.name in inputs.readings[n.host].resident + inputs.readings[n.host].installed
  {
    Rearranging.NotesMember(inputs.readings, |inputs.hosts|, n);
  }

  // ---- The gate ----

  /** The host lists a name of some family. */
  predicate ListsAny(inputs: Inputs, i: nat)
    requires inputs.Valid() && i < |inputs.hosts|
  {
    var r := inputs.readings[i];
    exists name :: name in r.resident + r.installed && inputs.FamilyOf(name) != ""
  }

  /** The host serves the profile by a name of some family. */
  predicate FitsAny(inputs: Inputs, i: nat, profile: string)
    requires inputs.Valid() && i < |inputs.hosts|
  {
    var r := inputs.readings[i];
    exists name :: name in r.resident + r.installed && inputs.FamilyOf(name) != "" && Fit(inputs.hosts[i], r, name, profile)
  }

  /** Some host with an endpoint serves the profile, by a name it lists or, listing none, by itself; or no host has an endpoint. */
  predicate Open(inputs: Inputs, profile: string)
    requires inputs.Valid()
  {
    || (forall i :: 0 <= i < |inputs.hosts| ==> inputs.hosts[i].chat == "")
    || exists i :: 0 <= i < |inputs.hosts| && OpenAt(inputs, i, profile)
  }

  predicate OpenAt(inputs: Inputs, i: nat, profile: string)
    requires inputs.Valid() && i < |inputs.hosts|
  {
    inputs.hosts[i].chat != "" && if ListsAny(inputs, i) then FitsAny(inputs, i, profile) else HasProfile(inputs.hosts[i], profile)
  }

  lemma InSomeFamily(s: Snapshot, h: Host, a: Alias)
    ensures Known(s, h, a) <==> a.host == h.name && exists fam :: a in AliasesIn(s, fam)
  {
    if f :| f in s.families && a in f.names {
      AliasesInFamily(s, f.family, a);
    }
    if fam :| a in AliasesIn(s, fam) {
      AliasesInFamily(s, fam, a);
    }
  }

  /** An alias is known for host i exactly when it carries a report of that host in some family. */
  lemma KnownExact(inputs: Inputs, view: View, fold: Survey, s: Snapshot, i: nat, a: Alias)
    requires TakenFrom(inputs, view, fold, s) && i < |inputs.hosts|
    ensures Known(s, inputs.hosts[i], a) <==> Carries(inputs, view, i, a) && inputs.FamilyOf(a.name) != ""
  {
    hide Composed, Surveyed, AliasesIn, Carries, Inputs.FamilyOf, Notes, ProfilesOf, DistinctNames, Known;
    var h := inputs.hosts[i];
    InSomeFamily(s, h, a);
    assert h in inputs.hosts && h.name != "";
    if a.host == h.name {
      if fam :| a in AliasesIn(s, fam) {
        AliasesExact(inputs, view, fold, s, fam, a);
        var j :| 0 <= j < |inputs.hosts| && Carries(inputs, view, j, a);
        SameIndex(inputs, view, i, j, a);
      }
      AliasesExact(inputs, view, fold, s, inputs.FamilyOf(a.name), a);
    } else if Carries(inputs, view, i, a) {
      CarriedListed(inputs, view, i, a);
    }
  }

  lemma OpenHost(inputs: Inputs, view: View, fold: Survey, s: Snapshot, i: nat, profile: string)
    requires TakenFrom(inputs, view, fold, s) && i < |inputs.hosts|
    ensures HostServes(s, inputs.hosts[i], profile) <==> if ListsAny(inputs, i) then FitsAny(inputs, i, profile) else HasProfile(inputs.hosts[i], profile)
  {
    hide TakenFrom, Carries, Inputs.FamilyOf, Known, AliasFor, Fit, Serves, HasProfile, Host.HostProfiles;
    TakenValid(inputs, view, fold, s);
    TakenProfiles(inputs, view, fold, s);
    var h, r := inputs.hosts[i], inputs.readings[i];
    HasProfileExact(h, profile);
    forall a ensures Known(s, h, a) <==> Carries(inputs, view, i, a) && inputs.FamilyOf(a.name) != "" {
      KnownExact(inputs, view, fold, s, i, a);
    }
    forall name ensures Serves(s, h, name, profile) <==> Fit(h, r, name, profile) {
      FitExact(inputs, s, i, name, profile);
    }
    forall a | Known(s, h, a) ensures a.name in r.resident + r.installed {
      CarriedListed(inputs, view, i, a);
    }
    forall name | name in r.resident + r.installed && inputs.FamilyOf(name) != "" ensures exists a :: Known(s, h, a) && a.name == name {
      ForCarries(inputs, view, i, name);
      assert Known(s, h, AliasFor(inputs, view, i, name));
    }
  }

  lemma OpenExact(inputs: Inputs, view: View, fold: Survey, s: Snapshot, profile: string)
    requires TakenFrom(inputs, view, fold, s)
    ensures AnyServes(s, inputs.hosts, profile) <==> Open(inputs, profile)
  {
    hide TakenFrom, HostServes, ListsAny, FitsAny, HasProfile;
    TakenValid(inputs, view, fold, s);
    forall i | 0 <= i < |inputs.hosts|
      ensures OpenAt(inputs, i, profile) <==> inputs.hosts[i].Servable() && HostServes(s, inputs.hosts[i], profile)
    {
      OpenHost(inputs, view, fold, s, i, profile);
    }
    if h :| h in inputs.hosts && h.Servable() && HostServes(s, h, profile) {
      var i :| 0 <= i < |inputs.hosts| && inputs.hosts[i] == h;
      assert OpenAt(inputs, i, profile);
    }
  }

  // ---- Who has the family ----

  /** The host lists a name of the family. */
  predicate Has(inputs: Inputs, i: nat, fam: string)
    requires inputs.Valid() && i < |inputs.hosts|
  {
    var r := inputs.readings[i];
    exists name :: name in r.resident + r.installed && inputs.FamilyOf(name) == fam
  }

  /** The hosts named as having the family are exactly those that report a name of it. */
  lemma InstalledExact(inputs: Inputs, view: View, fold: Survey, s: Snapshot, fam: string, host: string)
    requires TakenFrom(inputs, view, fold, s) && fam != ""
    ensures host in InstalledOn(AliasesIn(s, fam)) <==> exists i :: 0 <= i < |inputs.hosts| && inputs.hosts[i].name == host && Has(inputs, i, fam)
  {
    hide TakenFrom, AliasesIn, Carries, Inputs.FamilyOf, AliasFor;
    TakenValid(inputs, view, fold, s);
    if host in InstalledOn(AliasesIn(s, fam)) {
      var a :| a in AliasesIn(s, fam) && a.host == host && host != "";
      AliasesExact(inputs, view, fold, s, fam, a);
      var i :| 0 <= i < |inputs.hosts| && Carries(inputs, view, i, a);
      CarriedListed(inputs, view, i, a);
      assert a.name in inputs.readings[i].resident + inputs.readings[i].installed;
    }
    if i :| 0 <= i < |inputs.hosts| && inputs.hosts[i].name == host && Has(inputs, i, fam) {
      var r := inputs.readings[i];
      var name :| name in r.resident + r.installed && inputs.FamilyOf(name) == fam;
      ForCarries(inputs, view, i, name);
      CarriedListed(inputs, view, i, AliasFor(inputs, view, i, name));
      NamedHost(inputs, view, fold, s, i);
      AliasesExact(inputs, view, fold, s, fam, AliasFor(inputs, view, i, name));
    }
  }

  lemma NamedHost(inputs: Inputs, view: View, fold: Survey, s: Snapshot, i: nat)
    requires TakenFrom(inputs, view, fold, s) && i < |inputs.hosts|
    ensures inputs.hosts[i].name != ""
  {
    assert inputs.hosts[i] in inputs.hosts;
  }

  // ---- The decision ----

  /** The request's allowance permits the host, and the host could serve. */
  predicate Eligible(inputs: Inputs, i: nat, fam: string, profile: string, allowed: Option<seq<string>>)
    requires inputs.Valid() && i < |inputs.hosts|
  {
    Standing(inputs, i, fam, profile).Some? && (allowed.None? || inputs.hosts[i].name in allowed.value)
  }

  /** Host j comes before host i: in a lower class, or in the same class and listed earlier. */
  predicate Preferred(inputs: Inputs, j: nat, i: nat, fam: string, profile: string)
    requires inputs.Valid() && i < |inputs.hosts| && j < |inputs.hosts|
  {
    var a, b := Standing(inputs, j, fam, profile), Standing(inputs, i, fam, profile);
    a.Some? && b.Some? && (a.value < b.value || (a.value == b.value && j < i))
  }

  lemma PreferredExact(inputs: Inputs, view: View, fold: Survey, s: Snapshot, j: nat, i: nat, fam: string, profile: string)
    requires TakenFrom(inputs, view, fold, s) && i < |inputs.hosts| && j < |inputs.hosts| && fam != ""
    ensures Ahead(s, inputs.hosts, fam, profile, inputs.hosts[j], inputs.hosts[i]) <==> Preferred(inputs, j, i, fam, profile)
  {
    hide TakenFrom, ClassOf, Standing, PlaceOf;
    TakenValid(inputs, view, fold, s);
    StandingExact(inputs, view, fold, s, i, fam, profile);
    StandingExact(inputs, view, fold, s, j, fam, profile);
    PlaceIs(inputs.hosts, i);
    PlaceIs(inputs.hosts, j);
  }

  /** The verdict a class gives. */
  function VerdictIn(rank: nat): Verdict {
    if rank == 0 then Resident else if rank == 1 then WouldLoad else Hosted
  }

  /** What a decision says that chose host i. */
  ghost predicate Chooses(inputs: Inputs, i: nat, fam: string, profile: string, allowed: Option<seq<string>>, d: Decision)
    requires inputs.Valid() && i < |inputs.hosts|
  {
    var h := inputs.hosts[i];
    && Eligible(inputs, i, fam, profile, allowed)
    && (forall j :: 0 <= j < |inputs.hosts| && Eligible(inputs, j, fam, profile, allowed) ==> !Preferred(inputs, j, i, fam, profile))
    && d.host == h.name && AskedBy(inputs, i, fam, profile, d.model)
    && d.endpoint == (if h.hosted || h.native then "" else h.base + h.chat)
    && d.verdict == VerdictIn(Standing(inputs, i, fam, profile).value)
    && d.loads == (if Standing(inputs, i, fam, profile).value == 1 then 1 else 0)
    && (forall j :: 0 <= j < |inputs.hosts| ==> (inputs.hosts[j].name in d.withheld <==> Preferred(inputs, j, i, fam, profile)))
  }

  /** Some host could serve the family for the profile. */
  predicate AnyStands(inputs: Inputs, fam: string, profile: string)
    requires inputs.Valid()
  {
    exists i :: 0 <= i < |inputs.hosts| && Standing(inputs, i, fam, profile).Some?
  }

  predicate AnyEligible(inputs: Inputs, fam: string, profile: string, allowed: Option<seq<string>>)
    requires inputs.Valid()
  {
    exists i :: 0 <= i < |inputs.hosts| && Eligible(inputs, i, fam, profile, allowed)
  }

  /** How a decision ends that chooses nobody. */
  function Ending(inputs: Inputs, fam: string, profile: string): Verdict
    requires inputs.Valid()
  {
    if AnyStands(inputs, fam, profile) then Unauthorised
    else if !Open(inputs, profile) then NoHost
    else if exists i :: 0 <= i < |inputs.hosts| && inputs.hosts[i].chat != "" && Has(inputs, i, fam) then NoHost
    else if exists i :: 0 <= i < |inputs.hosts| && Has(inputs, i, fam) then Unservable
    else NotHere
  }

  /** What a decision says that chose nobody: every host that could serve is withheld. */
  predicate ChoosesNobody(inputs: Inputs, fam: string, profile: string, d: Decision)
    requires inputs.Valid()
  {
    && d.host == "" && d.model == "" && d.endpoint == "" && d.loads == 0 && d.verdict == Ending(inputs, fam, profile)
    && forall j :: 0 <= j < |inputs.hosts| ==> (inputs.hosts[j].name in d.withheld <==> Standing(inputs, j, fam, profile).Some?)
  }

  /** The decision's own branches, over the list of candidates. */
  lemma DecideEndings(env: Naming, s: Snapshot, hosts: seq<Host>, req: Request)
    ensures var d, fam, profile := Decide(env, s, hosts, req), FamilyFor(env, s, req.model), ProfileOf(req);
            var on := InstalledOn(AliasesIn(s, fam));
            && d.asked == req.model && d.family == fam && d.authorised == req.allowed
            && (fam == "" ==> d == Decision(req.model, "", Unparseable, "", "", "", [], req.allowed, [], 0))
            && (fam != "" ==> d.installedOn == on)
            && (fam != "" && !Chosen(d.verdict) ==> d.host == "" && d.model == "" && d.endpoint == "" && d.loads == 0)
            && (fam != "" && Candidates(s, hosts, fam, profile) == [] ==>
                  d.verdict == if !AnyServes(s, hosts, profile) || (exists h :: h in hosts && h.Servable() && h.name in on) then NoHost
                               else if on != [] then Unservable else NotHere)
  {
    hide Candidates, AnyServes, InstalledOn, AliasesIn;
    DecideByCandidates(env, s, hosts, req);
  }

  lemma CouldServe(inputs: Inputs, view: View, fold: Survey, s: Snapshot, req: Request, i: nat)
    requires TakenFrom(inputs, view, fold, s) && i < |inputs.hosts| && FamilyFor(inputs.env, s, req.model) != ""
    ensures Could(inputs.env, s, req, inputs.hosts[i]) <==>
            Standing(inputs, i, FamilyFor(inputs.env, s, req.model), ProfileOf(req)).Some?
  {
    hide TakenFrom, ClassOf, Standing;
    TakenValid(inputs, view, fold, s);
    StandingExact(inputs, view, fold, s, i, FamilyFor(inputs.env, s, req.model), ProfileOf(req));
  }

  lemma HostIndex(hosts: seq<Host>, h: Host) returns (i: nat)
    requires h in hosts
    ensures i < |hosts| && hosts[i] == h
  {
    i :| 0 <= i < |hosts| && hosts[i] == h;
  }

  /** A decision that chose a host says what that host reported. */
  lemma ChosenExact(inputs: Inputs, view: View, fold: Survey, s: Snapshot, req: Request) returns (i: nat)
    requires TakenFrom(inputs, view, fold, s) && FamilyFor(inputs.env, s, req.model) != ""
    requires Chosen(Decide(inputs.env, s, inputs.hosts, req).verdict)
    ensures i < |inputs.hosts|
    ensures Chooses(inputs, i, FamilyFor(inputs.env, s, req.model), ProfileOf(req), req.allowed, Decide(inputs.env, s, inputs.hosts, req))
  {
    hide TakenFrom, Decide, ClassOf, Standing, Ahead, Could, NameFor, AskedBy, Candidates, Preferred;
    TakenValid(inputs, view, fold, s);
    var env, hosts := inputs.env, inputs.hosts;
    var d, fam, profile := Decide(env, s, hosts, req), FamilyFor(env, s, req.model), ProfileOf(req);
    var h := ChosenHost(env, s, hosts, req);
    i := HostIndex(hosts, h);
    ChoosesTheBest(env, s, hosts, req, h);
    StandingExact(inputs, view, fold, s, i, fam, profile);
    NameExact(inputs, view, fold, s, i, fam, profile);
    StandingBounded(inputs, i, fam, profile);
    forall j | 0 <= j < |hosts|
      ensures Eligible(inputs, j, fam, profile, req.allowed) ==> !Preferred(inputs, j, i, fam, profile)
      ensures hosts[j].name in d.withheld <==> Preferred(inputs, j, i, fam, profile)
    {
      PreferredExact(inputs, view, fold, s, j, i, fam, profile);
      WithholdsExactly(env, s, hosts, req, hosts[j]);
      forall g | g in hosts && g.name == d.host ensures g == h {
        SameHost(hosts, g, h);
      }
    }
  }

  /** The host a choosing decision names is one of the hosts. */
  lemma ChosenHost(env: Naming, s: Snapshot, hosts: seq<Host>, req: Request) returns (h: Host)
    requires FamilyFor(env, s, req.model) != "" && Chosen(Decide(env, s, hosts, req).verdict)
    ensures h in hosts && h.name == Decide(env, s, hosts, req).host
  {
    hide Candidates, Decide, ClassOf, NameFor;
    DecideByCandidates(env, s, hosts, req);
    var cs := Candidates(s, hosts, FamilyFor(env, s, req.model), ProfileOf(req));
    var c := cs[FirstPermitted(cs, req.allowed)];
    CandidateExact(s, hosts, FamilyFor(env, s, req.model), ProfileOf(req), c);
    h := c.host;
  }

  lemma StandingBounded(inputs: Inputs, i: nat, fam: string, profile: string)
    requires inputs.Valid() && i < |inputs.hosts|
    ensures Standing(inputs, i, fam, profile).Some? ==> Standing(inputs, i, fam, profile).value <= 2 && inputs.hosts[i].chat != ""
  {
  }

  lemma NobodyStands(inputs: Inputs, view: View, fold: Survey, s: Snapshot, fam: string, profile: string)
    requires TakenFrom(inputs, view, fold, s) && fam != "" && !AnyStands(inputs, fam, profile)
    ensures Candidates(s, inputs.hosts, fam, profile) == []
  {
    hide TakenFrom, ClassOf, Standing, NameFor, Candidates;
    TakenValid(inputs, view, fold, s);
    var cs := Candidates(s, inputs.hosts, fam, profile);
    if cs != [] {
      CandidateExact(s, inputs.hosts, fam, profile, cs[0]);
      var i := HostIndex(inputs.hosts, cs[0].host);
      StandingExact(inputs, view, fold, s, i, fam, profile);
    }
  }

  /** How the router ends with no candidate, told from who has the family. */
  lemma EndingExact(inputs: Inputs, view: View, fold: Survey, s: Snapshot, fam: string, profile: string)
    requires TakenFrom(inputs, view, fold, s) && fam != "" && !AnyStands(inputs, fam, profile)
    ensures var on := InstalledOn(AliasesIn(s, fam));
            Ending(inputs, fam, profile) ==
            if !AnyServes(s, inputs.hosts, profile) || (exists h :: h in inputs.hosts && h.Servable() && h.name in on) then NoHost
            else if on != [] then Unservable else NotHere
  {
    hide TakenFrom, AnyStands, AnyServes, Open, Has, InstalledOn, AliasesIn;
    TakenValid(inputs, view, fold, s);
    OpenExact(inputs, view, fold, s, profile);
    var on := InstalledOn(AliasesIn(s, fam));
    forall host: string ensures host in on <==> exists i :: 0 <= i < |inputs.hosts| && inputs.hosts[i].name == host && Has(inputs, i, fam) {
      InstalledExact(inputs, view, fold, s, fam, host);
    }
    forall i | 0 <= i < |inputs.hosts| ensures inputs.hosts[i].name in on <==> Has(inputs, i, fam) {
      if inputs.hosts[i].name in on {
        var j :| 0 <= j < |inputs.hosts| && inputs.hosts[j].name == inputs.hosts[i].name && Has(inputs, j, fam);
        SameHostIndex(inputs.hosts, i, j);
      }
    }
    if h :| h in inputs.hosts && h.Servable() && h.name in on {
      var i := HostIndex(inputs.hosts, h);
    }
    if on != [] {
      assert on[0] in on;
    }
  }

  lemma SameHostIndex(hosts: seq<Host>, i: nat, j: nat)
    requires DistinctNames(hosts) && i < |hosts| && j < |hosts| && hosts[i].name == hosts[j].name
    ensures i == j
  {
  }

  /**
   The whole decision, from the hosts and their reports: no family, and the
   request is unparseable; a host may serve and is permitted, and the one chosen
   is in the best class and earliest there; otherwise the way it ends.
   */
  lemma DecisionExact(inputs: Inputs, view: View, fold: Survey, s: Snapshot, req: Request)
    requires TakenFrom(inputs, view, fold, s)
    ensures var d, fam := Decide(inputs.env, s, inputs.hosts, req), FamilyFor(inputs.env, s, req.model);
            var profile := if req.profile == "" then "chat" else req.profile;
            && d.asked == req.model && d.family == fam && d.authorised == req.allowed
            && (fam == "" ==> d == Decision(req.model, "", Unparseable, "", "", "", [], req.allowed, [], 0))
            && (fam != "" ==>
                  && (forall host :: host in d.installedOn <==> exists i :: 0 <= i < |inputs.hosts| && inputs.hosts[i].name == host && Has(inputs, i, fam))
                  && if AnyEligible(inputs, fam, profile, req.allowed)
                     then exists i :: 0 <= i < |inputs.hosts| && Chooses(inputs, i, fam, profile, req.allowed, d)
                     else ChoosesNobody(inputs, fam, profile, d))
  {
    hide TakenFrom, Decide, ClassOf, Standing, Ahead, Could, Has, Chooses, Ending, Candidates, InstalledOn, AliasesIn, AnyServes;
    TakenValid(inputs, view, fold, s);
    var env, hosts := inputs.env, inputs.hosts;
    var d, fam, profile := Decide(env, s, hosts, req), FamilyFor(env, s, req.model), ProfileOf(req);
    DecideEndings(env, s, hosts, req);
    if fam != "" {
      forall host: string ensures host in d.installedOn <==> exists i :: 0 <= i < |hosts| && hosts[i].name == host && Has(inputs, i, fam) {
        InstalledExact(inputs, view, fold, s, fam, host);
      }
      ChoosesWhenItCan(env, s, hosts, req);
      forall i | 0 <= i < |hosts| ensures Could(env, s, req, hosts[i]) <==> Standing(inputs, i, fam, profile).Some? {
        CouldServe(inputs, view, fold, s, req, i);
      }
      EligibleExact(inputs, s, req);
      if Chosen(d.verdict) {
        var i := ChosenExact(inputs, view, fold, s, req);
      } else {
        NobodyChosen(inputs, view, fold, s, req);
      }
    }
  }

  lemma EligibleExact(inputs: Inputs, s: Snapshot, req: Request)
    requires inputs.Valid()
    requires forall i :: 0 <= i < |inputs.hosts| ==>
               (Could(inputs.env, s, req, inputs.hosts[i]) <==> Standing(inputs, i, FamilyFor(inputs.env, s, req.model), ProfileOf(req)).Some?)
    ensures AnyEligible(inputs, FamilyFor(inputs.env, s, req.model), ProfileOf(req), req.allowed) <==>
            exists h :: h in inputs.hosts && Permits(req.allowed, h.name) && Could(inputs.env, s, req, h)
    ensures AnyStands(inputs, FamilyFor(inputs.env, s, req.model), ProfileOf(req)) <==>
            exists h :: h in inputs.hosts && Could(inputs.env, s, req, h)
  {
    hide Could, Standing;
    if h :| h in inputs.hosts && Permits(req.allowed, h.name) && Could(inputs.env, s, req, h) {
      var i := HostIndex(inputs.hosts, h);
      assert Eligible(inputs, i, FamilyFor(inputs.env, s, req.model), ProfileOf(req), req.allowed);
    }
    if h :| h in inputs.hosts && Could(inputs.env, s, req, h) {
      var i := HostIndex(inputs.hosts, h);
    }
  }

  lemma NobodyChosen(inputs: Inputs, view: View, fold: Survey, s: Snapshot, req: Request)
    requires TakenFrom(inputs, view, fold, s) && FamilyFor(inputs.env, s, req.model) != ""
    requires !Chosen(Decide(inputs.env, s, inputs.hosts, req).verdict)
    ensures ChoosesNobody(inputs, FamilyFor(inputs.env, s, req.model), ProfileOf(req), Decide(inputs.env, s, inputs.hosts, req))
  {
    hide TakenFrom, Decide, ClassOf, Standing, Ahead, Could, Has, Candidates, InstalledOn, AliasesIn, AnyServes, Open;
    TakenValid(inputs, view, fold, s);
    var env, hosts := inputs.env, inputs.hosts;
    var d, fam, profile := Decide(env, s, hosts, req), FamilyFor(env, s, req.model), ProfileOf(req);
    DecideEndings(env, s, hosts, req);
    ChoosesWhenItCan(env, s, hosts, req);
    forall i | 0 <= i < |hosts|
      ensures Could(env, s, req, hosts[i]) <==> Standing(inputs, i, fam, profile).Some?
      ensures hosts[i].name in d.withheld <==> Standing(inputs, i, fam, profile).Some?
    {
      CouldServe(inputs, view, fold, s, req, i);
      WithholdsExactly(env, s, hosts, req, hosts[i]);
    }
    EligibleExact(inputs, s, req);
    if !AnyStands(inputs, fam, profile) {
      NobodyStands(inputs, view, fold, s, fam, profile);
      EndingExact(inputs, view, fold, s, fam, profile);
    }
  }

  // ---- What a host's own metadata does ----

  /** A name the router chose is one the chosen host reported, for a profile its metadata reports for the name, or that the host has when the metadata is silent. */
  lemma RouteTakesReported(inputs: Inputs, view: View, fold: Survey, s: Snapshot, req: Request, i: nat)
    requires TakenFrom(inputs, view, fold, s) && i < |inputs.hosts| && FamilyFor(inputs.env, s, req.model) != ""
    requires var d := Decide(inputs.env, s, inputs.hosts, req); Chosen(d.verdict) && d.host == inputs.hosts[i].name
    ensures var d, r := Decide(inputs.env, s, inputs.hosts, req), inputs.readings[i];
            && (d.model in r.resident || d.model in r.installed) && inputs.FamilyOf(d.model) == d.family
            && (r.profiles.Some? && d.model in r.profiles.value ==> ProfileOf(req) in r.profiles.value[d.model])
            && (r.profiles.None? || d.model !in r.profiles.value ==> ProfileOf(req) in inputs.hosts[i].HostProfiles())
  {
    hide TakenFrom, Decide, Standing, Preferred, Host.HostProfiles, HasProfile, Inputs.FamilyOf;
    TakenValid(inputs, view, fold, s);
    var k := ChosenExact(inputs, view, fold, s, req);
    SameHostIndex(inputs.hosts, i, k);
    DecideEndings(inputs.env, s, inputs.hosts, req);
    HasProfileExact(inputs.hosts[i], ProfileOf(req));
  }

  /** A host with an endpoint that lists such a name of the family is a candidate. */
  lemma TakenIsCandidate(inputs: Inputs, view: View, fold: Survey, s: Snapshot, i: nat, fam: string, profile: string, name: string)
    requires TakenFrom(inputs, view, fold, s) && i < |inputs.hosts| && fam != "" && inputs.hosts[i].chat != ""
    requires var r := inputs.readings[i];
             && (name in r.resident || name in r.installed) && inputs.FamilyOf(name) == fam
             && (if r.profiles.Some? && name in r.profiles.value then profile in r.profiles.value[name] else profile in inputs.hosts[i].HostProfiles())
    ensures exists c :: c in Candidates(s, inputs.hosts, fam, profile) && c.host == inputs.hosts[i]
  {
    hide TakenFrom, ClassOf, NameFor, Candidates, Host.HostProfiles, HasProfile, Inputs.FamilyOf;
    TakenValid(inputs, view, fold, s);
    HasProfileExact(inputs.hosts[i], profile);
    TakesListed(inputs, i, fam, profile, name);
    StandingExact(inputs, view, fold, s, i, fam, profile);
    var h := inputs.hosts[i];
    CandidateExact(s, inputs.hosts, fam, profile, Candidate(h, NameFor(s, fam, profile, h), ClassOf(s, fam, profile, h).value == 0));
  }
}
