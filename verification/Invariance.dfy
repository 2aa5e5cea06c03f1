/** What a caller is told depends neither on the order of what the stores hold nor, but for a name, on that of the hosts' listings. */
module Invariance {
  import opened Basics
  import opened Order
  import opened Provenance
  import opened Identity
  import opened Hosts
  import opened Catalogue
  import opened Composition
  import opened Snapshots
  import opened Routing
  import opened Offers
  import opened Joining
  import opened Rearranging
  import opened Spellings

  // ---- Other picks ----

  /** The same hosts in the same classes, under any names. */
  predicate Paired(cs: seq<Candidate>, ds: seq<Candidate>) {
    |cs| == |ds| && forall i :: 0 <= i < |cs| ==> cs[i].host == ds[i].host && cs[i].held == ds[i].held
  }

  lemma {:induction false} FlatPaired(hosts: seq<Host>, f: Host -> seq<Candidate>, g: Host -> seq<Candidate>)
    requires forall i :: 0 <= i < |hosts| ==> Paired(f(hosts[i]), g(hosts[i]))
    ensures Paired(Flat(hosts, f), Flat(hosts, g))
  {
    if |hosts| > 0 {
      FlatPaired(hosts[..|hosts| - 1], f, g);
    }
  }

  lemma CandidatesPaired(s: Snapshot, t: Snapshot, hosts: seq<Host>, fam: string, profile: string)
    requires t == s.(pick := t.pick)
    ensures Paired(Candidates(s, hosts, fam, profile), Candidates(t, hosts, fam, profile))
  {
    hide CandidateOf;
    forall h: Host, rank: nat ensures Paired(CandidateOf(s, fam, profile, rank)(h), CandidateOf(t, fam, profile, rank)(h)) {
      PairedAt(s, t, fam, profile, rank, h);
    }
    FlatPaired(hosts, CandidateOf(s, fam, profile, 0), CandidateOf(t, fam, profile, 0));
    FlatPaired(hosts, CandidateOf(s, fam, profile, 1), CandidateOf(t, fam, profile, 1));
    FlatPaired(hosts, CandidateOf(s, fam, profile, 2), CandidateOf(t, fam, profile, 2));
  }

  lemma PairedAt(s: Snapshot, t: Snapshot, fam: string, profile: string, rank: nat, h: Host)
    requires t == s.(pick := t.pick)
    ensures Paired(CandidateOf(s, fam, profile, rank)(h), CandidateOf(t, fam, profile, rank)(h))
  {
    hide ClassOf, NameFor;
    SameClass(s, t, fam, profile, h);
  }

  lemma SameClass(s: Snapshot, t: Snapshot, fam: string, profile: string, h: Host)
    requires t == s.(pick := t.pick)
    ensures ClassOf(s, fam, profile, h) == ClassOf(t, fam, profile, h)
  {
    assert AliasesIn(s, fam) == AliasesIn(t, fam);
    assert forall a :: Answers(s, h, profile, a) == Answers(t, h, profile, a);
  }

  lemma {:induction false} FirstPaired(cs: seq<Candidate>, ds: seq<Candidate>, allowed: Option<seq<string>>)
    requires Paired(cs, ds)
    ensures FirstPermitted(cs, allowed) == FirstPermitted(ds, allowed)
  {
    if |cs| > 0 {
      FirstPaired(cs[1..], ds[1..], allowed);
    }
  }

  lemma SameGate(s: Snapshot, t: Snapshot, hosts: seq<Host>, profile: string)
    requires t == s.(pick := t.pick)
    ensures AnyServes(s, hosts, profile) == AnyServes(t, hosts, profile)
  {
    forall h: Host ensures HostServes(s, h, profile) == HostServes(t, h, profile) {
      assert forall a :: Known(s, h, a) == Known(t, h, a);
      assert forall a: Alias :: Serves(s, h, a.name, profile) == Serves(t, h, a.name, profile);
    }
  }

  /** Other picks change no more of a decision than the name the chosen host is asked by. */
  lemma PicksDecideNames(env: Naming, s: Snapshot, t: Snapshot, hosts: seq<Host>, req: Request)
    requires t == s.(pick := t.pick)
    ensures Decide(env, t, hosts, req) == Decide(env, s, hosts, req).(model := Decide(env, t, hosts, req).model)
  {
    hide Candidates, AnyServes, InstalledOn, FirstPermitted;
    var fam, profile := FamilyFor(env, s, req.model), if req.profile == "" then CHAT else req.profile;
    assert AliasesIn(s, fam) == AliasesIn(t, fam);
    SameGate(s, t, hosts, profile);
    CandidatesPaired(s, t, hosts, fam, profile);
    var cs, ds := Candidates(s, hosts, fam, profile), Candidates(t, hosts, fam, profile);
    FirstPaired(cs, ds, req.allowed);
    var i := FirstPermitted(cs, req.allowed);
    assert HostNames(cs[..i]) == HostNames(ds[..i]);
  }

  /** So a request is decided alike, but for that name, whatever order the hosts' listings come in. */
  lemma ListingOrderDecides(inputs: Inputs, others: Inputs, view: View, one: Survey, two: Survey, s: Snapshot, t: Snapshot, hosts: seq<Host>, req: Request)
    requires inputs.Valid() && SameReadings(inputs.readings, others.readings) && others == inputs.(readings := others.readings)
    requires Surveyed(inputs, view, one, Notes(inputs.readings, |inputs.hosts|), s) && s.profiles == ProfilesOf(inputs.hosts, inputs.readings)
    requires Surveyed(others, view, two, Notes(others.readings, |others.hosts|), t) && t.profiles == ProfilesOf(others.hosts, others.readings)
    ensures Decide(inputs.env, t, hosts, req) == Decide(inputs.env, s, hosts, req).(model := Decide(inputs.env, t, hosts, req).model)
  {
    hide Decide, Surveyed, SameReadings, Notes, ProfilesOf;
    SurveyOrderFree(inputs, others, view, one, two, s, t);
    PicksDecideNames(inputs.env, s, t, hosts, req);
  }

  // ---- Other names for what only stores hold ----

  /** The same alias, or two of no host. */
  predicate AliasAlike(a: Alias, b: Alias) {
    a == b || (a.host == "" && b.host == "")
  }

  predicate NamesAlike(xs: seq<Alias>, ys: seq<Alias>) {
    |xs| == |ys| && forall i :: 0 <= i < |xs| ==> AliasAlike(xs[i], ys[i])
  }

  predicate FamiliesAlike(a: seq<Family>, b: seq<Family>) {
    |a| == |b| && forall i :: 0 <= i < |a| ==> a[i].family == b[i].family && NamesAlike(a[i].names, b[i].names)
  }

  function PickOf(s: Snapshot, fam: string, host: string): Option<string> {
    if fam in s.pick && host in s.pick[fam] then Some(s.pick[fam][host]) else None
  }

  /** Two snapshots that differ at most in aliases of no host. */
  ghost predicate Alike(s: Snapshot, t: Snapshot) {
    && s.profiles == t.profiles && s.aliasFamily == t.aliasFamily
    && FamiliesAlike(s.families, t.families)
    && forall fam, host :: PickOf(s, fam, host) == PickOf(t, fam, host)
  }

  /** No host is nameless. */
  predicate NoneNameless(hosts: seq<Host>) {
    forall h :: h in hosts ==> h.name != ""
  }

  lemma {:induction false} AliasesAlike(a: seq<Family>, b: seq<Family>, fam: string)
    requires FamiliesAlike(a, b)
    ensures NamesAlike(Flat(a, NamesIf(fam)), Flat(b, NamesIf(fam)))
  {
    if |a| > 0 {
      AliasesAlike(a[..|a| - 1], b[..|b| - 1], fam);
    }
  }

  lemma SameAnswer(s: Snapshot, t: Snapshot, h: Host, profile: string, a: Alias, b: Alias)
    requires s.profiles == t.profiles && h.name != "" && AliasAlike(a, b)
    ensures Answers(s, h, profile, a) == Answers(t, h, profile, b)
    ensures Answers(s, h, profile, a) ==> a == b
  {
  }

  lemma {:induction false} AnswersAlike(s: Snapshot, t: Snapshot, xs: seq<Alias>, ys: seq<Alias>, h: Host, profile: string)
    requires s.profiles == t.profiles && h.name != "" && NamesAlike(xs, ys)
    ensures ServingResidents(s, xs, h, profile) == ServingResidents(t, ys, h, profile)
    ensures FirstAnswer(s, xs, h, profile) == FirstAnswer(t, ys, h, profile)
  {
    hide Answers;
    if |xs| > 0 {
      var n := |xs| - 1;
      AnswersAlike(s, t, xs[..n], ys[..n], h, profile);
      SameAnswer(s, t, h, profile, xs[n], ys[n]);
    }
  }

  lemma {:induction false} InstalledAlike(xs: seq<Alias>, ys: seq<Alias>)
    requires NamesAlike(xs, ys)
    ensures InstalledOn(xs) == InstalledOn(ys)
  {
    if |xs| > 0 {
      InstalledAlike(xs[..|xs| - 1], ys[..|ys| - 1]);
    }
  }

  /** A host stands in the same class under the same name. */
  lemma ClassAlike(s: Snapshot, t: Snapshot, fam: string, profile: string, h: Host)
    requires Alike(s, t) && h.name != ""
    ensures ClassOf(s, fam, profile, h) == ClassOf(t, fam, profile, h) && NameFor(s, fam, profile, h) == NameFor(t, fam, profile, h)
  {
    hide SomeAnswers, SomeResidentAnswers, ServingResidents, FirstAnswer, FamiliesAlike, NamesAlike;
    AliasesAlike(s.families, t.families, fam);
    AnswersAlike(s, t, AliasesIn(s, fam), AliasesIn(t, fam), h, profile);
    AnswersFound(s, fam, h, profile);
    AnswersFound(t, fam, h, profile);
    PickAlike(s, t, fam, h, profile);
  }

  lemma AnswersFound(s: Snapshot, fam: string, h: Host, profile: string)
    ensures SomeAnswers(s, fam, h, profile) <==> FirstAnswer(s, AliasesIn(s, fam), h, profile).Some?
    ensures SomeResidentAnswers(s, fam, h, profile) <==> ServingResidents(s, AliasesIn(s, fam), h, profile) != []
  {
    hide Answers;
  }

  lemma PickAlike(s: Snapshot, t: Snapshot, fam: string, h: Host, profile: string)
    requires Alike(s, t) && FirstAnswer(s, AliasesIn(s, fam), h, profile) == FirstAnswer(t, AliasesIn(t, fam), h, profile)
    ensures PickServing(s, fam, h, profile) == PickServing(t, fam, h, profile)
  {
    hide FirstAnswer, FamiliesAlike, AliasesIn;
    assert PickOf(s, fam, h.name) == PickOf(t, fam, h.name);
  }

  lemma CandidatesAlike(s: Snapshot, t: Snapshot, hosts: seq<Host>, fam: string, profile: string)
    requires Alike(s, t) && NoneNameless(hosts)
    ensures Candidates(s, hosts, fam, profile) == Candidates(t, hosts, fam, profile)
  {
    hide ClassOf, NameFor, Alike;
    forall i | 0 <= i < |hosts|
      ensures ClassOf(s, fam, profile, hosts[i]) == ClassOf(t, fam, profile, hosts[i]) && NameFor(s, fam, profile, hosts[i]) == NameFor(t, fam, profile, hosts[i])
    {
      ClassAlike(s, t, fam, profile, hosts[i]);
    }
    FlatSame(hosts, CandidateOf(s, fam, profile, 0), CandidateOf(t, fam, profile, 0));
    FlatSame(hosts, CandidateOf(s, fam, profile, 1), CandidateOf(t, fam, profile, 1));
    FlatSame(hosts, CandidateOf(s, fam, profile, 2), CandidateOf(t, fam, profile, 2));
  }

  lemma KnownAlike(s: Snapshot, t: Snapshot, h: Host, a: Alias)
    requires FamiliesAlike(s.families, t.families) && h.name != "" && Known(s, h, a)
    ensures Known(t, h, a)
  {
    var f :| f in s.families && a in f.names;
    var i :| 0 <= i < |s.families| && s.families[i] == f;
    var j :| 0 <= j < |f.names| && f.names[j] == a;
    assert AliasAlike(s.families[i].names[j], t.families[i].names[j]);
    assert t.families[i] in t.families && a in t.families[i].names;
  }

  lemma FamiliesBack(a: seq<Family>, b: seq<Family>)
    requires FamiliesAlike(a, b)
    ensures FamiliesAlike(b, a)
  {
    forall i | 0 <= i < |b| ensures NamesAlike(b[i].names, a[i].names) {
      assert NamesAlike(a[i].names, b[i].names);
    }
  }

  lemma GateAlike(s: Snapshot, t: Snapshot, hosts: seq<Host>, profile: string)
    requires Alike(s, t) && NoneNameless(hosts)
    ensures AnyServes(s, hosts, profile) == AnyServes(t, hosts, profile)
  {
    hide Known, FamiliesAlike;
    FamiliesBack(s.families, t.families);
    forall h | h in hosts ensures HostServes(s, h, profile) == HostServes(t, h, profile) {
      forall a ensures Known(s, h, a) == Known(t, h, a) {
        if Known(s, h, a) {
          KnownAlike(s, t, h, a);
        }
        if Known(t, h, a) {
          KnownAlike(t, s, h, a);
        }
      }
      assert forall a: Alias :: Serves(s, h, a.name, profile) == Serves(t, h, a.name, profile);
    }
  }

  /** Snapshots that differ in aliases of no host decide every request alike. */
  lemma DecideAlike(env: Naming, s: Snapshot, t: Snapshot, hosts: seq<Host>, req: Request)
    requires Alike(s, t) && NoneNameless(hosts)
    ensures Decide(env, s, hosts, req) == Decide(env, t, hosts, req)
  {
    hide Candidates, AnyServes, InstalledOn, FirstPermitted, AliasesIn, FamiliesAlike;
    var fam, profile := FamilyFor(env, s, req.model), if req.profile == "" then CHAT else req.profile;
    GateAlike(s, t, hosts, profile);
    CandidatesAlike(s, t, hosts, fam, profile);
    InstalledSame(s, t, fam);
  }

  lemma InstalledSame(s: Snapshot, t: Snapshot, fam: string)
    requires FamiliesAlike(s.families, t.families)
    ensures InstalledOn(AliasesIn(s, fam)) == InstalledOn(AliasesIn(t, fam))
  {
    AliasesAlike(s.families, t.families, fam);
    InstalledAlike(AliasesIn(s, fam), AliasesIn(t, fam));
  }

  // ---- Offers ----

  lemma {:induction false} FlatAlike<S, T>(xs: seq<S>, ys: seq<S>, f: S -> seq<T>, g: S -> seq<T>)
    requires |xs| == |ys| && forall i :: 0 <= i < |xs| ==> f(xs[i]) == g(ys[i])
    ensures Flat(xs, f) == Flat(ys, g)
  {
    if |xs| > 0 {
      FlatAlike(xs[..|xs| - 1], ys[..|ys| - 1], f, g);
    }
  }

  lemma NameCountsAlike(q: Query, t: Snapshot, placement: Placement, fam: string, a: Alias, b: Alias)
    requires q.s.profiles == t.profiles && NoneNameless(q.hosts) && AliasAlike(a, b)
    ensures q.FromName(placement, fam)(a) == q.(s := t).FromName(placement, fam)(b)
  {
  }

  lemma OffersAlike(q: Query, t: Snapshot, placement: Placement, reserve: int)
    requires Alike(q.s, t) && NoneNameless(q.hosts)
    ensures OffersFor(q, placement, reserve) == OffersFor(q.(s := t), placement, reserve)
  {
    hide OffersFor, Query.FromName, AliasAlike;
    var r, a, b := q.(s := t), q.s.families, t.families;
    forall i | 0 <= i < |a| ensures q.FromFamily(placement)(a[i]) == r.FromFamily(placement)(b[i]) {
      assert NamesAlike(a[i].names, b[i].names);
      forall j | 0 <= j < |a[i].names|
        ensures q.FromName(placement, a[i].family)(a[i].names[j]) == r.FromName(placement, b[i].family)(b[i].names[j])
      {
        NameCountsAlike(q, t, placement, a[i].family, a[i].names[j], b[i].names[j]);
      }
      FlatAlike(a[i].names, b[i].names, q.FromName(placement, a[i].family), r.FromName(placement, b[i].family));
    }
    FlatAlike(a, b, q.FromFamily(placement), r.FromFamily(placement));
    OffersOrderFree(q, r, placement, reserve);
  }

  // ---- The order of what is held ----

  lemma StoredHasNoHost(env: Naming, v: View, families: seq<Family>, g: Family)
    requires g in Composed(env, v, families) && g.family !in FamilyNames(families)
    ensures |g.names| == 1 && g.names[0].host == ""
  {
    hide Composed, HeldFamily, StoresIn, ComponentsIn;
    ComposedFamilies(env, v, families, g);
    if h :| h in families && g == HeldFamily(env, v, h) {
      HeldFamilyName(env, v, h);
    }
  }

  lemma RespelledAlike(f: Family, spelling: map<string, string>, named: set<string>)
    requires f.family !in named ==> |f.names| == 1 && f.names[0].host == ""
    ensures Respelled(f, spelling, named).family == f.family && NamesAlike(Respelled(f, spelling, named).names, f.names)
  {
  }

  lemma CataloguesAlike(env: Naming, a: seq<HeldObject>, b: seq<HeldObject>, families: seq<Family>)
    requires multiset(a) == multiset(b) && OnceEach(families)
    ensures FamiliesAlike(CatalogueOf(env, b, families), CatalogueOf(env, a, families))
  {
    hide Composed, Respelled, SpellingOf, NamesAlike, FamilyNames;
    CatalogueRespelled(env, a, b, families);
    var d := CatalogueOf(env, a, families);
    forall i | 0 <= i < |d|
      ensures CatalogueOf(env, b, families)[i].family == d[i].family && NamesAlike(CatalogueOf(env, b, families)[i].names, d[i].names)
    {
      if d[i].family !in FamilyNames(families) {
        StoredHasNoHost(env, ViewFor(env, a), families, d[i]);
      }
      RespelledAlike(d[i], SpellingOf(env, b), FamilyNames(families));
    }
  }

  lemma PicksAlike(one: Survey, two: Survey, notes: seq<Noted>, s: Snapshot, t: Snapshot)
    requires one.Holds(notes) && two.Holds(notes) && one.inputs == two.inputs && s.pick == one.pick && t.pick == two.pick
    ensures forall fam, host :: PickOf(s, fam, host) == PickOf(t, fam, host)
  {
    hide Inputs.Picked, Survey.NamesHold, Survey.AliasesHold;
    forall fam, host ensures PickOf(s, fam, host) == PickOf(t, fam, host) {
      assert one.PicksHold(notes) && two.PicksHold(notes);
      if fam != "" {
        assert one.inputs.Picked(notes, fam, host) == PickOf(s, fam, host);
        assert two.inputs.Picked(notes, fam, host) == PickOf(t, fam, host);
      }
    }
  }

  /** Surveys of the same hosts over the same held objects in two orders leave snapshots that differ at most in aliases of no host. */
  lemma HeldOrderAlike(inputs: Inputs, a: seq<HeldObject>, b: seq<HeldObject>, one: Survey, two: Survey, notes: seq<Noted>, s: Snapshot, t: Snapshot)
    requires multiset(a) == multiset(b) && s.profiles == t.profiles
    requires Surveyed(inputs, ViewFor(inputs.env, b), one, notes, s) && Surveyed(inputs, ViewFor(inputs.env, a), two, notes, t)
    ensures Alike(s, t)
  {
    hide Composed, FamiliesListed, Survey.Holds, ViewFor, PickOf, FamiliesAlike;
    assert SameReadings(inputs.readings, inputs.readings) by {
      ReadingsSame(inputs.readings);
    }
    SameAliases(one, two, notes, notes);
    PicksAlike(one, two, notes, s, t);
    FamiliesOnce(one.byFamily);
    CataloguesAlike(inputs.env, a, b, FamiliesListed(one.byFamily));
  }

  lemma ReadingsSame(readings: seq<Reading>)
    ensures SameReadings(readings, readings)
  {
  }

  /**
   The order of the held objects changes no decision and no offer: the families
   the stores declare do not depend on it, and a name that does is no host's.
   */
  lemma HeldOrderFree(env: Naming, a: seq<HeldObject>, b: seq<HeldObject>, hosts: seq<Host>, readings: seq<Reading>,
                      one: Survey, two: Survey, q: Query, t: Snapshot, req: Request, placement: Placement, reserve: int)
    requires multiset(a) == multiset(b) && |hosts| == |readings| && NoneNameless(q.hosts)
    requires Surveyed(Inputs(env, DeclaredOf(env, b), hosts, readings), ViewFor(env, b), one, Notes(readings, |hosts|), q.s)
    requires Surveyed(Inputs(env, DeclaredOf(env, a), hosts, readings), ViewFor(env, a), two, Notes(readings, |hosts|), t)
    requires q.s.profiles == ProfilesOf(hosts, readings) && t.profiles == ProfilesOf(hosts, readings)
    ensures Decide(env, q.s, q.hosts, req) == Decide(env, t, q.hosts, req)
    ensures OffersFor(q, placement, reserve) == OffersFor(q.(s := t), placement, reserve)
  {
    hide Surveyed, ViewFor, Notes, ProfilesOf, Decide, OffersFor, DeclaredOf, ByNameOf, ByFamilyOf, FamiliesOf, SpellingOf, ComponentsOf, Alike;
    IndexOrderFree(env, a, b, "");
    HeldOrderAlike(Inputs(env, DeclaredOf(env, a), hosts, readings), a, b, one, two, Notes(readings, |hosts|), q.s, t);
    DecideAlike(env, q.s, t, q.hosts, req);
    OffersAlike(q, t, placement, reserve);
  }
}
