/** The router itself: its hosts and its latest snapshot, and the loops that read them. */
module Routers {
  import opened Basics
  import opened Order
  import opened Provenance
  import opened Identity
  import opened Hosts
  import opened Catalogue
  import opened Composition
  import opened Snapshots
  import opened Routing

  class Router {
    const env: Naming
    var hosts: seq<Host>
    var held: seq<HeldObject>
    var snap: Snapshot

    ghost predicate Valid()
      reads this
    {
      Agrees(env, snap)
    }

    constructor (env: Naming, hosts: seq<Host>)
      ensures Valid() && this.env == env && this.hosts == hosts && held == []
    {
      this.env := env;
      this.hosts := hosts;
      held := [];
      snap := Snapshot([], map[], map[], map[]);
    }

    /** SetHosts: the last survey's inventory stays until the next one. */
    method SetHosts(hosts: seq<Host>)
      requires Valid()
      modifies `hosts
      ensures Valid() && this.hosts == hosts
    {
      this.hosts := hosts;
    }

    method SetHeld(held: seq<HeldObject>)
      requires Valid()
      modifies `held
      ensures Valid() && this.held == held
    {
      this.held := held;
    }

    /** Survey: a new snapshot of what the hosts answered and the stores hold, with indexes that agree. */
    method Survey(readings: seq<Reading>) returns (ghost fold: Catalogue.Survey, ghost index: Index)
      requires Valid() && |readings| == |hosts|
      modifies `snap
      ensures Valid() && snap.profiles == ProfilesOf(hosts, readings)
      ensures index.Holds(HeldLog(env, held), JoinsLog(HeldLog(env, held).digests, held))
      ensures Surveyed(Inputs(env, DeclaredOf(env, held), hosts, readings), ViewOf(index), fold, Notes(readings, |hosts|), snap)
    {
      hide Agrees, Surveyed, ViewOf, ProfilesOf, DeclaredOf, HeldLog, JoinsLog, Notes;
      snap, fold, index := Take(env, held, hosts, readings);
    }

    /** The aliases of a family, family by family. */
    method FamilyAliases(fam: string) returns (out: seq<Alias>)
      ensures out == AliasesIn(snap, fam)
    {
      out := [];
      for i := 0 to |snap.families|
        invariant out == Flat(snap.families[..i], NamesIf(fam))
      {
        FlatStep(snap.families, NamesIf(fam), i);
        if snap.families[i].family == fam {
          out := out + snap.families[i].names;
        } else {
          assert out + [] == out;
        }
      }
      assert snap.families[..|snap.families|] == snap.families;
    }

    /** residentOf, and of those the names the host serves for the profile. */
    method Residents(fam: string, h: Host, profile: string) returns (names: seq<string>)
      ensures names == ServingResidents(snap, AliasesIn(snap, fam), h, profile)
    {
      hide Serves;
      var aliases := FamilyAliases(fam);
      names := [];
      for i := 0 to |aliases|
        invariant names == ServingResidents(snap, aliases[..i], h, profile)
      {
        assert aliases[..i + 1][..i] == aliases[..i];
        var a := aliases[i];
        if a.resident && a.host == h.name && Serves(snap, h, a.name, profile) {
          names := names + [a.name];
        }
      }
      assert aliases[..|aliases|] == aliases;
    }

    method PickName(fam: string, h: Host, profile: string) returns (r: Option<string>)
      ensures r == PickServing(snap, fam, h, profile)
    {
      hide Serves;
      if fam in snap.pick && h.name in snap.pick[fam] && Serves(snap, h, snap.pick[fam][h.name], profile) {
        return Some(snap.pick[fam][h.name]);
      }
      var aliases := FamilyAliases(fam);
      for i := 0 to |aliases|
        invariant FirstAnswer(snap, aliases[..i], h, profile).None?
      {
        assert aliases[..i + 1][..i] == aliases[..i];
        if aliases[i].host == h.name && Serves(snap, h, aliases[i].name, profile) {
          FirstAnswerStays(snap, aliases, h, profile, i + 1);
          return Some(aliases[i].name);
        }
      }
      assert aliases[..|aliases|] == aliases;
      r := None;
    }

    /** anyServes. */
    method AnyHostServes(profile: string) returns (ok: bool)
      ensures ok == AnyServes(snap, hosts, profile)
    {
      hide Serves;
      var servable := false;
      for i := 0 to |hosts|
        invariant servable <==> exists j :: 0 <= j < i && hosts[j].Servable()
        invariant forall j :: 0 <= j < i && hosts[j].Servable() ==> !HostServes(snap, hosts[j], profile)
      {
        var h := hosts[i];
        assert h in hosts;
        if h.Servable() {
          servable := true;
          var serves := HasServing(h, profile);
          if serves {
            return true;
          }
        }
      }
      ok := !servable;
    }

    /** Whether one host serves the profile: by one of its models, or by its own profiles when it has none. */
    method HasServing(h: Host, profile: string) returns (ok: bool)
      ensures ok == HostServes(snap, h, profile)
    {
      hide Serves;
      var known := false;
      for i := 0 to |snap.families|
        invariant known <==> exists j, a :: 0 <= j < i && a in snap.families[j].names && a.host == h.name
        invariant forall j, a :: 0 <= j < i && a in snap.families[j].names && a.host == h.name ==> !Serves(snap, h, a.name, profile)
      {
        var names := snap.families[i].names;
        assert snap.families[i] in snap.families;
        for k := 0 to |names|
          invariant known <==> (exists j, a :: 0 <= j < i && a in snap.families[j].names && a.host == h.name)
                               || exists l :: 0 <= l < k && names[l].host == h.name
          invariant forall l :: 0 <= l < k && names[l].host == h.name ==> !Serves(snap, h, names[l].name, profile)
        {
          if names[k].host == h.name {
            known := true;
            if Serves(snap, h, names[k].name, profile) {
              assert Known(snap, h, names[k]);
              return true;
            }
          }
        }
      }
      KnownSomewhere(snap, h);
      ok := !known && profile in h.HostProfiles();
    }

    /** The hosts on this machine that hold it. */
    method ListHolding(fam: string, profile: string) returns (out: seq<Candidate>)
      requires Valid()
      ensures out == Flat(hosts, CandidateOf(snap, fam, profile, 0))
    {
      hide ClassOf, NameFor, Agrees;
      out := [];
      for i := 0 to |hosts|
        invariant out == Flat(hosts[..i], CandidateOf(snap, fam, profile, 0))
      {
        var h := hosts[i];
        FlatStep(hosts, CandidateOf(snap, fam, profile, 0), i);
        ClassByCode(env, snap, fam, profile, h);
        assert out + [] == out;
        if h.Servable() && !h.hosted {
          var names := Residents(fam, h, profile);
          if |names| > 0 {
            out := out + [Candidate(h, names[0], true)];
          }
        }
      }
      assert hosts[..|hosts|] == hosts;
    }

    /** The hosts on this machine that have it on disk and do not hold it. */
    method ListInstalled(fam: string, profile: string) returns (out: seq<Candidate>)
      requires Valid()
      ensures out == Flat(hosts, CandidateOf(snap, fam, profile, 1))
    {
      hide ClassOf, NameFor, Agrees;
      out := [];
      for i := 0 to |hosts|
        invariant out == Flat(hosts[..i], CandidateOf(snap, fam, profile, 1))
      {
        var h := hosts[i];
        FlatStep(hosts, CandidateOf(snap, fam, profile, 1), i);
        ClassByCode(env, snap, fam, profile, h);
        assert out + [] == out;
        if h.Servable() && !h.hosted {
          var names := Residents(fam, h, profile);
          if |names| == 0 {
            var pick := PickName(fam, h, profile);
            if pick.Some? {
              out := out + [Candidate(h, pick.value, false)];
            }
          }
        }
      }
      assert hosts[..|hosts|] == hosts;
    }

    /** The hosted hosts that list it. */
    method ListHosted(fam: string, profile: string) returns (out: seq<Candidate>)
      requires Valid()
      ensures out == Flat(hosts, CandidateOf(snap, fam, profile, 2))
    {
      hide ClassOf, NameFor, Agrees;
      out := [];
      for i := 0 to |hosts|
        invariant out == Flat(hosts[..i], CandidateOf(snap, fam, profile, 2))
      {
        var h := hosts[i];
        FlatStep(hosts, CandidateOf(snap, fam, profile, 2), i);
        ClassByCode(env, snap, fam, profile, h);
        assert out + [] == out;
        if h.Servable() && h.hosted {
          var pick := PickName(fam, h, profile);
          if pick.Some? {
            out := out + [Candidate(h, pick.value, false)];
          }
        }
      }
      assert hosts[..|hosts|] == hosts;
    }

    /** candidates: three passes over the hosts. */
    method ListCandidates(fam: string, profile: string) returns (out: seq<Candidate>)
      requires Valid()
      ensures out == Candidates(snap, hosts, fam, profile)
    {
      hide CandidateOf;
      var holding := ListHolding(fam, profile);
      var installed := ListInstalled(fam, profile);
      var hosted := ListHosted(fam, profile);
      out := holding + installed + hosted;
    }

    /** The hosts the family's aliases name, each once. */
    method ListInstalledOn(fam: string) returns (names: seq<string>)
      ensures names == InstalledOn(AliasesIn(snap, fam))
    {
      var aliases := FamilyAliases(fam);
      names := [];
      for i := 0 to |aliases|
        invariant names == InstalledOn(aliases[..i])
      {
        assert aliases[..i + 1][..i] == aliases[..i];
        // A stored model's alias has the empty host.
        if aliases[i].host != "" && aliases[i].host !in names {
          names := names + [aliases[i].host];
        }
      }
      assert aliases[..|aliases|] == aliases;
    }

    /** routeSnapshot. */
    method Route(req: Request) returns (d: Decision)
      requires Valid()
      ensures d == Decide(env, snap, hosts, req)
    {
      hide Candidates, AnyServes, InstalledOn, AliasesIn;
      var fam := FamilyFor(env, snap, req.model);
      d := Decision(req.model, fam, Unparseable, "", "", "", [], req.allowed, [], 0);
      if fam == "" {
        return;
      }
      var installedOn := ListInstalledOn(fam);
      d := d.(installedOn := installedOn);
      var profile := if req.profile == "" then CHAT else req.profile;
      var served := AnyHostServes(profile);
      if !served {
        return d.(verdict := NoHost);
      }
      var cs := ListCandidates(fam, profile);
      for i := 0 to |cs|
        invariant d == Decision(req.model, fam, Unparseable, "", "", "", installedOn, req.allowed, HostNames(cs[..i]), 0)
        invariant i <= FirstPermitted(cs, req.allowed)
      {
        var c := cs[i];
        if Permits(req.allowed, c.host.name) {
          assert FirstPermitted(cs, req.allowed) == i;
          d := d.(host := c.host.name, model := c.name, endpoint := c.host.Endpoint());
          if c.host.hosted {
            d := d.(verdict := Hosted, loads := 0);
          } else if c.held {
            d := d.(verdict := Resident, loads := 0);
          } else {
            d := d.(verdict := WouldLoad, loads := 1);
          }
          return;
        }
        assert HostNames(cs[..i + 1]) == HostNames(cs[..i]) + [c.host.name];
        d := d.(withheld := d.withheld + [c.host.name]);
      }
      assert cs[..|cs|] == cs && FirstPermitted(cs, req.allowed) == |cs|;
      if |d.withheld| > 0 {
        return d.(verdict := Unauthorised);
      }
      for i := 0 to |hosts|
        invariant forall j :: 0 <= j < i ==> !(hosts[j].Servable() && hosts[j].name in installedOn)
      {
        if hosts[i].Servable() && hosts[i].name in installedOn {
          assert hosts[i] in hosts;
          return d.(verdict := NoHost);
        }
      }
      if |installedOn| > 0 {
        return d.(verdict := Unservable);
      }
      d := d.(verdict := NotHere);
    }
  }

  /** The class and the name of a host, as the passes find them. */
  lemma ClassByCode(env: Naming, s: Snapshot, fam: string, profile: string, h: Host)
    requires Agrees(env, s)
    ensures var held, pick := ServingResidents(s, AliasesIn(s, fam), h, profile), PickServing(s, fam, h, profile);
            && (ClassOf(s, fam, profile, h) == Some(0) <==> h.Servable() && !h.hosted && held != [])
            && (ClassOf(s, fam, profile, h) == Some(1) <==> h.Servable() && !h.hosted && held == [] && pick.Some?)
            && (ClassOf(s, fam, profile, h) == Some(2) <==> h.Servable() && h.hosted && pick.Some?)
            && (!h.hosted && held != [] ==> NameFor(s, fam, profile, h) == held[0])
            && ((h.hosted || held == []) && pick.Some? ==> NameFor(s, fam, profile, h) == pick.value)
  {
    hide Agrees, PickServing, Answers;
    PickServingExact(env, s, fam, h, profile);
  }

  lemma {:induction false} FirstAnswerStays(s: Snapshot, aliases: seq<Alias>, h: Host, profile: string, i: nat)
    requires i <= |aliases| && FirstAnswer(s, aliases[..i], h, profile).Some?
    ensures FirstAnswer(s, aliases, h, profile) == FirstAnswer(s, aliases[..i], h, profile)
    decreases |aliases| - i
  {
    hide Serves;
    if i == |aliases| {
      assert aliases[..i] == aliases;
    } else {
      assert aliases[..i + 1][..i] == aliases[..i];
      FirstAnswerStays(s, aliases, h, profile, i + 1);
    }
  }

  lemma KnownSomewhere(s: Snapshot, h: Host)
    ensures forall a :: Known(s, h, a) <==> exists j :: 0 <= j < |s.families| && a in s.families[j].names && a.host == h.name
  {
    forall a | Known(s, h, a) ensures exists j :: 0 <= j < |s.families| && a in s.families[j].names && a.host == h.name {
      var f :| f in s.families && a in f.names;
      var j :| 0 <= j < |s.families| && s.families[j] == f;
    }
  }
}
