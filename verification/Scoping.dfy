/** A declaration that scopes its models, from its entries through a survey to what routing serves. */
module Scoping {
  import opened Basics
  import opened Order
  import opened Hosts
  import opened Catalogue
  import opened Snapshots
  import opened Routing
  import opened Decisions
  import Reports

  /** A host scoped by its declaration's entries, and the models it lists. */
  method ScopeModels(h: Host, entries: seq<string>) returns (scoped: Host, listed: seq<string>)
    ensures scoped == h.(profileModels := scoped.profileModels) && ScopedBy(scoped, entries)
    ensures listed == Distinct(ModelsNamed(entries, h.HostProfiles()))
  {
    hide Hosts.Served, Distinct, ModelsFor, ModelsNamed;
    var names, byProfile := DeclaredModels(entries, h.HostProfiles());
    scoped := h.(profileModels := Some(byProfile));
    assert scoped.HostProfiles() == h.HostProfiles();
    listed := names;
  }

  // ---- One host's reading ----

  /** What a local host answered: its models, those resident unless that route failed, and its own metadata, if it has any. */
  datatype Answered = Answered(
    installed: seq<string>,
    resident: Option<seq<string>>,
    metadata: Option<map<string, seq<string>>>,
    contexts: map<string, ModelContext>)

  predicate Lists(a: Answered, name: string) {
    name in a.installed || (a.resident.Some? && name in a.resident.value)
  }

  /** A declaration that scopes its models outranks the host's own metadata, which is not read at all when residency fails. */
  function ReadingOf(h: Host, a: Answered): Reading {
    match a.resident
    case None => Reading([], a.installed, h.DeclaredProfiles(a.installed), map[])
    case Some(resident) =>
      var declared := h.DeclaredProfiles(a.installed + resident);
      Reading(resident, a.installed, if declared.Some? then declared else a.metadata, a.contexts)
  }

  method ReadLocal(h: Host, a: Answered) returns (r: Reading)
    ensures r == ReadingOf(h, a)
  {
    hide Host.DeclaredProfiles;
    if a.resident.None? {
      var declared := ListDeclaredProfiles(h, a.installed);
      return Reading([], a.installed, declared, map[]);
    }
    var names := a.installed + a.resident.value;
    var profiles := a.metadata;
    var declared := ListDeclaredProfiles(h, names);
    if declared.Some? {
      profiles := declared;
    }
    r := Reading(a.resident.value, a.installed, profiles, a.contexts);
  }

  /** What a scoped host's reading says of a name it lists, whatever its metadata says. */
  lemma ReadScoped(h: Host, a: Answered, entries: seq<string>, name: string, profile: string)
    requires ScopedBy(h, entries) && Lists(a, name)
    ensures var ps := ReadingOf(h, a).profiles;
            ps.Some? && name in ps.value && (profile in ps.value[name] <==> DeclaredFor(entries, h.HostProfiles(), profile, name))
  {
    hide Host.HostProfiles, DeclaredFor, ScopedBy, Host.ServesModel, Host.DeclaredProfiles;
    var names := if a.resident.None? then a.installed else a.installed + a.resident.value;
    ScopingAgrees(h, entries, names, name, profile);
  }

  /**
   After a survey in which a scoped local host lists a model, routing serves the
   model for a profile exactly when a declaration entry scopes it there, or an
   unscoped entry names it and the host has the profile; and the host itself
   says the same.
   */
  lemma ScopedServes(s: Snapshot, hosts: seq<Host>, readings: seq<Reading>, i: nat, a: Answered, entries: seq<string>, name: string, profile: string)
    requires |hosts| == |readings| && DistinctNames(hosts) && i < |hosts| && s.profiles == ProfilesOf(hosts, readings)
    requires ScopedBy(hosts[i], entries) && readings[i] == ReadingOf(hosts[i], a) && Lists(a, name)
    ensures Serves(s, hosts[i], name, profile) <==> DeclaredFor(entries, hosts[i].HostProfiles(), profile, name)
    ensures Serves(s, hosts[i], name, profile) <==> hosts[i].ServesModel(profile, name)
  {
    hide Host.HostProfiles, DeclaredFor, ScopedBy, Host.ServesModel, ProfilesOf, Host.DeclaredProfiles, ReadingOf, Lists;
    ProfilesFound(hosts, readings, i);
    ReadScoped(hosts[i], a, entries, name, profile);
    ScopingAgrees(hosts[i], entries, [name], name, profile);
  }

  /** A host that does not scope its models is left to its own metadata. */
  lemma UnscopedReading(h: Host, a: Answered)
    requires h.profileModels.None?
    ensures ReadingOf(h, a).profiles == if a.resident.Some? then a.metadata else None
  {
  }

  /**
   What a local host's answers make of a name it lists: with a declaration that
   scopes its models, what the declaration says; without one, what the metadata
   says of the name, if the host could be asked for it, and else what the host
   serves. Names and lengths are the answered ones, and there is no length when
   residency failed.
   */
  lemma LocalFits(h: Host, a: Answered, entries: seq<string>, name: string, profile: string)
    ensures Reports.Reported(ReadingOf(h, a), name) <==> Lists(a, name)
    ensures name in ReadingOf(h, a).resident <==> a.resident.Some? && name in a.resident.value
    ensures ReadingOf(h, a).contexts == if a.resident.Some? then a.contexts else map[]
    ensures ScopedBy(h, entries) && Lists(a, name) ==>
              (Reports.Fit(h, ReadingOf(h, a), name, profile) <==> DeclaredFor(entries, h.HostProfiles(), profile, name))
    ensures h.profileModels.None? ==>
              (Reports.Fit(h, ReadingOf(h, a), name, profile) <==>
               if a.resident.Some? && a.metadata.Some? && name in a.metadata.value then profile in a.metadata.value[name] else Reports.HasProfile(h, profile))
  {
    hide Host.HostProfiles, DeclaredFor, ScopedBy, Host.DeclaredProfiles, Reports.HasProfile;
    if ScopedBy(h, entries) && Lists(a, name) {
      ReadScoped(h, a, entries, name, profile);
    }
    if h.profileModels.None? {
      UnscopedReading(h, a);
    }
  }
}
