/** Model hosts: what each serves by its wire, by its declaration, and by what it declares for each model. */
module Hosts {
  import opened Basics
  import opened Order

  const CHAT := "chat"
  const EMBED := "embed"
  const TRANSCRIPTION := "transcription"
  const SPEECH := "speech"
  const IMAGE := "image"
  const LIVE := "live"

  /** profileModels is what the declaration serves for each profile; None when it names its models without profiles. */
  datatype Host = Host(
    name: string,
    base: string,
    chat: string,
    hosted: bool,
    wire: string,
    profiles: seq<string>,
    profileModels: Option<map<string, seq<string>>>,
    windowAtLoad: bool,
    native: bool,
    remote: bool)
  {
    predicate Servable() {
      chat != ""
    }

    function Endpoint(): string {
      if chat == "" || hosted || native then "" else base + chat
    }

    function DefaultProfiles(): seq<string> {
      if wire == "openai-realtime" then [LIVE]
      else if chat == "" then []
      else if !hosted || wire == "openai-compatible" then [CHAT, EMBED, TRANSCRIPTION, SPEECH, IMAGE]
      else if wire == "deepgram-prerecorded" then [TRANSCRIPTION]
      else if wire == "elevenlabs-stream" then [SPEECH]
      else if wire == "stability-v2beta" || wire == "fal-queue" || wire == "replicate-predictions" then [IMAGE]
      else [CHAT]
    }

    function HostProfiles(): seq<string> {
      if |profiles| > 0 then profiles else DefaultProfiles()
    }

    /** ServesModel: what the host itself declares it serves. */
    predicate ServesModel(profile: string, model: string) {
      && profile in HostProfiles()
      && (profileModels.Some? ==> profile in profileModels.value && model in profileModels.value[profile])
    }

    /** declaredProfiles: for each name, the host's profiles that name it, in the host's order. */
    function DeclaredProfiles(names: seq<string>): Option<map<string, seq<string>>> {
      if profileModels.None? then None
      else Some(map name | name in names :: ProfilesNaming(HostProfiles(), name))
    }

    function ProfilesNaming(among: seq<string>, name: string): (ps: seq<string>)
      requires profileModels.Some?
      ensures forall p :: p in ps <==> p in among && p in profileModels.value && name in profileModels.value[p]
    {
      if |among| == 0 then []
      else
        var p := among[|among| - 1];
        ProfilesNaming(among[..|among| - 1], name)
        + if p in profileModels.value && name in profileModels.value[p] then [p] else []
    }
  }

  method ListDeclaredProfiles(h: Host, names: seq<string>) returns (r: Option<map<string, seq<string>>>)
    ensures r == h.DeclaredProfiles(names)
  {
    hide Host.ProfilesNaming, Host.HostProfiles;
    if h.profileModels.None? {
      return None;
    }
    var out: map<string, seq<string>> := map[];
    for i := 0 to |names|
      invariant out == map name | name in names[..i] :: h.ProfilesNaming(h.HostProfiles(), name)
    {
      var profiles := ListProfilesNaming(h, names[i]);
      assert names[..i + 1] == names[..i] + [names[i]];
      out := out[names[i] := profiles];
    }
    assert names[..|names|] == names;
    assert out == h.DeclaredProfiles(names).value;
    r := Some(out);
  }

  method ListProfilesNaming(h: Host, name: string) returns (profiles: seq<string>)
    requires h.profileModels.Some?
    ensures profiles == h.ProfilesNaming(h.HostProfiles(), name)
  {
    var among := h.HostProfiles();
    profiles := [];
    for i := 0 to |among|
      invariant profiles == h.ProfilesNaming(among[..i], name)
    {
      assert among[..i + 1][..i] == among[..i];
      if among[i] in h.profileModels.value && name in h.profileModels.value[among[i]] {
        profiles := profiles + [among[i]];
      }
    }
    assert among[..|among|] == among;
  }

  // ---- Declarations ----

  /** The offset of the first colon; the length when there is none. */
  function ColonAt(s: string): (i: nat)
    ensures i <= |s| && ':' !in s[..i] && (i < |s| ==> s[i] == ':')
  {
    if |s| == 0 || s[0] == ':' then 0
    else
      var i := ColonAt(s[1..]);
      assert s[..1 + i] == [s[0]] + s[1..][..i];
      1 + i
  }

  lemma {:induction false} ColonFirst(s: string, i: nat)
    requires i < |s| && s[i] == ':' && ':' !in s[..i]
    ensures ColonAt(s) == i
  {
    if i > 0 {
      assert s[0] in s[..i];
      assert forall c :: c in s[1..][..i - 1] ==> c in s[..i];
      ColonFirst(s[1..], i - 1);
    }
  }

  /** DeclaredEntry: the model an entry names, and the one profile it names it for, or none. */
  function DeclaredEntry(entry: string, profiles: seq<string>): (string, string) {
    var i := ColonAt(entry);
    if i < |entry| && i + 1 < |entry| && entry[..i] in profiles then (entry[i + 1..], entry[..i]) else (entry, "")
  }

  /** An entry is scoped when a served profile, a colon and a model make it up; the profile has no colon in it. */
  predicate Scopes(entry: string, profiles: seq<string>, profile: string, model: string) {
    profile in profiles && ':' !in profile && model != "" && entry == profile + ":" + model
  }

  lemma DeclaredEntryExact(entry: string, profiles: seq<string>, profile: string, model: string)
    requires "" !in profiles
    ensures DeclaredEntry(entry, profiles) == (model, profile) <==>
            if profile != "" then Scopes(entry, profiles, profile, model)
            else model == entry && forall p, m :: !Scopes(entry, profiles, p, m)
  {
    var i := ColonAt(entry);
    if i < |entry| {
      assert entry == entry[..i] + ":" + entry[i + 1..];
    }
    if i + 1 < |entry| && entry[..i] in profiles {
      assert Scopes(entry, profiles, entry[..i], entry[i + 1..]);
    }
    forall p, m | Scopes(entry, profiles, p, m)
      ensures i == |p| && i + 1 < |entry| && entry[..i] == p && entry[i + 1..] == m
    {
      assert entry[..|p|] == p;
      ColonFirst(entry, |p|);
    }
  }

  /** A declaration serves a model for a profile: by an entry scoped there, or by an unscoped one. */
  predicate DeclaredFor(entries: seq<string>, profiles: seq<string>, profile: string, model: string) {
    profile in profiles
    && exists e :: e in entries && (DeclaredEntry(e, profiles) == (model, profile) || DeclaredEntry(e, profiles) == (model, ""))
  }

  /** A list's elements, each once, where it first stands. */
  function Distinct(xs: seq<string>): (ys: seq<string>)
    ensures forall x :: x in ys <==> x in xs
    ensures forall i, j :: 0 <= i < j < |ys| ==> ys[i] != ys[j]
  {
    if |xs| == 0 then []
    else
      var last := xs[|xs| - 1];
      var ys := Distinct(xs[..|xs| - 1]);
      assert xs == xs[..|xs| - 1] + [last];
      if last in ys then ys else ys + [last]
  }

  lemma DistinctNext(xs: seq<string>, x: string)
    ensures Distinct(xs + [x]) == if x in Distinct(xs) then Distinct(xs) else Distinct(xs) + [x]
  {
    assert (xs + [x])[..|xs|] == xs;
  }

  /** The models the entries serve for a profile, in entry order. */
  function ModelsFor(entries: seq<string>, profiles: seq<string>, profile: string): (ms: seq<string>)
    ensures profile in profiles ==> forall m :: m in ms <==> DeclaredFor(entries, profiles, profile, m)
  {
    if |entries| == 0 then []
    else
      var front := entries[..|entries| - 1];
      var last := DeclaredEntry(entries[|entries| - 1], profiles);
      assert entries == front + [entries[|entries| - 1]];
      ModelsFor(front, profiles, profile) + if last.1 == profile || last.1 == "" then [last.0] else []
  }

  function ModelsNamed(entries: seq<string>, profiles: seq<string>): seq<string> {
    if |entries| == 0 then []
    else ModelsNamed(entries[..|entries| - 1], profiles) + [DeclaredEntry(entries[|entries| - 1], profiles).0]
  }

  /** What byProfile holds of a profile. */
  function Served(byProfile: map<string, seq<string>>, profile: string): seq<string> {
    if profile in byProfile then byProfile[profile] else []
  }

  method AddModel(byProfile: map<string, seq<string>>, profile: string, model: string) returns (r: map<string, seq<string>>)
    ensures forall p :: Served(r, p) ==
              if p == profile && model !in Served(byProfile, p) then Served(byProfile, p) + [model] else Served(byProfile, p)
    ensures r.Keys == byProfile.Keys + {profile}
  {
    r := byProfile;
    if profile !in r {
      r := r[profile := []];
    }
    if model !in r[profile] {
      r := r[profile := r[profile] + [model]];
    }
  }

  method AddToAll(byProfile: map<string, seq<string>>, profiles: seq<string>, model: string) returns (r: map<string, seq<string>>)
    ensures forall p :: Served(r, p) ==
              if p in profiles && model !in Served(byProfile, p) then Served(byProfile, p) + [model] else Served(byProfile, p)
    ensures r.Keys <= byProfile.Keys + set p | p in profiles
  {
    r := byProfile;
    for i := 0 to |profiles|
      invariant r.Keys <= byProfile.Keys + set p | p in profiles
      invariant forall p :: Served(r, p) ==
                  if p in profiles[..i] && model !in Served(byProfile, p) then Served(byProfile, p) + [model] else Served(byProfile, p)
    {
      hide Served;
      assert profiles[..i + 1] == profiles[..i] + [profiles[i]];
      r := AddModel(r, profiles[i], model);
    }
    assert profiles[..|profiles|] == profiles;
  }

  /** One entry's model, for its profile or for all of them. */
  method AddEntry(byProfile: map<string, seq<string>>, profiles: seq<string>, model: string, profile: string) returns (r: map<string, seq<string>>)
    requires profile != "" ==> profile in profiles
    requires byProfile.Keys <= set p | p in profiles
    ensures r.Keys <= set p | p in profiles
    ensures forall p :: p in profiles ==>
              Served(r, p) == if (profile == p || profile == "") && model !in Served(byProfile, p) then Served(byProfile, p) + [model] else Served(byProfile, p)
  {
    hide Served;
    if profile != "" {
      r := AddModel(byProfile, profile, model);
    } else {
      r := AddToAll(byProfile, profiles, model);
    }
  }

  /** One more entry. */
  lemma EntryServes(entries: seq<string>, profiles: seq<string>, entry: string, p: string)
    ensures var e, ms := DeclaredEntry(entry, profiles), ModelsFor(entries, profiles, p);
            Distinct(ModelsFor(entries + [entry], profiles, p)) ==
            if (e.1 == p || e.1 == "") && e.0 !in Distinct(ms) then Distinct(ms) + [e.0] else Distinct(ms)
    ensures var e, ms := DeclaredEntry(entry, profiles), ModelsNamed(entries, profiles);
            Distinct(ModelsNamed(entries + [entry], profiles)) == if e.0 in Distinct(ms) then Distinct(ms) else Distinct(ms) + [e.0]
  {
    hide DeclaredEntry, Distinct;
    assert (entries + [entry])[..|entries|] == entries;
    var e, ms := DeclaredEntry(entry, profiles), ModelsFor(entries, profiles, p);
    assert ms + [] == ms;
    DistinctNext(ms, e.0);
    DistinctNext(ModelsNamed(entries, profiles), e.0);
  }

  /** DeclaredModels: every model once, and for each profile the models served for it, once each, in entry order. */
  method DeclaredModels(entries: seq<string>, profiles: seq<string>) returns (names: seq<string>, byProfile: map<string, seq<string>>)
    ensures names == Distinct(ModelsNamed(entries, profiles))
    ensures byProfile.Keys <= (set p | p in profiles)
    ensures forall p :: p in profiles ==> Served(byProfile, p) == Distinct(ModelsFor(entries, profiles, p))
  {
    hide Served, Distinct, ModelsFor, ModelsNamed, DeclaredEntry;
    names, byProfile := [], map[];
    NothingServed(profiles);
    for i := 0 to |entries|
      invariant names == Distinct(ModelsNamed(entries[..i], profiles))
      invariant byProfile.Keys <= set p | p in profiles
      invariant forall p :: p in profiles ==> Served(byProfile, p) == Distinct(ModelsFor(entries[..i], profiles, p))
    {
      var entry := DeclaredEntry(entries[i], profiles);
      var model, profile := entry.0, entry.1;
      EntryProfile(entries[i], profiles);
      assert entries[..i + 1] == entries[..i] + [entries[i]];
      EntryServes(entries[..i], profiles, entries[i], "");
      ghost var before := byProfile;
      byProfile := AddEntry(byProfile, profiles, model, profile);
      forall p | p in profiles ensures Served(byProfile, p) == Distinct(ModelsFor(entries[..i + 1], profiles, p)) {
        assert Served(before, p) == Distinct(ModelsFor(entries[..i], profiles, p));
        EntryServes(entries[..i], profiles, entries[i], p);
      }
      if model !in names {
        names := names + [model];
      }
    }
    assert entries[..|entries|] == entries;
  }

  lemma EntryProfile(entry: string, profiles: seq<string>)
    ensures DeclaredEntry(entry, profiles).1 != "" ==> DeclaredEntry(entry, profiles).1 in profiles
  {
  }

  lemma NothingServed(profiles: seq<string>)
    ensures Distinct(ModelsNamed([], profiles)) == []
    ensures forall p :: Served(map[], p) == [] == Distinct(ModelsFor([], profiles, p))
  {
  }

  /** byProfile as DeclaredModels makes it. */
  predicate ScopedBy(h: Host, entries: seq<string>) {
    && h.profileModels.Some?
    && forall p :: p in h.HostProfiles() ==> Served(h.profileModels.value, p) == Distinct(ModelsFor(entries, h.HostProfiles(), p))
  }

  /** The declaration, the host that was scoped by it and the profiles a survey records of it all say the same. */
  lemma ScopingAgrees(h: Host, entries: seq<string>, names: seq<string>, name: string, profile: string)
    requires ScopedBy(h, entries) && name in names
    ensures h.ServesModel(profile, name) <==> DeclaredFor(entries, h.HostProfiles(), profile, name)
    ensures h.DeclaredProfiles(names).Some? && name in h.DeclaredProfiles(names).value
    ensures profile in h.DeclaredProfiles(names).value[name] <==> h.ServesModel(profile, name)
  {
    if profile in h.HostProfiles() {
      assert Served(h.profileModels.value, profile) == Distinct(ModelsFor(entries, h.HostProfiles(), profile));
    }
  }
}
