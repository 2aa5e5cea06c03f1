/**
 What the catalogue says of the stores, told from the held objects' own fields:
 the family a name belongs to, the stores behind a family and behind a name, who
 said so, and the components folded in.
 */
module Holdings {
  import opened Basics
  import opened Order
  import opened Provenance
  import opened Identity
  import opened Hosts
  import opened Catalogue
  import opened Composition
  import opened Snapshots
  import opened Spellings
  import opened Reports
  import Decisions

  // ---- One object ----

  /** A part of another model: it carries a role, and the role is not the weights. */
  predicate Partial(o: HeldObject) {
    o.role != "" && o.role != "weights"
  }

  /** The family the object's descriptor puts all of its names in: a part's base before its own family. */
  function Described(o: HeldObject): string {
    if Partial(o) && o.base != "" then o.base else o.family
  }

  /** The family one of the object's names stands for; only the name's own spelling is left to weights without a family. */
  function FamilyByName(env: Naming, o: HeldObject, name: string): string {
    if Described(o) != "" || Partial(o) then Described(o) else env.known(env.lower(name))
  }

  /** An object whose descriptor says nothing of a part is passed over. */
  predicate Read(o: HeldObject) {
    Partial(o) ==> Described(o) != ""
  }

  /** A key reached by a name: the name, or what follows one of its slashes. */
  predicate Tail(name: string, key: string) {
    key == name || exists i :: 0 <= i && i + 1 < |name| && name[i] == '/' && key == name[i + 1..]
  }

  lemma FieldsExact(env: Naming, o: HeldObject, name: string, key: string)
    ensures Partial(o) <==> IsComponent(o)
    ensures Described(o) == Target(o) && FamilyByName(env, o, name) == FamilyUnder(env, o, name) && (Read(o) <==> Indexed(o))
    ensures Tail(name, key) <==> Reaches(name, key)
  {
  }

  // ---- What the objects say together ----

  /** Some object's descriptor declares the family for a name that reaches the key. */
  predicate Declared(env: Naming, held: seq<HeldObject>, key: string, fam: string) {
    exists o, n :: o in held && n in o.names && key != "" && fam != "" && Described(o) == fam && Tail(env.lower(n), key)
  }

  /** Some object of the store claims the key by a name. */
  predicate Claimed(env: Naming, held: seq<HeldObject>, key: string, name: string, store: string) {
    exists o, n :: o in held && n in o.names && Read(o) && key != "" && name != "" && store != "" && o.store == store && env.lower(n) == name && Tail(name, key)
  }

  /** A named object of the store stands in the family. */
  predicate HoldsNamed(env: Naming, held: seq<HeldObject>, fam: string, store: string) {
    exists o, n :: o in held && n in o.names && fam != "" && store != "" && o.store == store && FamilyByName(env, o, n) == fam
  }

  /** An unnamed object of the store has the digest of a named one in the family. */
  predicate HoldsUnnamed(env: Naming, held: seq<HeldObject>, fam: string, store: string) {
    exists o, p, n :: && o in held && p in held && n in p.names && fam != "" && store != "" && o.store == store
                      && o.names == [] && o.digest != "" && p.digest == o.digest && FamilyByName(env, p, n) == fam
  }

  lemma DeclaredExact(env: Naming, held: seq<HeldObject>, key: string, fam: string)
    ensures Declared(env, held, key, fam) <==> Filed(env, held, Declares(key, fam))
  {
    hide Tail, Reaches;
    forall o: HeldObject, n: string ensures Described(o) == Target(o) && (Read(o) <==> Indexed(o)) && (Tail(env.lower(n), key) <==> Reaches(env.lower(n), key)) {
      FieldsExact(env, o, env.lower(n), key);
    }
    if o, n :| o in held && n in o.names && key != "" && fam != "" && Described(o) == fam && Tail(env.lower(n), key) {
      assert FilesUnder(env, o, n, Declares(key, fam));
      assert Files(env, o, Declares(key, fam));
    }
    if o :| o in held && Files(env, o, Declares(key, fam)) {
      var n :| n in o.names && FilesUnder(env, o, n, Declares(key, fam));
    }
  }

  lemma ClaimedExact(env: Naming, held: seq<HeldObject>, key: string, name: string, store: string)
    ensures Claimed(env, held, key, name, store) <==> Filed(env, held, Claims(Claim(key, name, store)))
  {
    hide Tail, Reaches;
    forall o: HeldObject, n: string ensures (Read(o) <==> Indexed(o)) && (Tail(n, key) <==> Reaches(n, key)) {
      FieldsExact(env, o, n, key);
    }
    if o, n :| o in held && n in o.names && Read(o) && key != "" && name != "" && store != "" && o.store == store && env.lower(n) == name && Tail(name, key) {
      assert FilesUnder(env, o, n, Claims(Claim(key, name, store)));
      assert Files(env, o, Claims(Claim(key, name, store)));
    }
    if o :| o in held && Files(env, o, Claims(Claim(key, name, store))) {
      var n :| n in o.names && FilesUnder(env, o, n, Claims(Claim(key, name, store)));
    }
  }

  lemma NamedExact(env: Naming, held: seq<HeldObject>, fam: string, store: string)
    ensures HoldsNamed(env, held, fam, store) <==> Filed(env, held, Stores(fam, store))
  {
    hide FamilyByName, FamilyUnder;
    forall o: HeldObject, n: string ensures FamilyByName(env, o, n) == FamilyUnder(env, o, n) && (fam != "" && FamilyUnder(env, o, n) == fam ==> Indexed(o)) {
      FieldsExact(env, o, n, "");
      FiledIsIndexed(env, o, n);
    }
    if o, n :| o in held && n in o.names && fam != "" && store != "" && o.store == store && FamilyByName(env, o, n) == fam {
      assert FilesUnder(env, o, n, Stores(fam, store));
      assert Files(env, o, Stores(fam, store));
    }
    if o :| o in held && Files(env, o, Stores(fam, store)) {
      var n :| n in o.names && FilesUnder(env, o, n, Stores(fam, store));
    }
  }

  lemma FiledIsIndexed(env: Naming, o: HeldObject, n: string)
    ensures FamilyUnder(env, o, n) != "" ==> Indexed(o)
  {
  }

  lemma DigestExact(env: Naming, held: seq<HeldObject>, digest: string, fam: string)
    ensures Filed(env, held, Digests(digest, fam)) <==>
            exists p, n :: p in held && n in p.names && digest != "" && p.digest == digest && fam != "" && FamilyByName(env, p, n) == fam
  {
    hide FamilyByName, FamilyUnder;
    forall o: HeldObject, n: string ensures FamilyByName(env, o, n) == FamilyUnder(env, o, n) && (fam != "" && FamilyUnder(env, o, n) == fam ==> Indexed(o)) {
      FieldsExact(env, o, n, "");
      FiledIsIndexed(env, o, n);
    }
    if p, n :| p in held && n in p.names && digest != "" && p.digest == digest && fam != "" && FamilyByName(env, p, n) == fam {
      assert FilesUnder(env, p, n, Digests(digest, fam));
      assert Files(env, p, Digests(digest, fam));
    }
    if o :| o in held && Files(env, o, Digests(digest, fam)) {
      var n :| n in o.names && FilesUnder(env, o, n, Digests(digest, fam));
    }
  }

  lemma UnnamedExact(env: Naming, held: seq<HeldObject>, fam: string, store: string)
    ensures HoldsUnnamed(env, held, fam, store) <==> exists o :: o in held && Joined(env, held, o, fam, store)
  {
    hide FamilyByName, Filed;
    forall o: HeldObject
      ensures Filed(env, held, Digests(o.digest, fam)) <==>
              exists p, n :: p in held && n in p.names && o.digest != "" && p.digest == o.digest && fam != "" && FamilyByName(env, p, n) == fam
    {
      DigestExact(env, held, o.digest, fam);
    }
  }

  // ---- The catalogue of a survey ----

  /** A snapshot taken of these hosts with these objects held. */
  ghost predicate TakenWith(inputs: Inputs, held: seq<HeldObject>, fold: Survey, s: Snapshot)
    reads fold
  {
    TakenFrom(inputs, ViewFor(inputs.env, held), fold, s) && inputs.declared == DeclaredOf(inputs.env, held)
  }

  /** A survey of the router leaves such a snapshot, its hosts being told apart. */
  lemma SurveyTaken(inputs: Inputs, held: seq<HeldObject>, index: Index, fold: Survey, s: Snapshot)
    requires inputs.Valid() && Decisions.DistinctNames(inputs.hosts) && forall h :: h in inputs.hosts ==> h.name != ""
    requires inputs.declared == DeclaredOf(inputs.env, held)
    requires index.Holds(HeldLog(inputs.env, held), JoinsLog(HeldLog(inputs.env, held).digests, held))
    requires s.profiles == ProfilesOf(inputs.hosts, inputs.readings)
    requires Surveyed(inputs, ViewOf(index), fold, Notes(inputs.readings, |inputs.hosts|), s)
    ensures TakenWith(inputs, held, fold, s)
  {
    hide Surveyed, ViewOf, ViewFor, ProfilesOf, DeclaredOf, HeldLog, JoinsLog, Notes, Index.Holds;
    IndexView(inputs.env, held, index);
  }

  /** The one family that every object speaking of the key declares. */
  ghost predicate Sole(env: Naming, held: seq<HeldObject>, key: string, fam: string) {
    Declared(env, held, key, fam) && forall other :: Declared(env, held, key, other) ==> other == fam
  }

  lemma SoleExact(env: Naming, held: seq<HeldObject>, key: string, fam: string)
    ensures Sole(env, held, key, fam) <==> fam != "" && key in DeclaredOf(env, held) && DeclaredOf(env, held)[key] == fam
  {
    hide Filed, DeclaredOf;
    forall other ensures Declared(env, held, key, other) <==> Filed(env, held, Declares(key, other)) {
      DeclaredExact(env, held, key, other);
    }
    if fam != "" {
      hide Declared;
      KeyNamesFamily(env, held, key, fam);
    }
  }

  /** The family of a host's name: the sole one the objects declare for it, else the one its spelling gives. */
  lemma FamilyNamed(inputs: Inputs, held: seq<HeldObject>, name: string)
    requires inputs.declared == DeclaredOf(inputs.env, held)
    ensures var key := inputs.env.lower(name);
            && (forall fam :: Sole(inputs.env, held, key, fam) ==> inputs.FamilyOf(name) == fam)
            && ((forall fam :: !Sole(inputs.env, held, key, fam)) ==> inputs.FamilyOf(name) == inputs.env.known(key))
  {
    hide DeclaredOf, Sole;
    var key := inputs.env.lower(name);
    forall fam ensures Sole(inputs.env, held, key, fam) <==> fam != "" && key in inputs.declared && inputs.declared[key] == fam {
      SoleExact(inputs.env, held, key, fam);
    }
    if key in inputs.declared && inputs.declared[key] != "" {
      assert Sole(inputs.env, held, key, inputs.declared[key]);
    }
  }

  lemma StoresInMember(m: map<string, set<string>>, key: string, store: string)
    ensures store in StoresIn(m, key) <==> key in m && store in m[key]
    ensures Sorted(StoresIn(m, key), Before)
  {
    hide Before, Sorted, Ranked;
    BeforeStrictTotal();
    if key in m {
      RankedMembers(m[key], Before);
    } else {
      NothingSorted();
    }
  }

  lemma NothingSorted()
    ensures Sorted([], Before)
  {
  }

  /** Both kinds of family are annotated alike. */
  lemma Annotated(inputs: Inputs, held: seq<HeldObject>, fold: Survey, s: Snapshot, f: Family)
    requires TakenWith(inputs, held, fold, s) && f in s.families
    ensures var v := ViewFor(inputs.env, held);
            f.heldIn == StoresIn(v.byFamily, f.family) && f.source == SourceOf(v, f.family) && f.components == ComponentsIn(v, f.family)
  {
    hide Composed, FamiliesListed, StoresIn, SourceOf, ComponentsIn, ViewFor, Survey.Holds, ProfilesOf, Notes, Decisions.DistinctNames;
    ComposedFamilies(inputs.env, ViewFor(inputs.env, held), FamiliesListed(fold.byFamily), f);
  }

  /** The stores a family names are exactly those with a named object in it, or with an unnamed one of such an object's digest. */
  lemma StoresExact(inputs: Inputs, held: seq<HeldObject>, fold: Survey, s: Snapshot, f: Family, store: string)
    requires TakenWith(inputs, held, fold, s) && f in s.families
    ensures store in f.heldIn <==> HoldsNamed(inputs.env, held, f.family, store) || HoldsUnnamed(inputs.env, held, f.family, store)
    ensures Sorted(f.heldIn, Before)
  {
    hide TakenWith, StoresIn, ByFamilyOf, HoldsNamed, HoldsUnnamed, Filed, Joined, Before, Sorted;
    Annotated(inputs, held, fold, s, f);
    StoresInMember(ByFamilyOf(inputs.env, held), f.family, store);
    StoreHoldsFamily(inputs.env, held, f.family, store);
    NamedExact(inputs.env, held, f.family, store);
    UnnamedExact(inputs.env, held, f.family, store);
  }

  /** A family is a descriptor's exactly when some object that is no part declares it. */
  lemma SourceExact(inputs: Inputs, held: seq<HeldObject>, fold: Survey, s: Snapshot, f: Family)
    requires TakenWith(inputs, held, fold, s) && f in s.families
    ensures f.source == if f.family != "" && exists o :: o in held && !Partial(o) && o.family == f.family then "descriptor" else "alias"
  {
    hide TakenWith, HeldLog, ByFamilyOf, ByNameOf, SpellingOf, Collected;
    Annotated(inputs, held, fold, s, f);
    HeldFiles(inputs.env, held, Families(f.family));
    if o :| o in held && Files(inputs.env, o, Families(f.family)) {
      assert !Partial(o) && o.family == f.family;
    }
    if o :| o in held && !Partial(o) && o.family == f.family && f.family != "" {
      assert FilesItself(o, Families(f.family));
      assert Files(inputs.env, o, Families(f.family));
    }
  }

  /** A part of a family: an object folded into it, by each of its names, or without one. */
  predicate PartOf(held: seq<HeldObject>, fam: string, c: Component) {
    exists o :: && o in held && Partial(o) && fam != "" && Described(o) == fam && c.store == o.store && c.role == o.role
                && (c.name in o.names || (o.names == [] && c.name == ""))
  }

  lemma PartExact(env: Naming, held: seq<HeldObject>, fam: string, c: Component)
    ensures PartOf(held, fam, c) <==> Filed(env, held, Identity.Holds(fam, c))
  {
    hide Reaches;
    if o :| o in held && Partial(o) && fam != "" && Described(o) == fam && c.store == o.store && c.role == o.role
            && (c.name in o.names || (o.names == [] && c.name == "")) {
      FieldsExact(env, o, "", "");
      if c.name in o.names {
        assert FilesUnder(env, o, c.name, Identity.Holds(fam, c));
      } else {
        assert FilesItself(o, Identity.Holds(fam, c));
      }
      assert Files(env, o, Identity.Holds(fam, c));
    }
    if o :| o in held && Files(env, o, Identity.Holds(fam, c)) {
      FieldsExact(env, o, "", "");
    }
  }

  /** The components a family lists are exactly the objects folded into it. */
  lemma ComponentsExact(inputs: Inputs, held: seq<HeldObject>, fold: Survey, s: Snapshot, f: Family, c: Component)
    requires TakenWith(inputs, held, fold, s) && f in s.families
    ensures c in f.components <==> PartOf(held, f.family, c)
  {
    hide TakenWith, HeldLog, ViewFor, ComponentsIn, Filed, PartOf, Has, Under;
    Annotated(inputs, held, fold, s, f);
    ComponentsFor(inputs.env, held, f.family);
    var log := HeldLog(inputs.env, held);
    SameMembers(ComponentsOf(inputs.env, held, f.family), Under(log.components, f.family));
    UnderMember(log.components, f.family, c);
    HeldFiles(inputs.env, held, Identity.Holds(f.family, c));
    HasHolds(log, f.family, c);
    PartExact(inputs.env, held, f.family, c);
    FiledHolds(inputs.env, held, f.family, c);
  }

  lemma HasHolds(log: Log, fam: string, c: Component)
    ensures Has(log, Identity.Holds(fam, c)) <==> (fam, c) in log.components
  {
  }

  lemma FiledHolds(env: Naming, held: seq<HeldObject>, fam: string, c: Component)
    ensures Filed(env, held, Identity.Holds(fam, c)) <==> exists o :: o in held && Files(env, o, Identity.Holds(fam, c))
  {
  }

  /**
   The stores behind a host's name are exactly those that claim its lower-cased
   spelling, when every claim to it is by one name; and none otherwise.
   */
  lemma NameStoresExact(inputs: Inputs, held: seq<HeldObject>, i: nat, a: Alias, store: string)
    requires inputs.Valid() && i < |inputs.hosts| && Carries(inputs, ViewFor(inputs.env, held), i, a)
    ensures var key := inputs.env.lower(a.name);
            store in a.heldIn <==> exists name :: ClaimedAlone(inputs.env, held, key, name, store)
  {
    hide HeldLog, ByFamilyOf, ByNameOf, SpellingOf, FamiliesOf, Collected, StoresIn, Claimed, Filed;
    var env, key := inputs.env, inputs.env.lower(a.name);
    StoresInMember(ByNameOf(env, held), key, store);
    KeyReachesStore(env, held, key, store);
    forall name: string, at: string ensures Claimed(env, held, key, name, at) <==> Filed(env, held, Claims(Claim(key, name, at))) {
      ClaimedExact(env, held, key, name, at);
    }
    if name :| Filed(env, held, Claims(Claim(key, name, store))) && forall other, at :: Filed(env, held, Claims(Claim(key, other, at))) ==> other == name {
      assert ClaimedAlone(env, held, key, name, store);
    }
    if name :| ClaimedAlone(env, held, key, name, store) {
      assert Filed(env, held, Claims(Claim(key, name, store)));
    }
  }

  /** The store claims the key by the name, and no store claims it by another. */
  ghost predicate ClaimedAlone(env: Naming, held: seq<HeldObject>, key: string, name: string, store: string) {
    Claimed(env, held, key, name, store) && forall other, at :: Claimed(env, held, key, other, at) ==> other == name
  }

  // ---- Which families there are ----

  /** Some host reports a name of the family. */
  predicate ReportedIn(inputs: Inputs, fam: string)
    requires inputs.Valid()
  {
    fam != "" && exists i, name :: 0 <= i < |inputs.hosts| && name in inputs.readings[i].resident + inputs.readings[i].installed && inputs.FamilyOf(name) == fam
  }

  /** Some held object stands in the family by a name of its own, and not for another model's base. */
  predicate StoodFor(env: Naming, held: seq<HeldObject>, fam: string) {
    exists o, n :: o in held && n in o.names && fam != "" && !(Partial(o) && o.base != "") && FamilyByName(env, o, n) == fam
  }

  lemma StoodForExact(env: Naming, held: seq<HeldObject>, fam: string)
    ensures StoodFor(env, held, fam) <==> fam in SpellingOf(env, held)
  {
    hide HeldLog, FamilyByName, FamilyUnder;
    var ds := HeldLog(env, held).spelled;
    forall o: HeldObject, n: string ensures FamilyByName(env, o, n) == FamilyUnder(env, o, n) && (fam != "" && FamilyUnder(env, o, n) == fam ==> Indexed(o)) {
      FieldsExact(env, o, n, "");
      FiledIsIndexed(env, o, n);
    }
    FirstsMember(ds, fam);
    if o, n :| o in held && n in o.names && fam != "" && !(Partial(o) && o.base != "") && FamilyByName(env, o, n) == fam {
      assert FilesUnder(env, o, n, Spells(fam, n));
      assert Files(env, o, Spells(fam, n));
      HeldFiles(env, held, Spells(fam, n));
    }
    if k :| 0 <= k < |ds| && ds[k].0 == fam {
      assert ds[k] == (fam, ds[k].1) && ds[k] in ds;
      HeldFiles(env, held, Spells(fam, ds[k].1));
      var o :| o in held && Files(env, o, Spells(fam, ds[k].1));
      assert FilesUnder(env, o, ds[k].1, Spells(fam, ds[k].1));
    }
  }

  /** The catalogue has exactly the families some host reports a name of, and those some held object stands for. */
  lemma FamiliesListedExactly(inputs: Inputs, held: seq<HeldObject>, fold: Survey, s: Snapshot, fam: string)
    requires TakenWith(inputs, held, fold, s)
    ensures (exists f :: f in s.families && f.family == fam) <==> ReportedIn(inputs, fam) || StoodFor(inputs.env, held, fam)
  {
    hide Composed, FamiliesListed, StoresIn, SourceOf, ComponentsIn, NamesListed, Survey.Holds, ProfilesOf, Notes, Decisions.DistinctNames, DeclaredOf;
    hide HeldLog, ByFamilyOf, ByNameOf, SpellingOf, FamiliesOf, StoodFor, Inputs.FamilyOf, Inputs.AliasOf;
    var env, v, listed := inputs.env, ViewFor(inputs.env, held), FamiliesListed(fold.byFamily);
    StoodForExact(env, held, fam);
    FoldedFamilies(inputs, v, fold, s, fam);
    if f :| f in s.families && f.family == fam {
      ComposedFamilies(env, v, listed, f);
      if g :| g in listed && f == HeldFamily(env, v, g) {
        ListedFamilies(fold.byFamily, g);
      }
    }
    if fam in fold.byFamily {
      var g := Family(fam, NamesListed(fold.byFamily[fam]), [], "", []);
      ListedFamilies(fold.byFamily, g);
      ComposedFamilies(env, v, listed, HeldFamily(env, v, g));
    } else if fam in v.spelling {
      forall g | g in listed ensures g.family != fam {
        ListedFamilies(fold.byFamily, g);
      }
      ComposedFamilies(env, v, listed, StoredFamily(v, fam));
    }
  }

  lemma SomeKey(names: map<Served, Alias>) returns (key: Served)
    requires names != map[]
    ensures key in names
  {
    assert names.Keys != {};
    key :| key in names.Keys;
  }

  /** The fold has exactly the families reported. */
  lemma FoldedFamilies(inputs: Inputs, view: View, fold: Survey, s: Snapshot, fam: string)
    requires TakenFrom(inputs, view, fold, s)
    ensures fam in fold.byFamily <==> ReportedIn(inputs, fam)
  {
    hide Composed, FamiliesListed, ProfilesOf, Notes, Decisions.DistinctNames, Inputs.FamilyOf, Inputs.AliasOf, Survey.PicksHold, Survey.NamesHold, Inputs.Picked;
    hide Inputs.NotingResident, Inputs.Noting;
    assert fold.AliasesHold(Notes(inputs.readings, |inputs.hosts|));
    if fam in fold.byFamily {
      var key := SomeKey(fold.byFamily[fam]);
      Folded(inputs, fold, fam, key);
      assert key.1 in inputs.readings[key.0].resident + inputs.readings[key.0].installed;
    }
    if ReportedIn(inputs, fam) {
      var i, name :| 0 <= i < |inputs.hosts| && name in inputs.readings[i].resident + inputs.readings[i].installed && inputs.FamilyOf(name) == fam;
      Folded(inputs, fold, fam, (i, name));
    }
  }

  /** A family only stores hold lists one name, of no host, with nothing reported of it and the family's own stores. */
  lemma StoredAliasExact(inputs: Inputs, held: seq<HeldObject>, fold: Survey, s: Snapshot, f: Family, a: Alias)
    requires TakenWith(inputs, held, fold, s) && f in s.families && a in f.names && a.host == ""
    ensures f.names == [a] && f.family in SpellingOf(inputs.env, held) && a.name == SpellingOf(inputs.env, held)[f.family]
    ensures !a.resident && !a.servable && !a.hosted && a.profiles == [] && a.contextLength == 0 && a.effective == 0 && a.heldIn == f.heldIn
  {
    hide Composed, FamiliesListed, StoresIn, SourceOf, ComponentsIn, NamesListed, Survey.Holds, ProfilesOf, Notes, Decisions.DistinctNames, DeclaredOf;
    hide HeldLog, ByFamilyOf, ByNameOf, SpellingOf, FamiliesOf, Inputs.FamilyOf, Inputs.AliasOf;
    var env, v, listed := inputs.env, ViewFor(inputs.env, held), FamiliesListed(fold.byFamily);
    ComposedFamilies(env, v, listed, f);
    if g :| g in listed && f == HeldFamily(env, v, g) {
      ListedFamilies(fold.byFamily, g);
      var i :| 0 <= i < |f.names| && f.names[i] == a;
      ListedNames(fold.byFamily[g.family], g.names[i]);
      var key :| key in fold.byFamily[g.family] && fold.byFamily[g.family][key] == g.names[i];
      Folded(inputs, fold, g.family, key);
      AliasHosted(inputs, key);
    }
  }

  lemma AliasHosted(inputs: Inputs, key: Served)
    requires inputs.Valid() && key.0 < |inputs.hosts| && forall h :: h in inputs.hosts ==> h.name != ""
    ensures inputs.AliasOf(key, key.1 in inputs.readings[key.0].resident).host != ""
  {
    assert inputs.hosts[key.0] in inputs.hosts;
  }
}
