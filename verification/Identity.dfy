/**
 What the provenance index says of a set of held objects: which family and which
 stores a name reaches, which stores hold a family, and that none of it depends
 on the order the objects come in.
 */
module Identity {
  import opened Order
  import opened Provenance

  // ---- What one object files ----

  datatype Entry =
    | Declares(key: string, fam: string)
    | Claims(claim: Claim)
    | Stores(fam: string, store: string)
    | Spells(fam: string, name: string)
    | Digests(digest: string, fam: string)
    | Holds(fam: string, component: Component)
    | Families(fam: string)

  predicate Has(log: Log, e: Entry) {
    match e
    case Declares(key, fam) => (key, fam) in log.declared
    case Claims(c) => c in log.claims
    case Stores(fam, store) => (fam, store) in log.stored
    case Spells(fam, name) => (fam, name) in log.spelled
    case Digests(digest, fam) => (digest, fam) in log.digests
    case Holds(fam, component) => (fam, component) in log.components
    case Families(fam) => fam in log.families
  }

  /** An object files an entry under one of its names. */
  predicate FilesUnder(env: Naming, o: HeldObject, name: string, e: Entry) {
    match e
    case Declares(key, fam) => key != "" && fam != "" && fam == Target(o) && Reaches(env.lower(name), key)
    case Claims(c) => c.key != "" && c.name != "" && c.store != "" && c.store == o.store && c.name == env.lower(name) && Reaches(c.name, c.key)
    case Stores(fam, store) => fam != "" && store != "" && store == o.store && FamilyUnder(env, o, name) == fam
    case Spells(fam, n) => n == name && fam != "" && FamilyUnder(env, o, name) == fam && !(IsComponent(o) && o.base != "")
    case Digests(digest, fam) => digest != "" && digest == o.digest && fam != "" && FamilyUnder(env, o, name) == fam
    case Holds(fam, c) => IsComponent(o) && fam == Target(o) && c == Component(o.store, o.role, name)
    case Families(fam) => false
  }

  /** What an object files whatever its names: its declared family, or itself as a nameless component. */
  predicate FilesItself(o: HeldObject, e: Entry) {
    match e
    case Families(fam) => !IsComponent(o) && fam != "" && fam == o.family
    case Holds(fam, c) => o.names == [] && IsComponent(o) && fam == Target(o) && c == Component(o.store, o.role, "")
    case _ => false
  }

  /** An object files an entry: the reference, with no pass and no order in it. */
  predicate Files(env: Naming, o: HeldObject, e: Entry) {
    Indexed(o) && (FilesItself(o, e) || exists n :: n in o.names && FilesUnder(env, o, n, e))
  }

  lemma HasThen(a: Log, b: Log, e: Entry)
    ensures Has(a.Then(b), e) <==> Has(a, e) || Has(b, e)
  {
  }

  lemma {:induction false} KeysFile(env: Naming, o: HeldObject, lower: string, keys: seq<string>, e: Entry)
    ensures Has(KeysLog(env, o, lower, keys), e) <==> exists key :: key in keys && Has(KeyLog(env, o, lower, key), e)
  {
    hide Has, KeyLog;
    if |keys| == 0 {
      assert !Has(NOTHING, e) by { NothingHas(e); }
    } else {
      var n := |keys| - 1;
      KeysFile(env, o, lower, keys[..n], e);
      HasThen(KeysLog(env, o, lower, keys[..n]), KeyLog(env, o, lower, keys[n]), e);
      assert keys == keys[..n] + [keys[n]];
    }
  }

  lemma NothingHas(e: Entry)
    ensures !Has(NOTHING, e)
  {
  }

  lemma NameFiles(env: Naming, o: HeldObject, name: string, e: Entry)
    requires Indexed(o)
    ensures Has(NameLog(env, o, name), e) <==> FilesUnder(env, o, name, e)
  {
    hide Reaches, Tails, KeysLog, FileLog;
    var lower := env.lower(name);
    FileFiles(env, o, name, e);
    HasThen(KeysLog(env, o, lower, Tails(lower)), FileLog(env, o, name), e);
    KeysFile(env, o, lower, Tails(lower), e);
    match e {
      case Declares(key, _) =>
        TailsReach(lower, key);
      case Claims(c) =>
        TailsReach(lower, c.key);
      case _ =>
    }
  }

  /** Filing a name records what is not a declaration and not a claim. */
  lemma FileFiles(env: Naming, o: HeldObject, name: string, e: Entry)
    requires Indexed(o)
    ensures Has(FileLog(env, o, name), e) <==> !e.Declares? && !e.Claims? && FilesUnder(env, o, name, e)
  {
    hide Reaches;
  }

  lemma {:induction false} NamesFile(env: Naming, o: HeldObject, names: seq<string>, e: Entry)
    ensures Has(NamesLog(env, o, names), e) <==> exists n :: n in names && Has(NameLog(env, o, n), e)
  {
    hide Has, NameLog;
    if |names| == 0 {
      NothingHas(e);
    } else {
      var n := |names| - 1;
      NamesFile(env, o, names[..n], e);
      HasThen(NamesLog(env, o, names[..n]), NameLog(env, o, names[n]), e);
      assert names == names[..n] + [names[n]];
    }
  }

  /** The pass over one object records exactly what it files. */
  lemma ObjectFiles(env: Naming, o: HeldObject, e: Entry)
    ensures Has(ObjectLog(env, o), e) <==> Files(env, o, e)
  {
    hide FilesUnder, NamesLog, NameLog;
    if !Indexed(o) {
      NothingHas(e);
    } else {
      HasThen(OwnLog(o), NamesLog(env, o, o.names), e);
      NamesFile(env, o, o.names, e);
      forall n | n in o.names ensures Has(NameLog(env, o, n), e) <==> FilesUnder(env, o, n, e) {
        NameFiles(env, o, n, e);
      }
    }
  }

  /** The first pass records exactly what the objects file. */
  lemma {:induction false} HeldFiles(env: Naming, held: seq<HeldObject>, e: Entry)
    ensures Has(HeldLog(env, held), e) <==> exists o :: o in held && Files(env, o, e)
  {
    hide Has, Files, ObjectLog;
    if |held| == 0 {
      NothingHas(e);
    } else {
      var n := |held| - 1;
      HeldFiles(env, held[..n], e);
      HasThen(HeldLog(env, held[..n]), ObjectLog(env, held[n]), e);
      ObjectFiles(env, held[n], e);
      assert held == held[..n] + [held[n]];
    }
  }

  // ---- The index as a function of what is held ----

  ghost function DeclaredOf(env: Naming, held: seq<HeldObject>): map<string, string> {
    Agreed(HeldLog(env, held).declared)
  }

  ghost function ByNameOf(env: Naming, held: seq<HeldObject>): map<string, set<string>> {
    Unshared(HeldLog(env, held).claims)
  }

  ghost function ByFamilyOf(env: Naming, held: seq<HeldObject>): map<string, set<string>> {
    Grouped(HeldLog(env, held).stored + JoinsLog(HeldLog(env, held).digests, held))
  }

  ghost function FamiliesOf(env: Naming, held: seq<HeldObject>): set<string> {
    set fam | fam in HeldLog(env, held).families
  }

  ghost function SpellingOf(env: Naming, held: seq<HeldObject>): map<string, string> {
    Spelled(HeldLog(env, held).spelled)
  }

  function ComponentBefore(a: Component, b: Component): bool {
    if a.store != b.store then Before(a.store, b.store)
    else if a.role != b.role then Before(a.role, b.role)
    else Before(a.name, b.name)
  }

  /** componentsFor: what is folded into a family, by store, role and name. */
  function ComponentsOf(env: Naming, held: seq<HeldObject>, fam: string): seq<Component> {
    Sort(Under(HeldLog(env, held).components, fam), ComponentBefore)
  }

  /** Some held object files the entry. */
  predicate Filed(env: Naming, held: seq<HeldObject>, e: Entry) {
    exists o :: o in held && Files(env, o, e)
  }

  // ---- What a key names ----

  /** A key names a family exactly when something declares it for that family and nothing declares it for another. */
  lemma KeyNamesFamily(env: Naming, held: seq<HeldObject>, key: string, fam: string)
    requires fam != ""
    ensures key in DeclaredOf(env, held) && DeclaredOf(env, held)[key] == fam <==>
            Filed(env, held, Declares(key, fam)) && forall other :: Filed(env, held, Declares(key, other)) ==> other == fam
  {
    hide Files, HeldLog;
    var ds := HeldLog(env, held).declared;
    forall other ensures (key, other) in ds <==> Filed(env, held, Declares(key, other)) {
      HeldFiles(env, held, Declares(key, other));
    }
    forall d | d in ds ensures d.1 != "" {
      HeldFiles(env, held, Declares(d.0, d.1));
      var o :| o in held && Files(env, o, Declares(d.0, d.1));
      FilesNothingEmpty(env, o, d.0, d.1);
    }
    if key in Keys(ds) {
      var d :| d in ds && d.0 == key;
      if Agree(ds, key) {
        assert Agreed(ds)[key] == d.1;
      }
    }
  }

  lemma FilesNothingEmpty(env: Naming, o: HeldObject, key: string, fam: string)
    requires Files(env, o, Declares(key, fam))
    ensures key != "" && fam != ""
  {
  }

  /** A key reaches a store exactly when some object of that store claims it and every claim to it is by one name. */
  lemma KeyReachesStore(env: Naming, held: seq<HeldObject>, key: string, store: string)
    ensures key in ByNameOf(env, held) && store in ByNameOf(env, held)[key] <==>
            exists name :: Filed(env, held, Claims(Claim(key, name, store)))
                           && forall other, at :: Filed(env, held, Claims(Claim(key, other, at))) ==> other == name
  {
    hide Files, HeldLog;
    var cs := HeldLog(env, held).claims;
    forall name, at ensures Claim(key, name, at) in cs <==> Filed(env, held, Claims(Claim(key, name, at))) {
      HeldFiles(env, held, Claims(Claim(key, name, at)));
    }
    forall d ensures d in Owners(cs) <==> exists i :: 0 <= i < |cs| && (cs[i].key, cs[i].name) == d {
      OwnersMember(cs, d);
    }
    if key in ByNameOf(env, held) && store in ByNameOf(env, held)[key] {
      var c :| c in cs && c.key == key && c.store == store;
      forall other, at | Claim(key, other, at) in cs ensures other == c.name {
        InOwners(cs, c);
        InOwners(cs, Claim(key, other, at));
        assert (key, c.name) in Owners(cs) && (key, other) in Owners(cs);
      }
      assert c == Claim(key, c.name, store);
    }
    if name :| Filed(env, held, Claims(Claim(key, name, store)))
               && forall other, at :: Filed(env, held, Claims(Claim(key, other, at))) ==> other == name {
      var c := Claim(key, name, store);
      InOwners(cs, c);
      forall d | d in Owners(cs) && d.0 == key ensures d.1 == name {
        var i :| 0 <= i < |cs| && (cs[i].key, cs[i].name) == d;
        assert cs[i] == Claim(key, cs[i].name, cs[i].store) && cs[i] in cs;
      }
      assert (key, name) in Owners(cs);
      assert Agree(Owners(cs), key);
      assert c in cs && c.store in Claimants(cs, key);
    }
  }

  lemma InOwners(cs: seq<Claim>, c: Claim)
    requires c in cs
    ensures (c.key, c.name) in Owners(cs)
  {
    var i :| 0 <= i < |cs| && cs[i] == c;
    assert Owners(cs)[i] == (c.key, c.name);
  }

  // ---- Tails ----

  /** A name is matched whole and by nothing else exactly when no slash in it has a tail after it. */
  lemma MatchedWholeOnly(name: string)
    ensures (forall key :: Reaches(name, key) ==> key == name) <==> forall i :: 0 <= i && i + 1 < |name| ==> name[i] != '/'
  {
    forall i | 0 <= i && i + 1 < |name| && name[i] == '/' ensures Reaches(name, name[i + 1..]) && name[i + 1..] != name {
      assert |name[i + 1..]| < |name|;
    }
  }

  /** A store's name with a slash names its family by its tail too. */
  lemma TailIsMatched(env: Naming)
    requires env.lower("a/b") == "a/b"
    ensures var held := [HeldObject("s", ["a/b"], "", "f", "", "")];
            "b" in DeclaredOf(env, held) && DeclaredOf(env, held)["b"] == "f"
  {
    var o := HeldObject("s", ["a/b"], "", "f", "", "");
    var held := [o];
    var name := "a/b";
    assert name[1] == '/' && name[2..] == "b";
    assert Reaches(name, "b");
    assert o.names[0] == name;
    assert name in o.names && FilesUnder(env, o, name, Declares("b", "f"));
    assert o in held && Files(env, o, Declares("b", "f"));
    assert Filed(env, held, Declares("b", "f"));
    forall other | Filed(env, held, Declares("b", other)) ensures other == "f" {
      var p :| p in held && Files(env, p, Declares("b", other));
      assert p == o;
    }
    KeyNamesFamily(env, held, "b", "f");
  }

  // ---- Which stores hold a family ----

  /** An object no index names is joined by its digest to every family that digest is filed under. */
  predicate Joined(env: Naming, held: seq<HeldObject>, o: HeldObject, fam: string, store: string) {
    o.names == [] && o.digest != "" && fam != "" && store != "" && o.store == store && Filed(env, held, Digests(o.digest, fam))
  }

  lemma {:induction false} JoinEachMember(fams: seq<string>, store: string, d: (string, string))
    ensures d in JoinEach(fams, store) <==> d.0 != "" && store != "" && d.1 == store && d.0 in fams
  {
    if |fams| > 0 {
      var n := |fams| - 1;
      JoinEachMember(fams[..n], store, d);
      assert fams == fams[..n] + [fams[n]];
    }
  }

  /** An object no index names adds a store to a family its digest is filed under. */
  predicate JoinsBy(digests: seq<(string, string)>, o: HeldObject, d: (string, string)) {
    o.names == [] && o.digest != "" && d.0 != "" && d.1 != "" && o.store == d.1 && (o.digest, d.0) in digests
  }

  lemma JoinMember(digests: seq<(string, string)>, o: HeldObject, d: (string, string))
    ensures d in JoinLog(digests, o) <==> JoinsBy(digests, o, d)
  {
    hide Under, JoinEach;
    JoinEachMember(Under(digests, o.digest), o.store, d);
    UnderMember(digests, o.digest, d.0);
  }

  lemma {:induction false} JoinsMember(digests: seq<(string, string)>, held: seq<HeldObject>, d: (string, string))
    ensures d in JoinsLog(digests, held) <==> exists o :: o in held && JoinsBy(digests, o, d)
  {
    if |held| > 0 {
      hide JoinLog, JoinsBy;
      var n := |held| - 1;
      JoinsMember(digests, held[..n], d);
      JoinMember(digests, held[n], d);
      assert held == held[..n] + [held[n]];
      assert held[n] in held && forall o :: o in held <==> o in held[..n] || o == held[n];
    }
  }

  /** A store holds a family exactly when a named object of it is filed there, or an unnamed one joins it by digest. */
  lemma StoreHoldsFamily(env: Naming, held: seq<HeldObject>, fam: string, store: string)
    ensures fam in ByFamilyOf(env, held) && store in ByFamilyOf(env, held)[fam] <==>
            Filed(env, held, Stores(fam, store)) || exists o :: o in held && Joined(env, held, o, fam, store)
  {
    hide Files, HeldLog;
    var log := HeldLog(env, held);
    var ds := log.stored + JoinsLog(log.digests, held);
    HeldFiles(env, held, Stores(fam, store));
    JoinsMember(log.digests, held, (fam, store));
    forall o ensures (o, fam) in log.digests <==> Filed(env, held, Digests(o, fam)) {
      HeldFiles(env, held, Digests(o, fam));
    }
    assert (fam, store) in ds <==> (fam, store) in log.stored || (fam, store) in JoinsLog(log.digests, held);
    assert fam in ByFamilyOf(env, held) && store in ByFamilyOf(env, held)[fam] <==> (fam, store) in ds by {
      if (fam, store) in ds {
        assert (fam, store).0 in Keys(ds);
      }
    }
    forall o | o in held
      ensures Joined(env, held, o, fam, store) <==> JoinsBy(log.digests, o, (fam, store))
    {
    }
  }

  // ---- Order ----

  lemma AgreedSame(ds: seq<(string, string)>, es: seq<(string, string)>)
    requires forall d :: d in ds <==> d in es
    ensures Agreed(ds) == Agreed(es)
  {
    assert Keys(ds) == Keys(es);
    forall k | k in Keys(ds) ensures Agreed(ds)[k] == Agreed(es)[k] {
      assert Agree(ds, k) == Agree(es, k);
      var d :| d in ds && d.0 == k;
      if Agree(ds, k) {
        assert WordOf(ds, k) == d.1 && WordOf(es, k) == d.1;
      }
    }
  }

  lemma UnsharedSame(cs: seq<Claim>, es: seq<Claim>)
    requires forall c :: c in cs <==> c in es
    ensures Unshared(cs) == Unshared(es)
  {
    forall d ensures d in Owners(cs) <==> d in Owners(es) {
      OwnersMember(cs, d);
      OwnersMember(es, d);
      if i :| 0 <= i < |cs| && (cs[i].key, cs[i].name) == d {
        assert cs[i] in es;
      }
      if i :| 0 <= i < |es| && (es[i].key, es[i].name) == d {
        assert es[i] in cs;
      }
    }
    assert Keys(Owners(cs)) == Keys(Owners(es));
    forall k ensures Agree(Owners(cs), k) == Agree(Owners(es), k) && Claimants(cs, k) == Claimants(es, k) {
    }
  }

  lemma GroupedSame(ds: seq<(string, string)>, es: seq<(string, string)>)
    requires forall d :: d in ds <==> d in es
    ensures Grouped(ds) == Grouped(es)
  {
    assert Keys(ds) == Keys(es);
    forall k ensures StoresFor(ds, k) == StoresFor(es, k) {
    }
  }

  /** The same objects in any order file the same. */
  lemma FiledSame(env: Naming, a: seq<HeldObject>, b: seq<HeldObject>, e: Entry)
    requires forall o :: o in a <==> o in b
    ensures Has(HeldLog(env, a), e) <==> Has(HeldLog(env, b), e)
  {
    hide Files, HeldLog, Has;
    HeldFiles(env, a, e);
    HeldFiles(env, b, e);
  }

  lemma {:induction false} UnderJoin<T>(ds: seq<(string, T)>, es: seq<(string, T)>, key: string)
    ensures Under(ds + es, key) == Under(ds, key) + Under(es, key)
  {
    if |es| == 0 {
      assert ds + es == ds;
    } else {
      var n := |es| - 1;
      assert (ds + es)[..|ds + es| - 1] == ds + es[..n];
      UnderJoin(ds, es[..n], key);
    }
  }

  function FoldedInto(env: Naming, fam: string): HeldObject -> seq<Component> {
    (o: HeldObject) => Under(ObjectLog(env, o).components, fam)
  }

  lemma {:induction false} ComponentsFlat(env: Naming, held: seq<HeldObject>, fam: string)
    ensures Under(HeldLog(env, held).components, fam) == Flat(held, FoldedInto(env, fam))
  {
    hide ObjectLog;
    if |held| > 0 {
      var n := |held| - 1;
      ComponentsFlat(env, held[..n], fam);
      UnderJoin(HeldLog(env, held[..n]).components, ObjectLog(env, held[n]).components, fam);
    }
  }

  lemma ComponentOrder()
    ensures StrictTotal(ComponentBefore)
  {
    hide Before;
    BeforeStrictTotal();
  }

  /** The index of the same objects in another order is the same index. */
  lemma IndexOrderFree(env: Naming, a: seq<HeldObject>, b: seq<HeldObject>, fam: string)
    requires multiset(a) == multiset(b)
    ensures DeclaredOf(env, a) == DeclaredOf(env, b)
    ensures ByNameOf(env, a) == ByNameOf(env, b)
    ensures ByFamilyOf(env, a) == ByFamilyOf(env, b)
    ensures FamiliesOf(env, a) == FamiliesOf(env, b)
    ensures SpellingOf(env, a).Keys == SpellingOf(env, b).Keys
    ensures ComponentsOf(env, a, fam) == ComponentsOf(env, b, fam)
  {
    hide HeldLog, Agreed, Unshared, Grouped, Under, JoinsLog, Firsts;
    SameMembers(a, b);
    var x, y := HeldLog(env, a), HeldLog(env, b);
    forall d ensures d in x.declared <==> d in y.declared {
      FiledSame(env, a, b, Declares(d.0, d.1));
    }
    AgreedSame(x.declared, y.declared);
    forall c ensures c in x.claims <==> c in y.claims {
      FiledSame(env, a, b, Claims(c));
    }
    UnsharedSame(x.claims, y.claims);
    forall d ensures d in x.stored + JoinsLog(x.digests, a) <==> d in y.stored + JoinsLog(y.digests, b) {
      StoredSame(env, a, b, d.0, d.1);
    }
    GroupedSame(x.stored + JoinsLog(x.digests, a), y.stored + JoinsLog(y.digests, b));
    forall f ensures f in x.families <==> f in y.families {
      FiledSame(env, a, b, Families(f));
    }
    forall f ensures f in Firsts(x.spelled) <==> f in Firsts(y.spelled) {
      SpelledSame(env, a, b, f);
    }
    ComponentsFlat(env, a, fam);
    ComponentsFlat(env, b, fam);
    FlatOrderFree(a, b, FoldedInto(env, fam));
    ComponentOrder();
    SortOrderFree(Under(x.components, fam), Under(y.components, fam), ComponentBefore);
  }

  lemma StoredSame(env: Naming, a: seq<HeldObject>, b: seq<HeldObject>, fam: string, store: string)
    requires forall o :: o in a <==> o in b
    ensures var x, y := HeldLog(env, a), HeldLog(env, b);
            (fam, store) in x.stored + JoinsLog(x.digests, a) <==> (fam, store) in y.stored + JoinsLog(y.digests, b)
  {
    hide HeldLog, JoinsLog;
    var x, y := HeldLog(env, a), HeldLog(env, b);
    FiledSame(env, a, b, Stores(fam, store));
    JoinsMember(x.digests, a, (fam, store));
    JoinsMember(y.digests, b, (fam, store));
    forall digest ensures (digest, fam) in x.digests <==> (digest, fam) in y.digests {
      FiledSame(env, a, b, Digests(digest, fam));
    }
  }

  lemma SpelledSame(env: Naming, a: seq<HeldObject>, b: seq<HeldObject>, fam: string)
    requires forall o :: o in a <==> o in b
    ensures fam in Firsts(HeldLog(env, a).spelled) <==> fam in Firsts(HeldLog(env, b).spelled)
  {
    hide HeldLog;
    var x, y := HeldLog(env, a).spelled, HeldLog(env, b).spelled;
    forall name ensures (fam, name) in x <==> (fam, name) in y {
      FiledSame(env, a, b, Spells(fam, name));
    }
    if i :| 0 <= i < |x| && x[i].0 == fam {
      assert (fam, x[i].1) in y;
      var j :| 0 <= j < |y| && y[j] == (fam, x[i].1);
    }
    if i :| 0 <= i < |y| && y[i].0 == fam {
      assert (fam, y[i].1) in x;
      var j :| 0 <= j < |x| && x[j] == (fam, y[i].1);
    }
  }

  /** The one thing that does depend on the order: the name a family no host serves is listed under is the first one met. */
  lemma SpellingFollowsOrder(env: Naming)
    ensures var a, b := HeldObject("s", ["x"], "", "f", "", ""), HeldObject("s", ["y"], "", "f", "", "");
            && "f" in SpellingOf(env, [a, b]) && SpellingOf(env, [a, b])["f"] == "x"
            && "f" in SpellingOf(env, [b, a]) && SpellingOf(env, [b, a])["f"] == "y"
  {
    SpellingOfTwo(env, "x", "y");
    SpellingOfTwo(env, "y", "x");
  }

  lemma SpellingOfTwo(env: Naming, first: string, second: string)
    ensures var a, b := HeldObject("s", [first], "", "f", "", ""), HeldObject("s", [second], "", "f", "", "");
            "f" in SpellingOf(env, [a, b]) && SpellingOf(env, [a, b])["f"] == first
  {
    var a, b := HeldObject("s", [first], "", "f", "", ""), HeldObject("s", [second], "", "f", "", "");
    hide ObjectLog;
    SpelledAlone(env, first, a);
    SpelledAlone(env, second, b);
    assert [a, b][..1] == [a] && [a][..0] == [];
    assert HeldLog(env, [a]).spelled == [("f", first)];
    var ds := HeldLog(env, [a, b]).spelled;
    assert ds == [("f", first), ("f", second)];
    assert ds[0].0 == "f";
    assert ds[..1] == [("f", first)] && ds[..1][..0] == [];
    assert Under(ds[..1], "f") == [first];
    assert Under(ds, "f") == [first] + [second];
  }

  lemma SpelledAlone(env: Naming, name: string, o: HeldObject)
    requires o == HeldObject("s", [name], "", "f", "", "")
    ensures ObjectLog(env, o).spelled == [("f", name)]
  {
    hide Tails;
    assert [name][..0] == [];
    KeysSpellNothing(env, o, env.lower(name), Tails(env.lower(name)));
    assert NamesLog(env, o, []) == NOTHING;
    assert NamesLog(env, o, [name]) == NOTHING.Then(NameLog(env, o, name));
    assert FileLog(env, o, name).spelled == [("f", name)];
  }

  lemma {:induction false} KeysSpellNothing(env: Naming, o: HeldObject, lower: string, keys: seq<string>)
    ensures KeysLog(env, o, lower, keys).spelled == []
  {
    if |keys| > 0 {
      KeysSpellNothing(env, o, lower, keys[..|keys| - 1]);
    }
  }
}
