/** The one thing the order of the held objects decides: the name a family no host serves is listed under. */
module Spellings {
  import opened Basics
  import opened Order
  import opened Provenance
  import opened Identity
  import opened Catalogue
  import opened Composition

  // ---- The name one object gives a family ----

  /** The first of the names an object files under the family. */
  function FirstFiled(env: Naming, o: HeldObject, names: seq<string>, fam: string): Option<string> {
    if |names| == 0 then None
    else if FilesUnder(env, o, names[0], Spells(fam, names[0])) then Some(names[0])
    else FirstFiled(env, o, names[1..], fam)
  }

  function Shows(env: Naming, o: HeldObject, fam: string): Option<string> {
    if Indexed(o) then FirstFiled(env, o, o.names, fam) else None
  }

  /** Any two held objects that file the family by name show the same name for it, for every family outside some. */
  ghost predicate ShowAlike(env: Naming, held: seq<HeldObject>, except: set<string>) {
    forall fam, x, y :: fam !in except && x in held && y in held && Shows(env, x, fam).Some? && Shows(env, y, fam).Some? ==>
      Shows(env, x, fam) == Shows(env, y, fam)
  }

  // ---- What the pass records ----

  function FirstOf<T>(s: seq<T>): Option<T> {
    if s == [] then None else Some(s[0])
  }

  function OrElse<T>(a: Option<T>, b: Option<T>): Option<T> {
    if a.Some? then a else b
  }

  lemma NameSpelled(env: Naming, o: HeldObject, name: string, fam: string)
    requires Indexed(o)
    ensures FirstOf(Under(NameLog(env, o, name).spelled, fam)) == if FilesUnder(env, o, name, Spells(fam, name)) then Some(name) else None
  {
    hide Tails, KeysLog, FileLog, Under;
    var lower := env.lower(name);
    KeysSpellNothing(env, o, lower, Tails(lower));
    var spelled := FileLog(env, o, name).spelled;
    assert NameLog(env, o, name).spelled == [] + spelled;
    assert [] + spelled == spelled;
    FileSpelled(env, o, name, fam);
  }

  lemma FileSpelled(env: Naming, o: HeldObject, name: string, fam: string)
    requires Indexed(o)
    ensures FirstOf(Under(FileLog(env, o, name).spelled, fam)) == if FilesUnder(env, o, name, Spells(fam, name)) then Some(name) else None
  {
    hide FamilyUnder;
    var own := FamilyUnder(env, o, name);
    var spelled := FileLog(env, o, name).spelled;
    if own != "" && !(IsComponent(o) && o.base != "") {
      assert spelled == [(own, name)] && spelled[..0] == [];
    } else {
      assert spelled == [];
    }
  }

  lemma {:induction false} FirstFiledNext(env: Naming, o: HeldObject, names: seq<string>, fam: string)
    requires |names| > 0
    ensures var n := |names| - 1;
            FirstFiled(env, o, names, fam) == OrElse(FirstFiled(env, o, names[..n], fam),
              if FilesUnder(env, o, names[n], Spells(fam, names[n])) then Some(names[n]) else None)
  {
    hide FilesUnder;
    var n := |names| - 1;
    if n > 0 {
      FirstFiledNext(env, o, names[1..], fam);
      assert names[1..][..n - 1] == names[..n][1..] && names[1..][n - 1] == names[n];
    }
  }

  lemma {:induction false} NamesSpelled(env: Naming, o: HeldObject, names: seq<string>, fam: string)
    requires Indexed(o)
    ensures FirstOf(Under(NamesLog(env, o, names).spelled, fam)) == FirstFiled(env, o, names, fam)
  {
    hide NameLog, FilesUnder;
    if |names| > 0 {
      var n := |names| - 1;
      NamesSpelled(env, o, names[..n], fam);
      NameSpelled(env, o, names[n], fam);
      FirstFiledNext(env, o, names, fam);
      UnderJoin(NamesLog(env, o, names[..n]).spelled, NameLog(env, o, names[n]).spelled, fam);
    }
  }

  lemma NothingSpelled(fam: string)
    ensures Under(NOTHING.spelled, fam) == []
  {
  }

  /** The pass over an object records the name it shows first. */
  lemma ObjectSpelled(env: Naming, o: HeldObject, fam: string)
    ensures FirstOf(Under(ObjectLog(env, o).spelled, fam)) == Shows(env, o, fam)
  {
    hide NamesLog, FirstFiled, Under;
    if Indexed(o) {
      NamesSpelled(env, o, o.names, fam);
      var spelled := NamesLog(env, o, o.names).spelled;
      assert OwnLog(o).spelled == [];
      assert ObjectLog(env, o).spelled == [] + spelled;
      assert [] + spelled == spelled;
    } else {
      NothingSpelled(fam);
    }
  }

  /** The name the first object to show one shows. */
  function FirstShown(env: Naming, held: seq<HeldObject>, fam: string): Option<string> {
    if |held| == 0 then None else OrElse(FirstShown(env, held[..|held| - 1], fam), Shows(env, held[|held| - 1], fam))
  }

  lemma {:induction false} HeldSpelled(env: Naming, held: seq<HeldObject>, fam: string)
    ensures FirstOf(Under(HeldLog(env, held).spelled, fam)) == FirstShown(env, held, fam)
  {
    hide ObjectLog, Shows;
    if |held| > 0 {
      var n := |held| - 1;
      HeldSpelled(env, held[..n], fam);
      ObjectSpelled(env, held[n], fam);
      UnderJoin(HeldLog(env, held[..n]).spelled, ObjectLog(env, held[n]).spelled, fam);
    }
  }

  /** The spelling index: for each family, the name its first object shows. */
  lemma SpellingExact(env: Naming, held: seq<HeldObject>, fam: string)
    ensures fam in SpellingOf(env, held) <==> FirstShown(env, held, fam).Some?
    ensures fam in SpellingOf(env, held) ==> FirstShown(env, held, fam) == Some(SpellingOf(env, held)[fam])
  {
    hide HeldLog, FirstShown;
    HeldSpelled(env, held, fam);
    var ds := HeldLog(env, held).spelled;
    if fam in Firsts(ds) {
      SomethingUnder(ds, fam);
    } else {
      NothingUnder(ds, fam);
    }
  }

  // ---- When the order decides nothing ----

  lemma {:induction false} ShownBySome(env: Naming, held: seq<HeldObject>, fam: string)
    ensures FirstShown(env, held, fam).Some? ==> exists o :: o in held && Shows(env, o, fam) == FirstShown(env, held, fam)
    ensures FirstShown(env, held, fam).None? ==> forall o :: o in held ==> Shows(env, o, fam).None?
  {
    hide Shows;
    if |held| > 0 {
      var n := |held| - 1;
      ShownBySome(env, held[..n], fam);
      assert held == held[..n] + [held[n]];
      assert held[n] in held && forall o :: o in held[..n] ==> o in held;
    }
  }

  lemma {:induction false} FirstObjectShows(env: Naming, o: HeldObject, rest: seq<HeldObject>, fam: string)
    requires Shows(env, o, fam).Some?
    ensures FirstShown(env, [o] + rest, fam) == Shows(env, o, fam)
  {
    hide Shows;
    var held := [o] + rest;
    if |rest| == 0 {
      assert held == [o] && held[..0] == [];
      assert FirstShown(env, [], fam) == None;
    } else {
      assert held[..|held| - 1] == [o] + rest[..|rest| - 1];
      FirstObjectShows(env, o, rest[..|rest| - 1], fam);
    }
  }

  /** Some rearrangement begins with a given object. */
  lemma PutFirst(held: seq<HeldObject>, o: HeldObject) returns (rest: seq<HeldObject>)
    requires o in held
    ensures multiset([o] + rest) == multiset(held)
  {
    var i :| 0 <= i < |held| && held[i] == o;
    rest := held[..i] + held[i + 1..];
    assert held == held[..i] + ([o] + held[i + 1..]);
  }

  lemma AlikeShown(env: Naming, a: seq<HeldObject>, b: seq<HeldObject>, except: set<string>, fam: string)
    requires multiset(a) == multiset(b) && ShowAlike(env, a, except) && fam !in except
    ensures FirstShown(env, a, fam) == FirstShown(env, b, fam)
  {
    hide Shows, FirstShown;
    SameMembers(a, b);
    ShownBySome(env, a, fam);
    ShownBySome(env, b, fam);
  }

  /** The families' names outside some are the same for every order of the objects exactly when the objects show alike there. */
  lemma SpellingOrderFree(env: Naming, a: seq<HeldObject>, except: set<string>)
    ensures (forall b, fam :: multiset(b) == multiset(a) && fam !in except ==> FirstShown(env, b, fam) == FirstShown(env, a, fam))
            <==> ShowAlike(env, a, except)
  {
    hide Shows, FirstShown;
    if ShowAlike(env, a, except) {
      forall b, fam | multiset(b) == multiset(a) && fam !in except ensures FirstShown(env, b, fam) == FirstShown(env, a, fam) {
        AlikeShown(env, a, b, except, fam);
      }
    } else {
      var fam, x, y :| && fam !in except && x in a && y in a && Shows(env, x, fam).Some? && Shows(env, y, fam).Some?
                       && Shows(env, x, fam) != Shows(env, y, fam);
      var r := PutFirst(a, x);
      var t := PutFirst(a, y);
      FirstObjectShows(env, x, r, fam);
      FirstObjectShows(env, y, t, fam);
      assert FirstShown(env, [x] + r, fam) != FirstShown(env, [y] + t, fam);
    }
  }

  /** The spelling index is the same for every order of the objects exactly when any two that file a family by name show the same name. */
  lemma SpellingIndexOrderFree(env: Naming, a: seq<HeldObject>)
    ensures (forall b :: multiset(b) == multiset(a) ==> SpellingOf(env, b) == SpellingOf(env, a)) <==> ShowAlike(env, a, {})
  {
    hide ShowAlike, FirstShown, SpellingOf;
    SpellingOrderFree(env, a, {});
    if ShowAlike(env, a, {}) {
      forall b | multiset(b) == multiset(a) ensures SpellingOf(env, b) == SpellingOf(env, a) {
        forall fam ensures FirstShown(env, b, fam) == FirstShown(env, a, fam) {
          AlikeShown(env, a, b, {}, fam);
        }
        SpellingSame(env, a, b);
      }
    }
    if forall b :: multiset(b) == multiset(a) ==> SpellingOf(env, b) == SpellingOf(env, a) {
      forall b, fam | multiset(b) == multiset(a) ensures FirstShown(env, b, fam) == FirstShown(env, a, fam) {
        assert SpellingOf(env, b) == SpellingOf(env, a);
        SameSpelling(env, a, b, fam);
      }
    }
  }

  lemma SpellingSame(env: Naming, a: seq<HeldObject>, b: seq<HeldObject>)
    requires forall fam :: FirstShown(env, b, fam) == FirstShown(env, a, fam)
    ensures SpellingOf(env, b) == SpellingOf(env, a)
  {
    hide FirstShown, SpellingOf;
    forall fam
      ensures fam in SpellingOf(env, b) <==> fam in SpellingOf(env, a)
      ensures fam in SpellingOf(env, b) ==> SpellingOf(env, b)[fam] == SpellingOf(env, a)[fam]
    {
      assert FirstShown(env, b, fam) == FirstShown(env, a, fam);
      SpellingExact(env, a, fam);
      SpellingExact(env, b, fam);
    }
  }

  lemma SameSpelling(env: Naming, a: seq<HeldObject>, b: seq<HeldObject>, fam: string)
    requires SpellingOf(env, b) == SpellingOf(env, a)
    ensures FirstShown(env, b, fam) == FirstShown(env, a, fam)
  {
    hide FirstShown, SpellingOf;
    SpellingExact(env, a, fam);
    SpellingExact(env, b, fam);
  }

  // ---- The catalogue ----

  /** What composing reads of the index of some held objects. */
  ghost function ViewFor(env: Naming, held: seq<HeldObject>): View {
    View(ByFamilyOf(env, held), ByNameOf(env, held), SpellingOf(env, held), FamiliesOf(env, held), Collected(HeldLog(env, held).components))
  }

  lemma IndexView(env: Naming, held: seq<HeldObject>, p: Index)
    requires p.Holds(HeldLog(env, held), JoinsLog(HeldLog(env, held).digests, held))
    ensures ViewOf(p) == ViewFor(env, held)
  {
    hide HeldLog, JoinsLog, Agreed, Grouped, Unshared, Spelled, Collected;
  }

  /** The catalogue of the hosts' families and the held objects. */
  ghost function CatalogueOf(env: Naming, held: seq<HeldObject>, families: seq<Family>): seq<Family> {
    Composed(env, ViewFor(env, held), families)
  }

  /** Two views that differ in the spellings alone. */
  ghost predicate SameBesides(v: View, w: View) {
    && v.byFamily == w.byFamily && v.byName == w.byName && v.families == w.families && v.spelling.Keys == w.spelling.Keys
    && forall fam :: ComponentsIn(v, fam) == ComponentsIn(w, fam)
  }

  lemma ComponentsFor(env: Naming, held: seq<HeldObject>, fam: string)
    ensures ComponentsIn(ViewFor(env, held), fam) == ComponentsOf(env, held, fam)
  {
    hide HeldLog, ByFamilyOf, ByNameOf, SpellingOf, FamiliesOf;
    var ds := HeldLog(env, held).components;
    if fam !in Firsts(ds) {
      NothingUnder(ds, fam);
    }
  }

  lemma ViewsAlike(env: Naming, a: seq<HeldObject>, b: seq<HeldObject>)
    requires multiset(a) == multiset(b)
    ensures SameBesides(ViewFor(env, a), ViewFor(env, b))
  {
    hide ComponentsIn, ComponentsOf, ByFamilyOf, ByNameOf, SpellingOf, FamiliesOf;
    forall fam ensures ComponentsIn(ViewFor(env, a), fam) == ComponentsIn(ViewFor(env, b), fam) {
      ComponentsFor(env, a, fam);
      ComponentsFor(env, b, fam);
      IndexOrderFree(env, a, b, fam);
    }
    IndexOrderFree(env, a, b, "");
  }

  /** A family only stores hold, listed under another view's spelling; any other family as it is. */
  function Respelled(f: Family, spelling: map<string, string>, named: set<string>): Family {
    if f.family in named || f.family !in spelling || f.names == [] then f
    else f.(names := [f.names[0].(name := spelling[f.family])])
  }

  lemma HeldSame(env: Naming, v: View, w: View, g: Family, named: set<string>)
    requires SameBesides(v, w) && g.family in named
    ensures HeldFamily(env, v, g) == HeldFamily(env, w, g) == Respelled(HeldFamily(env, w, g), v.spelling, named)
  {
    hide ComponentsIn, StoresIn;
    assert HeldAliases(env, v, g.names) == HeldAliases(env, w, g.names);
  }

  lemma StoredSame(v: View, w: View, fam: string, named: set<string>)
    requires SameBesides(v, w) && fam !in named && fam in v.spelling
    ensures fam in w.spelling && StoredFamily(v, fam) == Respelled(StoredFamily(w, fam), v.spelling, named)
  {
    hide ComponentsIn, StoresIn;
  }

  /** Each view's catalogue holds the other's families, respelled. */
  lemma RespelledMember(env: Naming, v: View, w: View, families: seq<Family>, g: Family)
    requires SameBesides(v, w) && g in Composed(env, w, families)
    ensures Respelled(g, v.spelling, FamilyNames(families)) in Composed(env, v, families)
  {
    hide Composed, HeldFamily, StoredFamily, Respelled, SameBesides;
    var named := FamilyNames(families);
    ComposedFamilies(env, w, families, g);
    var f := Respelled(g, v.spelling, named);
    ComposedFamilies(env, v, families, f);
    if h :| h in families && g == HeldFamily(env, w, h) {
      HeldSame(env, v, w, h, named);
    } else {
      SpelledSame(v, w, g.family);
      StoredSame(v, w, g.family, named);
      StoredName(v, g.family);
    }
  }

  lemma SpelledSame(v: View, w: View, fam: string)
    requires SameBesides(v, w)
    ensures fam in v.spelling <==> fam in w.spelling
  {
    assert fam in v.spelling.Keys <==> fam in w.spelling.Keys;
  }

  lemma RespelledFrom(env: Naming, v: View, w: View, families: seq<Family>, f: Family)
    requires SameBesides(v, w) && f in Composed(env, v, families)
    ensures exists g :: g in Composed(env, w, families) && f == Respelled(g, v.spelling, FamilyNames(families))
  {
    hide Composed, HeldFamily, StoredFamily, Respelled, SameBesides;
    var named := FamilyNames(families);
    ComposedFamilies(env, v, families, f);
    if h :| h in families && f == HeldFamily(env, v, h) {
      HeldSame(env, v, w, h, named);
      ComposedFamilies(env, w, families, HeldFamily(env, w, h));
    } else {
      StoredSame(v, w, f.family, named);
      StoredName(w, f.family);
      ComposedFamilies(env, w, families, StoredFamily(w, f.family));
    }
  }

  lemma RespelledFamily(f: Family, spelling: map<string, string>, named: set<string>)
    ensures Respelled(f, spelling, named).family == f.family
  {
  }

  lemma OnceAndSame(a: seq<Family>, b: seq<Family>)
    requires OnceEach(a) && OnceEach(b) && forall f :: f in a <==> f in b
    ensures multiset(a) == multiset(b)
  {
    forall f ensures multiset(a)[f] == multiset(b)[f] {
      AtMostOnce(a, f);
      AtMostOnce(b, f);
      assert (f in a <==> f in multiset(a)) && (f in b <==> f in multiset(b));
    }
  }

  /** Two views that differ in the spellings alone make catalogues that differ in those names alone. */
  lemma ComposedAlike(env: Naming, v: View, w: View, families: seq<Family>)
    requires SameBesides(v, w) && OnceEach(families)
    ensures |Composed(env, v, families)| == |Composed(env, w, families)|
    ensures forall i :: 0 <= i < |Composed(env, v, families)| ==>
              Composed(env, v, families)[i] == Respelled(Composed(env, w, families)[i], v.spelling, FamilyNames(families))
  {
    hide Composed, Respelled, SameBesides, FamilyNames, Before;
    var c, d, named := Composed(env, v, families), Composed(env, w, families), FamilyNames(families);
    var e := seq(|d|, i requires 0 <= i < |d| => Respelled(d[i], v.spelling, named));
    ComposedOnce(env, v, families);
    ComposedOnce(env, w, families);
    forall i | 0 <= i < |e| ensures e[i].family == d[i].family && e[i] in c {
      RespelledFamily(d[i], v.spelling, named);
      RespelledMember(env, v, w, families, d[i]);
    }
    forall f | f in c ensures f in e {
      RespelledFrom(env, v, w, families, f);
      var g :| g in d && f == Respelled(g, v.spelling, named);
      var i :| 0 <= i < |d| && d[i] == g;
      assert e[i] == f;
    }
    OnceAndSame(c, e);
    OnceApart(c);
    FamilyOrder();
    SortedUnique(c, e, FamilyBefore);
  }

  lemma OnceApart(c: seq<Family>)
    requires OnceEach(c)
    ensures Apart(c, FamilyBefore)
  {
    forall f, g | f in c && g in c && f.family == g.family ensures f == g {
      var i :| 0 <= i < |c| && c[i] == f;
      var j :| 0 <= j < |c| && c[j] == g;
    }
    FamiliesApart(c);
  }

  /** The same objects in another order make the same catalogue, but for the names of the families only stores hold. */
  lemma CatalogueRespelled(env: Naming, a: seq<HeldObject>, b: seq<HeldObject>, families: seq<Family>)
    requires multiset(a) == multiset(b) && OnceEach(families)
    ensures |CatalogueOf(env, b, families)| == |CatalogueOf(env, a, families)|
    ensures forall i :: 0 <= i < |CatalogueOf(env, b, families)| ==>
              CatalogueOf(env, b, families)[i] == Respelled(CatalogueOf(env, a, families)[i], SpellingOf(env, b), FamilyNames(families))
  {
    hide Composed, Respelled, SpellingOf;
    ViewsAlike(env, b, a);
    ComposedAlike(env, ViewFor(env, b), ViewFor(env, a), families);
  }

  lemma SpellingKept(env: Naming, a: seq<HeldObject>, families: seq<Family>, g: Family, spelling: map<string, string>)
    requires g in CatalogueOf(env, a, families)
    requires forall fam :: fam !in FamilyNames(families) && fam in spelling && fam in SpellingOf(env, a) ==> spelling[fam] == SpellingOf(env, a)[fam]
    ensures Respelled(g, spelling, FamilyNames(families)) == g
  {
    hide Composed, SpellingOf, StoresIn, ComponentsIn;
    ComposedFamilies(env, ViewFor(env, a), families, g);
  }

  /** A family only stores hold is listed under its spelling. */
  lemma SpellingListed(env: Naming, a: seq<HeldObject>, families: seq<Family>, fam: string)
    requires fam !in FamilyNames(families) && fam in SpellingOf(env, a)
    ensures exists g :: g in CatalogueOf(env, a, families) && g.family == fam
    ensures forall g :: g in CatalogueOf(env, a, families) && g.family == fam ==> g.names != [] && g.names[0].name == SpellingOf(env, a)[fam]
  {
    hide Composed, SpellingOf, HeldFamily, StoresIn, ComponentsIn;
    var v := ViewFor(env, a);
    ComposedFamilies(env, v, families, StoredFamily(v, fam));
    forall g | g in CatalogueOf(env, a, families) && g.family == fam ensures g == StoredFamily(v, fam) {
      ComposedFamilies(env, v, families, g);
      if h :| h in families && g == HeldFamily(env, v, h) {
        HeldFamilyName(env, v, h);
      }
    }
  }

  lemma HeldFamilyName(env: Naming, v: View, h: Family)
    ensures HeldFamily(env, v, h).family == h.family
  {
  }

  /**
   The whole catalogue is the same for every order of the held objects exactly
   when any two of them that file a family no host serves show the same name for it.
   */
  lemma CatalogueOrderExact(env: Naming, a: seq<HeldObject>, families: seq<Family>)
    requires OnceEach(families)
    ensures (forall b :: multiset(b) == multiset(a) ==> CatalogueOf(env, b, families) == CatalogueOf(env, a, families))
            <==> ShowAlike(env, a, FamilyNames(families))
  {
    hide ShowAlike, CatalogueOf, FamilyNames, FirstShown;
    var named := FamilyNames(families);
    SpellingOrderFree(env, a, named);
    if ShowAlike(env, a, named) {
      forall b | multiset(b) == multiset(a) ensures CatalogueOf(env, b, families) == CatalogueOf(env, a, families) {
        AlikeCatalogue(env, a, b, families);
      }
    }
    if forall b :: multiset(b) == multiset(a) ==> CatalogueOf(env, b, families) == CatalogueOf(env, a, families) {
      forall b, fam | multiset(b) == multiset(a) && fam !in named ensures FirstShown(env, b, fam) == FirstShown(env, a, fam) {
        assert CatalogueOf(env, b, families) == CatalogueOf(env, a, families);
        CatalogueShows(env, a, b, families, fam);
      }
    }
  }

  lemma AlikeCatalogue(env: Naming, a: seq<HeldObject>, b: seq<HeldObject>, families: seq<Family>)
    requires OnceEach(families) && multiset(a) == multiset(b) && ShowAlike(env, a, FamilyNames(families))
    ensures CatalogueOf(env, b, families) == CatalogueOf(env, a, families)
  {
    hide ShowAlike, CatalogueOf, FamilyNames, FirstShown, SpellingOf, Respelled;
    var named := FamilyNames(families);
    CatalogueRespelled(env, a, b, families);
    forall fam | fam !in named && fam in SpellingOf(env, b) && fam in SpellingOf(env, a)
      ensures SpellingOf(env, b)[fam] == SpellingOf(env, a)[fam]
    {
      AlikeShown(env, a, b, named, fam);
      SpellingExact(env, a, fam);
      SpellingExact(env, b, fam);
    }
    var c := CatalogueOf(env, a, families);
    forall i | 0 <= i < |c| ensures CatalogueOf(env, b, families)[i] == c[i] {
      SpellingKept(env, a, families, c[i], SpellingOf(env, b));
    }
  }

  lemma CatalogueShows(env: Naming, a: seq<HeldObject>, b: seq<HeldObject>, families: seq<Family>, fam: string)
    requires multiset(a) == multiset(b) && CatalogueOf(env, b, families) == CatalogueOf(env, a, families) && fam !in FamilyNames(families)
    ensures FirstShown(env, b, fam) == FirstShown(env, a, fam)
  {
    hide CatalogueOf, FamilyNames, FirstShown, SpellingOf, DeclaredOf, ByNameOf, ByFamilyOf, FamiliesOf, ComponentsOf;
    SpellingExact(env, a, fam);
    SpellingExact(env, b, fam);
    IndexOrderFree(env, a, b, fam);
    assert fam in SpellingOf(env, a).Keys <==> fam in SpellingOf(env, b).Keys;
    if fam in SpellingOf(env, a) {
      SpellingListed(env, a, families, fam);
      SpellingListed(env, b, families, fam);
      var g :| g in CatalogueOf(env, a, families) && g.family == fam;
    }
  }
}
