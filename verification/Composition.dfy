/**
 What the stores hold, written onto the catalogue the hosts produced, and the
 whole snapshot a survey leaves behind.
 */
module Composition {
  import opened Order
  import opened Provenance
  import opened Identity
  import opened Hosts
  import opened Catalogue

  const FROM_DESCRIPTOR := "descriptor"
  const FROM_ALIAS := "alias"

  /** The part of the index that composing reads. */
  datatype View = View(
    byFamily: map<string, set<string>>,
    byName: map<string, set<string>>,
    spelling: map<string, string>,
    families: set<string>,
    components: map<string, seq<Component>>)

  function ViewOf(p: Index): View
    reads p
  {
    View(p.byFamily, p.byName, p.spelling, p.families, p.components)
  }

  /** stores: the stores filed under a key, sorted. */
  ghost function StoresIn(m: map<string, set<string>>, key: string): seq<string> {
    if key in m then Ranked(m[key], Before) else []
  }

  method Stores(m: map<string, set<string>>, key: string) returns (r: seq<string>)
    ensures r == StoresIn(m, key)
  {
    r := [];
    if key in m {
      r := SortSet(m[key]);
    }
  }

  function SourceOf(v: View, fam: string): string {
    if fam in v.families then FROM_DESCRIPTOR else FROM_ALIAS
  }

  function ComponentsIn(v: View, fam: string): seq<Component> {
    if fam in v.components then Sort(v.components[fam], ComponentBefore) else []
  }

  ghost function HeldAlias(env: Naming, v: View, a: Alias): Alias {
    a.(heldIn := StoresIn(v.byName, env.lower(a.name)))
  }

  ghost function HeldAliases(env: Naming, v: View, names: seq<Alias>): (r: seq<Alias>)
    ensures |r| == |names| && forall i :: 0 <= i < |names| ==> r[i] == HeldAlias(env, v, names[i])
  {
    seq(|names|, i requires 0 <= i < |names| => HeldAlias(env, v, names[i]))
  }

  ghost function HeldFamily(env: Naming, v: View, f: Family): Family {
    Family(f.family, HeldAliases(env, v, f.names), StoresIn(v.byFamily, f.family), SourceOf(v, f.family), ComponentsIn(v, f.family))
  }

  ghost function HeldFamilies(env: Naming, v: View, families: seq<Family>): (r: seq<Family>)
    ensures |r| == |families| && forall i :: 0 <= i < |families| ==> r[i] == HeldFamily(env, v, families[i])
  {
    seq(|families|, i requires 0 <= i < |families| => HeldFamily(env, v, families[i]))
  }

  /** A held model no host serves: one name, no host. */
  ghost function StoredFamily(v: View, fam: string): Family
    requires fam in v.spelling
  {
    var held := StoresIn(v.byFamily, fam);
    Family(fam, [Alias("", v.spelling[fam], false, false, false, [], held, 0, 0)], held, SourceOf(v, fam), ComponentsIn(v, fam))
  }

  ghost function StoredMaker(v: View): string -> seq<Family> {
    (fam: string) => if fam in v.spelling then [StoredFamily(v, fam)] else []
  }

  function FamilyNames(families: seq<Family>): set<string> {
    set f | f in families :: f.family
  }

  ghost function Composed(env: Naming, v: View, families: seq<Family>): seq<Family> {
    Sort(HeldFamilies(env, v, families) + Flat(Listed(v.spelling.Keys - FamilyNames(families)), StoredMaker(v)), FamilyBefore)
  }

  /** No family is listed twice. */
  predicate OnceEach(families: seq<Family>) {
    forall i, j :: 0 <= i < j < |families| ==> families[i].family != families[j].family
  }

  lemma StoredMade(v: View, fams: seq<string>, f: Family)
    ensures f in Flat(fams, StoredMaker(v)) <==> f.family in fams && f.family in v.spelling && f == StoredFamily(v, f.family)
  {
    FlatMember(fams, StoredMaker(v), f);
  }

  /** What is sorted: the hosts' families annotated, and the stores' own, told apart by their families. */
  lemma PartsApart(env: Naming, v: View, families: seq<Family>, fams: seq<string>)
    requires OnceEach(families) && forall fam :: fam in fams ==> fam !in FamilyNames(families)
    ensures Apart(HeldFamilies(env, v, families) + Flat(fams, StoredMaker(v)), FamilyBefore)
  {
    hide HeldFamily, StoredFamily;
    var hosts, stored := HeldFamilies(env, v, families), Flat(fams, StoredMaker(v));
    forall f: Family, g: Family | f in hosts + stored && g in hosts + stored && f.family == g.family ensures f == g {
      HeldName(env, v, families, f);
      HeldName(env, v, families, g);
      StoredMade(v, fams, f);
      StoredMade(v, fams, g);
    }
    FamiliesApart(hosts + stored);
  }

  lemma HeldName(env: Naming, v: View, families: seq<Family>, f: Family)
    ensures f in HeldFamilies(env, v, families) ==>
            f.family in FamilyNames(families) && (OnceEach(families) ==> forall g :: g in families && g.family == f.family ==> f == HeldFamily(env, v, g))
  {
    if f in HeldFamilies(env, v, families) {
      var i :| 0 <= i < |families| && HeldFamilies(env, v, families)[i] == f;
      assert families[i] in families;
    }
  }

  /** compose, its maps read in whatever order they come. */
  method Compose(env: Naming, p: Index, families: seq<Family>) returns (out: seq<Family>)
    requires OnceEach(families)
    ensures out == Composed(env, ViewOf(p), families)
  {
    ghost var v := ViewOf(p);
    var named: set<string> := {};
    out := [];
    for i := 0 to |families|
      invariant named == FamilyNames(families[..i])
      invariant out == HeldFamilies(env, v, families[..i])
    {
      assert families[..i + 1] == families[..i] + [families[i]];
      var f := ComposeFamily(env, p, families[i]);
      named := named + {families[i].family};
      out := out + [f];
    }
    assert families[..|families|] == families;
    var fams := Gather(p.spelling.Keys - named);
    SameInside(fams, p.spelling.Keys - named);
    ghost var hosts := out;
    var stored := StoredFamilies(p, fams);
    out := out + stored;
    FlatOrderFree(fams, Listed(v.spelling.Keys - FamilyNames(families)), StoredMaker(v));
    PartsApart(env, v, families, fams);
    FamilyOrder();
    SortOrderFree(out, hosts + Flat(Listed(v.spelling.Keys - FamilyNames(families)), StoredMaker(v)), FamilyBefore);
    out := Sort(out, FamilyBefore);
  }

  method StoredFamilies(p: Index, fams: seq<string>) returns (out: seq<Family>)
    requires forall fam :: fam in fams ==> fam in p.spelling
    ensures out == Flat(fams, StoredMaker(ViewOf(p)))
  {
    out := [];
    for i := 0 to |fams|
      invariant out == Flat(fams[..i], StoredMaker(ViewOf(p)))
    {
      FlatStep(fams, StoredMaker(ViewOf(p)), i);
      var held := Stores(p.byFamily, fams[i]);
      var source := if fams[i] in p.families then FROM_DESCRIPTOR else FROM_ALIAS;
      var components := if fams[i] in p.components then Sort(p.components[fams[i]], ComponentBefore) else [];
      out := out + [Family(fams[i], [Alias("", p.spelling[fams[i]], false, false, false, [], held, 0, 0)], held, source, components)];
    }
    assert fams[..|fams|] == fams;
  }

  method ComposeFamily(env: Naming, p: Index, f: Family) returns (r: Family)
    ensures r == HeldFamily(env, ViewOf(p), f)
  {
    ghost var v := ViewOf(p);
    var names := f.names;
    for i := 0 to |names|
      invariant |names| == |f.names|
      invariant forall j :: 0 <= j < i ==> names[j] == HeldAlias(env, v, f.names[j])
      invariant forall j :: i <= j < |names| ==> names[j] == f.names[j]
    {
      var held := Stores(p.byName, env.lower(names[i].name));
      names := names[i := names[i].(heldIn := held)];
    }
    assert names == HeldAliases(env, v, f.names);
    var held := Stores(p.byFamily, f.family);
    r := Family(f.family, names, held, if f.family in p.families then FROM_DESCRIPTOR else FROM_ALIAS,
                if f.family in p.components then Sort(p.components[f.family], ComponentBefore) else []);
  }

  // ---- What composing keeps ----

  /** The composed catalogue lists each family once, in order. */
  lemma ComposedOnce(env: Naming, v: View, families: seq<Family>)
    requires OnceEach(families)
    ensures OnceEach(Composed(env, v, families)) && Sorted(Composed(env, v, families), FamilyBefore)
  {
    hide HeldFamily, StoredFamily;
    var fams := Listed(v.spelling.Keys - FamilyNames(families));
    SameInside(fams, v.spelling.Keys - FamilyNames(families));
    var parts := HeldFamilies(env, v, families) + Flat(fams, StoredMaker(v));
    FamilyOrder();
    SortSorted(parts, FamilyBefore);
    ListedOnce(v.spelling.Keys - FamilyNames(families));
    PartsOnce(env, v, families, fams);
    RearrangedOnce(parts, Sort(parts, FamilyBefore));
  }

  /** It holds exactly the hosts' families, annotated, and the families only stores hold. */
  lemma ComposedFamilies(env: Naming, v: View, families: seq<Family>, f: Family)
    ensures f in Composed(env, v, families) <==>
            (exists g :: g in families && f == HeldFamily(env, v, g))
            || (f.family in v.spelling && f.family !in FamilyNames(families) && f == StoredFamily(v, f.family))
  {
    hide HeldFamily, StoredFamily, HeldFamilies, Flat, Listed, FamilyNames, StoredMaker, Sort;
    var fams := Listed(v.spelling.Keys - FamilyNames(families));
    SameInside(fams, v.spelling.Keys - FamilyNames(families));
    var parts := HeldFamilies(env, v, families) + Flat(fams, StoredMaker(v));
    SameMembers(Sort(parts, FamilyBefore), parts);
    StoredMade(v, fams, f);
    HeldMembers(env, v, families, f);
  }

  lemma HeldMembers(env: Naming, v: View, families: seq<Family>, f: Family)
    ensures f in HeldFamilies(env, v, families) <==> exists g :: g in families && f == HeldFamily(env, v, g)
  {
    hide HeldFamily;
    if f in HeldFamilies(env, v, families) {
      var i :| 0 <= i < |families| && HeldFamilies(env, v, families)[i] == f;
      assert families[i] in families;
    }
    if g :| g in families && f == HeldFamily(env, v, g) {
      var i :| 0 <= i < |families| && families[i] == g;
      assert HeldFamilies(env, v, families)[i] == f;
    }
  }

  lemma StoredName(v: View, fam: string)
    requires fam in v.spelling
    ensures StoredFamily(v, fam).family == fam
  {
  }

  lemma {:induction false} StoredOnce(v: View, fams: seq<string>)
    requires forall i, j :: 0 <= i < j < |fams| ==> fams[i] != fams[j]
    ensures OnceEach(Flat(fams, StoredMaker(v)))
  {
    hide StoredFamily;
    if |fams| > 0 {
      var n := |fams| - 1;
      StoredOnce(v, fams[..n]);
      forall f: Family | f in Flat(fams[..n], StoredMaker(v)) ensures f.family != fams[n] {
        StoredMade(v, fams[..n], f);
      }
      if fams[n] in v.spelling {
        StoredName(v, fams[n]);
      }
    }
  }

  lemma ListedOnce(s: set<string>)
    ensures forall i, j :: 0 <= i < j < |Listed(s)| ==> Listed(s)[i] != Listed(s)[j]
  {
    var r := Listed(s);
    forall i, j | 0 <= i < j < |r| ensures r[i] != r[j] {
      if r[i] == r[j] {
        Twice(r, i, j);
        assert false;
      }
    }
  }

  lemma PartsOnce(env: Naming, v: View, families: seq<Family>, fams: seq<string>)
    requires OnceEach(families) && (forall fam :: fam in fams ==> fam !in FamilyNames(families))
    requires forall i, j :: 0 <= i < j < |fams| ==> fams[i] != fams[j]
    ensures OnceEach(HeldFamilies(env, v, families) + Flat(fams, StoredMaker(v)))
  {
    hide StoredFamily, HeldFamily, HeldFamilies;
    var hosts, stored := HeldFamilies(env, v, families), Flat(fams, StoredMaker(v));
    StoredOnce(v, fams);
    HeldNames(env, v, families);
    forall i, j | 0 <= i < |hosts| && 0 <= j < |stored| ensures hosts[i].family != stored[j].family {
      assert families[i] in families;
      StoredMade(v, fams, stored[j]);
    }
    JoinedOnce(hosts, stored);
  }

  lemma HeldNames(env: Naming, v: View, families: seq<Family>)
    ensures forall i :: 0 <= i < |families| ==> HeldFamilies(env, v, families)[i].family == families[i].family
  {
  }

  lemma JoinedOnce(a: seq<Family>, b: seq<Family>)
    requires OnceEach(a) && OnceEach(b)
    requires forall i, j :: 0 <= i < |a| && 0 <= j < |b| ==> a[i].family != b[j].family
    ensures OnceEach(a + b)
  {
    var c := a + b;
    forall i, j | 0 <= i < j < |c| ensures c[i].family != c[j].family {
      if i < |a| && j >= |a| {
        assert c[i] == a[i] && c[j] == b[j - |a|];
      }
    }
  }

  /** A rearrangement of families listed once each lists them once each. */
  lemma RearrangedOnce(parts: seq<Family>, out: seq<Family>)
    requires OnceEach(parts) && multiset(out) == multiset(parts)
    ensures OnceEach(out)
  {
    SameMembers(out, parts);
    forall i, j | 0 <= i < j < |out| ensures out[i].family != out[j].family {
      if out[i].family == out[j].family {
        assert out[i] in parts && out[j] in parts;
        assert out[i] == out[j];
        Twice(out, i, j);
        AtMostOnce(parts, out[i]);
        assert false;
      }
    }
  }

  lemma {:induction false} AtMostOnce(parts: seq<Family>, f: Family)
    requires OnceEach(parts)
    ensures multiset(parts)[f] <= 1
  {
    if |parts| > 0 {
      var n := |parts| - 1;
      AtMostOnce(parts[..n], f);
      assert parts == parts[..n] + [parts[n]];
      if parts[n] == f {
        assert f !in parts[..n];
      }
    }
  }
}
