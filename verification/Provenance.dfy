/**
 What this machine's stores hold, indexed by the names and families that reach
 it. Two stores that disagree about a name leave it naming nothing.
 */
module Provenance {
  import opened Order

  const ROLE_WEIGHTS := "weights"

  /** One thing a store holds. A descriptor without a key reads the empty word there. */
  datatype HeldObject = HeldObject(store: string, names: seq<string>, digest: string, family: string, role: string, base: string)

  datatype Component = Component(store: string, role: string, name: string)

  /** Lower-casing and the identity module's family of a lower-cased name, neither of them defined here. */
  datatype Naming = Naming(lower: string -> string, known: string -> string) {
    function Family(name: string): string {
      known(lower(name))
    }
  }

  predicate IsComponent(o: HeldObject) {
    o.role != "" && o.role != ROLE_WEIGHTS
  }

  /** The family an object's own descriptor puts it in: a component's base, or what the descriptor declares. */
  function Target(o: HeldObject): string {
    if IsComponent(o) && o.base != "" then o.base else o.family
  }

  /** The family one of an object's names files it under. */
  function FamilyUnder(env: Naming, o: HeldObject, name: string): string {
    if IsComponent(o) || o.family != "" then Target(o) else env.Family(name)
  }

  /** A component that belongs to no family is not indexed at all. */
  predicate Indexed(o: HeldObject) {
    IsComponent(o) ==> Target(o) != ""
  }

  // ---- Names and their tails ----

  /** key is the whole name or what follows one of its slashes. */
  predicate Reaches(name: string, key: string) {
    key == name || exists i :: 0 <= i && i + 1 < |name| && name[i] == '/' && name[i + 1..] == key
  }

  function TailsFrom(name: string, i: nat): seq<string>
    requires i <= |name|
    decreases |name| - i
  {
    if i == |name| then []
    else (if name[i] == '/' && i + 1 < |name| then [name[i + 1..]] else []) + TailsFrom(name, i + 1)
  }

  function Tails(name: string): seq<string> {
    [name] + TailsFrom(name, 0)
  }

  lemma {:induction false} TailsFromReach(name: string, i: nat, key: string)
    requires i <= |name|
    ensures key in TailsFrom(name, i) <==> exists j :: i <= j && j + 1 < |name| && name[j] == '/' && name[j + 1..] == key
    decreases |name| - i
  {
    if i < |name| {
      TailsFromReach(name, i + 1, key);
    }
  }

  /** match lists exactly the keys a name reaches. */
  lemma TailsReach(name: string, key: string)
    ensures key in Tails(name) <==> Reaches(name, key)
  {
    TailsFromReach(name, 0, key);
  }

  method Match(name: string) returns (out: seq<string>)
    ensures out == Tails(name)
    ensures forall key :: key in out <==> Reaches(name, key)
  {
    out := [name];
    for i := 0 to |name|
      invariant out + TailsFrom(name, i) == Tails(name)
    {
      ghost var before := out;
      if name[i] == '/' && i + 1 < |name| {
        out := out + [name[i + 1..]];
        assert before + ([name[i + 1..]] + TailsFrom(name, i + 1)) == out + TailsFrom(name, i + 1);
      } else {
        assert before + ([] + TailsFrom(name, i + 1)) == out + TailsFrom(name, i + 1);
      }
    }
    forall key ensures key in out <==> Reaches(name, key) {
      TailsReach(name, key);
    }
  }

  // ---- Folding declarations into maps ----

  function Keys<T(==)>(ds: seq<(string, T)>): set<string> {
    set d | d in ds :: d.0
  }

  /** Every declaration for a key says the same. */
  predicate Agree<T(==)>(ds: seq<(string, T)>, key: string) {
    forall d, e :: d in ds && e in ds && d.0 == key && e.0 == key ==> d.1 == e.1
  }

  /** A key's word when all its declarations agree on it, and nothing when two of them differ. */
  ghost function Agreed(ds: seq<(string, string)>): map<string, string> {
    map key | key in Keys(ds) :: if Agree(ds, key) then WordOf(ds, key) else ""
  }

  ghost function WordOf(ds: seq<(string, string)>, key: string): string
    requires key in Keys(ds)
  {
    var d :| d in ds && d.0 == key;
    d.1
  }

  /** The stores filed under each key. */
  ghost function Grouped(ds: seq<(string, string)>): map<string, set<string>> {
    map key | key in Keys(ds) :: StoresFor(ds, key)
  }

  function StoresFor(ds: seq<(string, string)>, key: string): set<string> {
    set d | d in ds && d.0 == key :: d.1
  }

  /** One declaration, unless its key or its word is empty. */
  function Said(key: string, word: string): seq<(string, string)> {
    if key == "" || word == "" then [] else [(key, word)]
  }

  /** declare: a key's first word claims it, and a different one takes it away. */
  method Declare(m: map<string, string>, key: string, fam: string, ghost ds: seq<(string, string)>) returns (r: map<string, string>)
    requires m == Agreed(ds) && forall d :: d in ds ==> d.1 != ""
    ensures r == Agreed(ds + Said(key, fam))
    ensures forall d :: d in ds + Said(key, fam) ==> d.1 != ""
  {
    hide Agreed;
    if key == "" || fam == "" {
      assert ds + [] == ds;
      return m;
    }
    AgreedNext(ds, key, fam);
    if key in m && m[key] != fam {
      return m[key := ""];
    }
    if key !in m {
      return m[key := fam];
    }
    r := m;
  }

  lemma AgreedNext(ds: seq<(string, string)>, key: string, fam: string)
    requires key != "" && fam != "" && forall d :: d in ds ==> d.1 != ""
    ensures var m := Agreed(ds);
            Agreed(ds + [(key, fam)]) == if key in m && m[key] != fam then m[key := ""] else m[key := fam]
  {
    hide Agree;
    var es, m := ds + [(key, fam)], Agreed(ds);
    assert Keys(es) == Keys(ds) + {key} by {
      assert (key, fam) in es;
    }
    forall k | k in Keys(es)
      ensures Agreed(es)[k] == if k != key then (if k in m then m[k] else "") else if k in m && m[k] != fam then "" else fam
    {
      AgreedPush(ds, key, fam, k);
    }
  }

  lemma AgreedPush(ds: seq<(string, string)>, key: string, fam: string, k: string)
    requires key != "" && fam != "" && (forall d :: d in ds ==> d.1 != "") && k in Keys(ds + [(key, fam)])
    ensures var es := ds + [(key, fam)];
            Agreed(es)[k] ==
            if k != key then (if k in Agreed(ds) then Agreed(ds)[k] else "")
            else if k in Agreed(ds) && Agreed(ds)[k] != fam then ""
            else fam
    ensures k != key ==> k in Agreed(ds)
  {
    var es := ds + [(key, fam)];
    var d :| d in es && d.0 == k;
    assert forall e :: e in es <==> e in ds || e == (key, fam);
    if k != key {
      assert d in ds;
      assert Agree(es, k) == Agree(ds, k);
    } else if k in Keys(ds) {
      var e :| e in ds && e.0 == k;
      if Agree(ds, k) && Agreed(ds)[k] == fam {
        assert e.1 == fam;
      } else {
        assert !Agree(es, k) by {
          if Agree(ds, k) {
            assert e.1 == Agreed(ds)[k] && (key, fam) in es && e in es;
          }
        }
      }
    }
  }

  /** The stores under a key, one more. */
  method Add(m: map<string, set<string>>, key: string, store: string, ghost ds: seq<(string, string)>) returns (r: map<string, set<string>>)
    requires m == Grouped(ds)
    ensures r == Grouped(ds + Said(key, store))
  {
    hide Grouped;
    if key == "" || store == "" {
      assert ds + [] == ds;
      return m;
    }
    GroupedNext(ds, key, store);
    r := m;
    if key !in r {
      r := r[key := {}];
    }
    r := r[key := r[key] + {store}];
  }

  lemma GroupedNext(ds: seq<(string, string)>, key: string, store: string)
    ensures var m := Grouped(ds);
            Grouped(ds + [(key, store)]) == m[key := (if key in m then m[key] else {}) + {store}]
  {
    var es, m := ds + [(key, store)], Grouped(ds);
    assert (key, store) in es;
    assert forall e :: e in es <==> e in ds || e == (key, store);
    assert Keys(es) == Keys(ds) + {key};
    forall k | k in Keys(es) ensures StoresFor(es, k) == if k == key then (if k in m then m[k] else {}) + {store} else m[k] {
      if k !in m {
        assert StoresFor(ds, k) == {};
      }
    }
  }

  // ---- Claims on names ----

  /** A store's name claims a key. */
  datatype Claim = Claim(key: string, name: string, store: string)

  function Claimed(key: string, name: string, store: string): seq<Claim> {
    if key == "" || name == "" || store == "" then [] else [Claim(key, name, store)]
  }

  function Owners(cs: seq<Claim>): (ds: seq<(string, string)>)
    ensures |ds| == |cs| && forall i :: 0 <= i < |cs| ==> ds[i] == (cs[i].key, cs[i].name)
  {
    seq(|cs|, i requires 0 <= i < |cs| => (cs[i].key, cs[i].name))
  }

  function Claimants(cs: seq<Claim>, key: string): set<string> {
    set c | c in cs && c.key == key :: c.store
  }

  /** A key reaches the stores of its one name, and none when two names claim it. */
  ghost function Unshared(cs: seq<Claim>): map<string, set<string>> {
    map key | key in Keys(Owners(cs)) && Agree(Owners(cs), key) :: Claimants(cs, key)
  }

  predicate NoEmptyNames(cs: seq<Claim>) {
    forall c :: c in cs ==> c.name != ""
  }

  lemma OwnersPush(cs: seq<Claim>, c: Claim)
    ensures Owners(cs + [c]) == Owners(cs) + [(c.key, c.name)]
  {
  }

  lemma OwnersMember(cs: seq<Claim>, d: (string, string))
    ensures d in Owners(cs) <==> exists i :: 0 <= i < |cs| && (cs[i].key, cs[i].name) == d
  {
    if d in Owners(cs) {
      var i :| 0 <= i < |Owners(cs)| && Owners(cs)[i] == d;
    }
    if i :| 0 <= i < |cs| && (cs[i].key, cs[i].name) == d {
      assert Owners(cs)[i] == d;
    }
  }

  lemma UnsharedNext(cs: seq<Claim>, c: Claim)
    requires c.key != "" && c.name != "" && NoEmptyNames(cs)
    ensures var owner, m := Agreed(Owners(cs)), Unshared(cs);
            Unshared(cs + [c]) ==
            if c.key in owner && owner[c.key] != c.name then m - {c.key}
            else m[c.key := (if c.key in m then m[c.key] else {}) + {c.store}]
  {
    hide Agree, Agreed, Owners, Unshared;
    var next, owner, m := Unshared(cs + [c]), Agreed(Owners(cs)), Unshared(cs);
    var contested := c.key in owner && owner[c.key] != c.name;
    forall k ensures k in next <==> if k == c.key then !contested else k in m {
      ClaimsNext(cs, c, k);
    }
    forall k | k in next ensures next[k] == if k != c.key then m[k] else (if k in m then m[k] else {}) + {c.store} {
      ClaimsNext(cs, c, k);
    }
  }

  /** What one more claim does to a key. */
  ghost predicate ClaimNext(cs: seq<Claim>, c: Claim, k: string) {
    var owner, m, next := Agreed(Owners(cs)), Unshared(cs), Unshared(cs + [c]);
    if k != c.key then (k in next <==> k in m) && (k in m ==> next[k] == m[k])
    else if k in owner && owner[k] != c.name then k !in next
    else k in next && next[k] == (if k in m then m[k] else {}) + {c.store}
  }

  lemma ClaimsNext(cs: seq<Claim>, c: Claim, k: string)
    requires c.key != "" && c.name != "" && NoEmptyNames(cs)
    ensures ClaimNext(cs, c, k)
  {
    hide Agree, Agreed, Owners, Claimants;
    var ds := Owners(cs);
    var es := ds + [(c.key, c.name)];
    OwnersPush(cs, c);
    NoEmptyWords(cs);
    assert Keys(es) == Keys(ds) + {c.key} by {
      assert (c.key, c.name) in es;
    }
    ClaimantsPush(cs, c, k);
    AgreeNext(ds, c.key, c.name, k);
    OwnerKnown(ds, c.key);
    if k !in Keys(ds) {
      NoClaims(cs, k);
    }
  }

  lemma ClaimantsPush(cs: seq<Claim>, c: Claim, k: string)
    ensures Claimants(cs + [c], k) == if k == c.key then Claimants(cs, k) + {c.store} else Claimants(cs, k)
  {
    assert forall x :: x in cs + [c] <==> x in cs || x == c;
  }

  /** A key whose one word is given is a key its declarations agree on. */
  lemma OwnerKnown(ds: seq<(string, string)>, key: string)
    requires forall d :: d in ds ==> d.1 != ""
    ensures key in Agreed(ds) <==> key in Keys(ds)
    ensures key in Agreed(ds) ==> (Agreed(ds)[key] != "" <==> Agree(ds, key))
  {
    if key in Keys(ds) {
      var d :| d in ds && d.0 == key;
    }
  }

  lemma AgreeNext(ds: seq<(string, string)>, key: string, fam: string, k: string)
    requires key != "" && fam != "" && forall d :: d in ds ==> d.1 != ""
    ensures var es := ds + [(key, fam)];
            Agree(es, k) <==> if k == key then !(key in Agreed(ds) && Agreed(ds)[key] != fam) else Agree(ds, k)
  {
    var es := ds + [(key, fam)];
    assert (key, fam) in es;
    assert forall e :: e in es <==> e in ds || e == (key, fam);
    if k == key && key in Keys(ds) {
      var e :| e in ds && e.0 == key;
      if Agree(ds, key) {
        assert Agreed(ds)[key] == e.1;
      }
    }
  }

  lemma NoEmptyWords(cs: seq<Claim>)
    requires NoEmptyNames(cs)
    ensures forall d :: d in Owners(cs) ==> d.1 != ""
  {
    forall d | d in Owners(cs) ensures d.1 != "" {
      OwnersMember(cs, d);
    }
  }

  lemma NoClaims(cs: seq<Claim>, k: string)
    requires k !in Keys(Owners(cs))
    ensures Claimants(cs, k) == {}
  {
    forall c | c in cs ensures c.key != k {
      var i :| 0 <= i < |cs| && cs[i] == c;
      assert Owners(cs)[i] in Owners(cs);
    }
  }

  // ---- Lists and first words per key ----

  /** What was recorded under a key, in order. */
  function Under<T>(ds: seq<(string, T)>, key: string): seq<T> {
    if |ds| == 0 then []
    else Under(ds[..|ds| - 1], key) + if ds[|ds| - 1].0 == key then [ds[|ds| - 1].1] else []
  }

  ghost function Collected<T>(ds: seq<(string, T)>): map<string, seq<T>> {
    map key | key in Firsts(ds) :: Under(ds, key)
  }

  function Firsts<T>(ds: seq<(string, T)>): set<string> {
    set i | 0 <= i < |ds| :: ds[i].0
  }

  method Append<T>(m: map<string, seq<T>>, key: string, v: T, ghost ds: seq<(string, T)>) returns (r: map<string, seq<T>>)
    requires m == Collected(ds)
    ensures r == Collected(ds + [(key, v)])
  {
    CollectedNext(ds, key, v);
    r := m[key := (if key in m then m[key] else []) + [v]];
  }

  lemma CollectedNext<T>(ds: seq<(string, T)>, key: string, v: T)
    ensures var m := Collected(ds);
            Collected(ds + [(key, v)]) == m[key := (if key in m then m[key] else []) + [v]]
  {
    hide Under, Firsts;
    var es, m := ds + [(key, v)], Collected(ds);
    forall k ensures k in Firsts(es) <==> k in Firsts(ds) || k == key {
      FirstsPush(ds, key, v, k);
    }
    forall k | k in Firsts(es) ensures Under(es, k) == if k == key then (if k in m then m[k] else []) + [v] else m[k] {
      UnderPush(ds, key, v, k);
      if k !in m {
        NothingUnder(ds, k);
      }
    }
  }

  lemma FirstsPush<T>(ds: seq<(string, T)>, key: string, v: T, k: string)
    ensures k in Firsts(ds + [(key, v)]) <==> k in Firsts(ds) || k == key
  {
    var es := ds + [(key, v)];
    assert es[|ds|] == (key, v) && forall i :: 0 <= i < |ds| ==> es[i] == ds[i];
  }

  lemma UnderPush<T>(ds: seq<(string, T)>, key: string, v: T, k: string)
    ensures Under(ds + [(key, v)], k) == if k == key then Under(ds, k) + [v] else Under(ds, k)
  {
    assert (ds + [(key, v)])[..|ds|] == ds;
    assert Under(ds, k) + [] == Under(ds, k);
  }

  lemma FirstsMember<T>(ds: seq<(string, T)>, k: string)
    ensures k in Firsts(ds) <==> exists i :: 0 <= i < |ds| && ds[i].0 == k
  {
  }

  lemma {:induction false} NothingUnder<T>(ds: seq<(string, T)>, key: string)
    requires key !in Firsts(ds)
    ensures Under(ds, key) == []
  {
    if |ds| > 0 {
      assert ds[|ds| - 1].0 in Firsts(ds);
      FrontFirsts(ds, key);
      NothingUnder(ds[..|ds| - 1], key);
    }
  }

  lemma FrontFirsts<T>(ds: seq<(string, T)>, key: string)
    requires |ds| > 0
    ensures key in Firsts(ds[..|ds| - 1]) ==> key in Firsts(ds)
  {
    var front := ds[..|ds| - 1];
    if key in Firsts(front) {
      var i :| 0 <= i < |front| && front[i].0 == key;
      assert ds[i].0 == key;
    }
  }

  lemma {:induction false} UnderMember<T>(ds: seq<(string, T)>, key: string, v: T)
    ensures v in Under(ds, key) <==> (key, v) in ds
  {
    if |ds| > 0 {
      UnderMember(ds[..|ds| - 1], key, v);
      assert ds == ds[..|ds| - 1] + [ds[|ds| - 1]];
    }
  }

  /** The first name recorded for each family. */
  ghost function Spelled(ds: seq<(string, string)>): map<string, string> {
    map key | key in Firsts(ds) :: FirstUnder(ds, key)
  }

  ghost function FirstUnder(ds: seq<(string, string)>, key: string): string
    requires key in Firsts(ds)
  {
    if Under(ds, key) != [] then Under(ds, key)[0] else ""
  }

  lemma SpelledNext(ds: seq<(string, string)>, key: string, v: string)
    ensures var m := Spelled(ds);
            Spelled(ds + [(key, v)]) == if key in m then m else m[key := v]
  {
    var es, m := ds + [(key, v)], Spelled(ds);
    assert es[..|ds|] == ds;
    assert es[|ds|] == (key, v);
    forall k ensures k in Firsts(es) <==> k in Firsts(ds) || k == key {
      FirstsMember(es, k);
      FirstsMember(ds, k);
    }
    forall k | k in Firsts(es) ensures FirstUnder(es, k) == if k in m then m[k] else v {
      if k !in m {
        NothingUnder(ds, k);
      } else {
        SomethingUnder(ds, k);
      }
    }
  }

  lemma {:induction false} SomethingUnder<T>(ds: seq<(string, T)>, key: string)
    requires key in Firsts(ds)
    ensures Under(ds, key) != []
  {
    var i :| 0 <= i < |ds| && ds[i].0 == key;
    if i < |ds| - 1 {
      assert ds[..|ds| - 1][i].0 == key;
      SomethingUnder(ds[..|ds| - 1], key);
    }
  }

  // ---- What the held objects declare ----

  /** Everything one pass records, in the order it is recorded. */
  datatype Log = Log(
    declared: seq<(string, string)>,
    claims: seq<Claim>,
    stored: seq<(string, string)>,
    spelled: seq<(string, string)>,
    digests: seq<(string, string)>,
    components: seq<(string, Component)>,
    families: seq<string>)
  {
    function Then(more: Log): Log {
      Log(declared + more.declared, claims + more.claims, stored + more.stored, spelled + more.spelled,
          digests + more.digests, components + more.components, families + more.families)
    }
  }

  const NOTHING := Log([], [], [], [], [], [], [])

  function KeyLog(env: Naming, o: HeldObject, lower: string, key: string): Log {
    NOTHING.(declared := Said(key, Target(o)), claims := Claimed(key, lower, o.store))
  }

  function KeysLog(env: Naming, o: HeldObject, lower: string, keys: seq<string>): Log {
    if |keys| == 0 then NOTHING else KeysLog(env, o, lower, keys[..|keys| - 1]).Then(KeyLog(env, o, lower, keys[|keys| - 1]))
  }

  /** What one of an object's names files: its family's store, a spelling for a family nobody named yet, its digest, its component. */
  function FileLog(env: Naming, o: HeldObject, name: string): Log {
    var fam := FamilyUnder(env, o, name);
    if fam == "" then NOTHING else FamilyLog(o, name, fam).Then(ContentLog(o, name, fam))
  }

  function FamilyLog(o: HeldObject, name: string, fam: string): Log {
    NOTHING.(stored := Said(fam, o.store), spelled := if IsComponent(o) && o.base != "" then [] else [(fam, name)])
  }

  function ContentLog(o: HeldObject, name: string, fam: string): Log {
    NOTHING.(digests := if o.digest == "" then [] else [(o.digest, fam)],
             components := if IsComponent(o) then [(fam, Component(o.store, o.role, name))] else [])
  }

  function NameLog(env: Naming, o: HeldObject, name: string): Log {
    KeysLog(env, o, env.lower(name), Tails(env.lower(name))).Then(FileLog(env, o, name))
  }

  function NamesLog(env: Naming, o: HeldObject, names: seq<string>): Log {
    if |names| == 0 then NOTHING else NamesLog(env, o, names[..|names| - 1]).Then(NameLog(env, o, names[|names| - 1]))
  }

  /** What an object records besides its names. */
  function OwnLog(o: HeldObject): Log {
    if IsComponent(o) then
      if o.names == [] then NOTHING.(components := [(Target(o), Component(o.store, o.role, ""))]) else NOTHING
    else if o.family != "" then NOTHING.(families := [o.family]) else NOTHING
  }

  function ObjectLog(env: Naming, o: HeldObject): Log {
    if !Indexed(o) then NOTHING else OwnLog(o).Then(NamesLog(env, o, o.names))
  }

  function HeldLog(env: Naming, held: seq<HeldObject>): Log {
    if |held| == 0 then NOTHING else HeldLog(env, held[..|held| - 1]).Then(ObjectLog(env, held[|held| - 1]))
  }

  /** The stores an unnamed object adds: one for each family its digest is filed under. */
  function JoinLog(digests: seq<(string, string)>, o: HeldObject): seq<(string, string)> {
    if o.names != [] || o.digest == "" then [] else JoinEach(Under(digests, o.digest), o.store)
  }

  function JoinEach(fams: seq<string>, store: string): seq<(string, string)> {
    if |fams| == 0 then [] else JoinEach(fams[..|fams| - 1], store) + Said(fams[|fams| - 1], store)
  }

  function JoinsLog(digests: seq<(string, string)>, held: seq<HeldObject>): seq<(string, string)> {
    if |held| == 0 then [] else JoinsLog(digests, held[..|held| - 1]) + JoinLog(digests, held[|held| - 1])
  }

  // ---- The index ----

  class Index {
    var byFamily: map<string, set<string>>
    var byName: map<string, set<string>>
    var nameOwner: map<string, string>
    var declared: map<string, string>
    var spelling: map<string, string>
    var families: set<string>
    var components: map<string, seq<Component>>
    var byDigest: map<string, seq<string>>

    /** The fields are what the log says. */
    ghost predicate Holds(log: Log, joins: seq<(string, string)>)
      reads this
    {
      && (forall d :: d in log.declared ==> d.1 != "") && NoEmptyNames(log.claims)
      && declared == Agreed(log.declared)
      && nameOwner == Agreed(Owners(log.claims))
      && byName == Unshared(log.claims)
      && byFamily == Grouped(log.stored + joins)
      && spelling == Spelled(log.spelled)
      && families == (set fam | fam in log.families)
      && components == Collected(log.components)
      && byDigest == Collected(log.digests)
    }

    constructor ()
      ensures Holds(NOTHING, [])
    {
      byFamily, byName, nameOwner, declared, spelling := map[], map[], map[], map[], map[];
      families, components, byDigest := {}, map[], map[];
    }

    /** declareName: a key's first name claims it for its stores, and a different one closes it. */
    method DeclareName(key: string, name: string, store: string, ghost log: Log)
      requires Holds(log, [])
      modifies `nameOwner, `byName
      ensures Holds(log.(claims := log.claims + Claimed(key, name, store)), [])
    {
      hide Agreed, Unshared, Grouped, Collected, Spelled, Owners;
      if key == "" || name == "" || store == "" {
        assert log.claims + [] == log.claims;
        return;
      }
      ghost var c := Claim(key, name, store);
      UnsharedNext(log.claims, c);
      OwnersPush(log.claims, c);
      NoEmptyWords(log.claims);
      AgreedNext(Owners(log.claims), key, name);
      if key in nameOwner && nameOwner[key] != name {
        nameOwner := nameOwner[key := ""];
        byName := byName - {key};
        return;
      }
      if key !in nameOwner {
        nameOwner := nameOwner[key := name];
      }
      byName := byName[key := (if key in byName then byName[key] else {}) + {store}];
      assert nameOwner[key := name] == nameOwner;
    }

    method DeclareKey(env: Naming, o: HeldObject, lower: string, key: string, ghost log: Log)
      requires Holds(log, [])
      modifies this
      ensures Holds(log.Then(KeyLog(env, o, lower, key)), [])
    {
      hide Agreed, Unshared, Grouped, Collected, Spelled, Owners;
      ghost var more := KeyLog(env, o, lower, key);
      NothingElse(log, more);
      declared := Declare(declared, key, Target(o), log.declared);
      DeclareName(key, lower, o.store, log.(declared := log.declared + more.declared));
    }

    /** Files one name of an object: its family's stores, spelling, digest and component. */
    method File(env: Naming, o: HeldObject, name: string, ghost log: Log)
      requires Holds(log, [])
      modifies this
      ensures Holds(log.Then(FileLog(env, o, name)), [])
    {
      hide Holds, FamilyLog, ContentLog;
      ThenNothing(log);
      var fam := FamilyUnder(env, o, name);
      if fam == "" {
        return;
      }
      FileFamily(o, name, fam, log);
      FileContent(o, name, fam, log.Then(FamilyLog(o, name, fam)));
      ThenThen(log, FamilyLog(o, name, fam), ContentLog(o, name, fam));
    }

    method FileFamily(o: HeldObject, name: string, fam: string, ghost log: Log)
      requires Holds(log, [])
      modifies this
      ensures Holds(log.Then(FamilyLog(o, name, fam)), [])
    {
      hide Agreed, Unshared, Grouped, Collected, Spelled, Owners;
      ghost var more := FamilyLog(o, name, fam);
      ThenParts(log, more);
      assert log.stored + [] == log.stored && (log.stored + more.stored) + [] == log.stored + more.stored;
      byFamily := Add(byFamily, fam, o.store, log.stored);
      if !(IsComponent(o) && o.base != "") {
        SpelledNext(log.spelled, fam, name);
        if fam !in spelling {
          spelling := spelling[fam := name];
        }
      }
    }

    method FileContent(o: HeldObject, name: string, fam: string, ghost log: Log)
      requires Holds(log, [])
      modifies this
      ensures Holds(log.Then(ContentLog(o, name, fam)), [])
    {
      hide Agreed, Unshared, Grouped, Collected, Spelled, Owners;
      ThenParts(log, ContentLog(o, name, fam));
      if IsComponent(o) {
        components := Append(components, fam, Component(o.store, o.role, name), log.components);
      }
      if o.digest != "" {
        byDigest := Append(byDigest, o.digest, fam, log.digests);
      }
    }

    method IndexName(env: Naming, o: HeldObject, name: string, ghost log: Log)
      requires Holds(log, [])
      modifies this
      ensures Holds(log.Then(NameLog(env, o, name)), [])
    {
      hide Holds;
      var lower := env.lower(name);
      var keys := Match(lower);
      ThenNothing(log);
      for i := 0 to |keys|
        invariant Holds(log.Then(KeysLog(env, o, lower, keys[..i])), [])
      {
        assert keys[..i + 1][..i] == keys[..i];
        DeclareKey(env, o, lower, keys[i], log.Then(KeysLog(env, o, lower, keys[..i])));
        ThenThen(log, KeysLog(env, o, lower, keys[..i]), KeyLog(env, o, lower, keys[i]));
      }
      assert keys[..|keys|] == keys;
      File(env, o, name, log.Then(KeysLog(env, o, lower, keys)));
      ThenThen(log, KeysLog(env, o, lower, keys), FileLog(env, o, name));
    }

    method IndexObject(env: Naming, o: HeldObject, ghost log: Log)
      requires Holds(log, [])
      modifies this
      ensures Holds(log.Then(ObjectLog(env, o)), [])
    {
      hide NameLog;
      ThenNothing(log);
      if !Indexed(o) {
        return;
      }
      Own(o, log);
      ghost var own := log.Then(OwnLog(o));
      ThenNothing(own);
      for i := 0 to |o.names|
        invariant Holds(own.Then(NamesLog(env, o, o.names[..i])), [])
      {
        hide Holds;
        assert o.names[..i + 1][..i] == o.names[..i];
        IndexName(env, o, o.names[i], own.Then(NamesLog(env, o, o.names[..i])));
        ThenThen(own, NamesLog(env, o, o.names[..i]), NameLog(env, o, o.names[i]));
      }
      assert o.names[..|o.names|] == o.names;
      ThenThen(log, OwnLog(o), NamesLog(env, o, o.names));
    }

    /** What an object records besides its names. */
    method Own(o: HeldObject, ghost log: Log)
      requires Holds(log, [])
      modifies this
      ensures Holds(log.Then(OwnLog(o)), [])
    {
      hide Agreed, Unshared, Grouped, Collected, Spelled, Owners;
      ThenParts(log, OwnLog(o));
      if IsComponent(o) {
        if |o.names| == 0 {
          components := Append(components, Target(o), Component(o.store, o.role, ""), log.components);
        }
      } else if o.family != "" {
        families := families + {o.family};
      }
    }

    /** The second pass, over the objects no index names. */
    method Join(held: seq<HeldObject>, ghost log: Log)
      requires Holds(log, [])
      modifies this
      ensures Holds(log, JoinsLog(log.digests, held))
    {
      for i := 0 to |held|
        invariant Holds(log, JoinsLog(log.digests, held[..i]))
      {
        hide Holds, JoinLog;
        assert held[..i + 1][..i] == held[..i];
        JoinObject(held[i], log, JoinsLog(log.digests, held[..i]));
      }
      assert held[..|held|] == held;
    }

    method AddStore(fam: string, store: string, ghost log: Log, ghost joins: seq<(string, string)>)
      requires Holds(log, joins)
      modifies `byFamily
      ensures Holds(log, joins + Said(fam, store))
    {
      hide Agreed, Unshared, Grouped, Collected, Spelled, Owners;
      byFamily := Add(byFamily, fam, store, log.stored + joins);
      assert (log.stored + joins) + Said(fam, store) == log.stored + (joins + Said(fam, store));
    }

    method JoinObject(o: HeldObject, ghost log: Log, ghost joins: seq<(string, string)>)
      requires Holds(log, joins)
      modifies this
      ensures Holds(log, joins + JoinLog(log.digests, o))
    {
      hide Agreed, Unshared, Grouped, Spelled, Owners;
      assert joins + [] == joins;
      if |o.names| > 0 || o.digest == "" {
        return;
      }
      if o.digest !in byDigest {
        NothingUnder(log.digests, o.digest);
      }
      var fams := if o.digest in byDigest then byDigest[o.digest] else [];
      assert fams == Under(log.digests, o.digest);
      for i := 0 to |fams|
        invariant Holds(log, joins + JoinEach(fams[..i], o.store))
      {
        hide Holds;
        assert fams[..i + 1][..i] == fams[..i];
        ghost var before := joins + JoinEach(fams[..i], o.store);
        AddStore(fams[i], o.store, log, before);
        assert before + Said(fams[i], o.store) == joins + JoinEach(fams[..i + 1], o.store);
      }
      assert fams[..|fams|] == fams;
    }
  }

  /** A log that declares and claims, and records nothing else. */
  lemma NothingElse(log: Log, more: Log)
    requires more == NOTHING.(declared := more.declared, claims := more.claims)
    ensures log.Then(more) == log.(declared := log.declared + more.declared, claims := log.claims + more.claims)
  {
  }

  lemma ThenNothing(log: Log)
    ensures log.Then(NOTHING) == log && NOTHING.Then(log) == log
  {
  }

  lemma ThenThen(a: Log, b: Log, c: Log)
    ensures a.Then(b).Then(c) == a.Then(b.Then(c))
  {
  }

  /** Joining nothing on. */
  lemma ThenParts(log: Log, more: Log)
    ensures more.declared == [] ==> log.Then(more).declared == log.declared
    ensures more.claims == [] ==> log.Then(more).claims == log.claims
    ensures more.stored == [] ==> log.Then(more).stored == log.stored
    ensures more.spelled == [] ==> log.Then(more).spelled == log.spelled
    ensures more.digests == [] ==> log.Then(more).digests == log.digests
    ensures more.components == [] ==> log.Then(more).components == log.components
    ensures more.families == [] ==> log.Then(more).families == log.families
  {
  }

  /** index: both passes over what the stores hold. */
  method Build(env: Naming, held: seq<HeldObject>) returns (p: Index)
    ensures fresh(p) && p.Holds(HeldLog(env, held), JoinsLog(HeldLog(env, held).digests, held))
  {
    p := new Index();
    for i := 0 to |held|
      invariant fresh(p) && p.Holds(HeldLog(env, held[..i]), [])
    {
      hide ObjectLog;
      assert held[..i + 1][..i] == held[..i];
      p.IndexObject(env, held[i], HeldLog(env, held[..i]));
    }
    assert held[..|held|] == held;
    p.Join(held, HeldLog(env, held));
  }
}
