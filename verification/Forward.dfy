/**
 Forward compatibility: a text reads the same with the members of any record in
 it, however deep, in another order, and those of an open record among members
 it does not know; a closed record refuses the latter wherever it stands.
 */
module Forward {
  import opened Basics
  import opened Bytes
  import opened Utf8
  import opened Scan
  import opened Grammar
  import opened Schema
  import opened Decoding
  import opened Tokens

  lemma SyntaxJoin(a: seq<Member>, b: seq<Member>)
    requires MembersSyntax(a) && MembersSyntax(b)
    ensures MembersSyntax(a + b)
    decreases |a|
  {
    if |a| == 0 {
      assert a + b == b;
    } else {
      assert (a + b)[1..] == a[1..] + b;
      SyntaxJoin(a[1..], b);
    }
  }

  lemma {:induction false} SyntaxSplit(a: seq<Member>, b: seq<Member>)
    requires MembersSyntax(a + b)
    ensures MembersSyntax(a) && MembersSyntax(b)
    decreases |a|
  {
    if |a| == 0 {
      assert a + b == b;
    } else {
      assert (a + b)[1..] == a[1..] + b;
      SyntaxSplit(a[1..], b);
    }
  }

  lemma {:induction false} SyntaxOfAll(ms: seq<Member>)
    ensures MembersSyntax(ms) <==> forall m :: m in ms ==> BlanksOk(m) && UnitsOk(m.key) && Syntax(m.value)
  {
    hide BlanksOk, UnitsOk, Syntax;
    if |ms| > 0 {
      assert ms == [ms[0]] + ms[1..];
      SyntaxOfAll(ms[1..]);
      assert forall m :: m in ms <==> m == ms[0] || m in ms[1..];
    }
  }

  /** Reading two members in either order leaves the same record, or refuses it. */
  lemma MembersCommute(k: Kind, x: Member, y: Member, depth: nat, part: Partial)
    requires k.KRecord? && |part.values| == |k.fields|
    requires UnitsOk(x.key) && Syntax(x.value) && UnitsOk(y.key) && Syntax(y.value)
    ensures Then(k, y, depth, InterpMember(k, x, depth, part)) == Then(k, x, depth, InterpMember(k, y, depth, part))
  {
    hide Interp, Syntax, UnitsOk, UnitsValue, ValidUtf8, Carried, IndexOf;
    var i, j := IndexOf(k.fields, KeyOf(x)), IndexOf(k.fields, KeyOf(y));
    if i >= 0 && j >= 0 && i != j && i !in part.seen && j !in part.seen {
      match (Interp(k.fields[i].kind, x.value, depth), Interp(k.fields[j].kind, y.value, depth))
      case (Some(a), Some(b)) =>
        assert part.seen + {i} + {j} == part.seen + {j} + {i};
        assert part.values[i := a][j := b] == part.values[j := b][i := a];
      case _ =>
    }
  }

  function Then(k: Kind, m: Member, depth: nat, part: Option<Partial>): Option<Partial>
    requires k.KRecord? && UnitsOk(m.key) && Syntax(m.value) && (part.Some? ==> |part.value.values| == |k.fields|)
  {
    match part
    case Some(p) => InterpMember(k, m, depth, p)
    case None => None
  }

  /** A member moved from behind others to before them. */
  lemma {:induction false} MoveFirst(k: Kind, a: seq<Member>, m: Member, b: seq<Member>, depth: nat, part: Partial)
    requires k.KRecord? && |part.values| == |k.fields| && MembersSyntax(a + [m] + b)
    ensures MembersSyntax([m] + (a + b))
    ensures InterpMembers(k, a + [m] + b, depth, part) == InterpMembers(k, [m] + (a + b), depth, part)
    decreases |a|
  {
    hide InterpMember, Syntax, UnitsOk, BlanksOk;
    SyntaxOfAll(a + [m] + b);
    SyntaxOfAll([m] + (a + b));
    if |a| == 0 {
      assert a + [m] + b == [m] + (a + b);
    } else {
      var x, rest := a[0], a[1..];
      var whole := a + [m] + b;
      assert whole[1..] == rest + [m] + b;
      assert m in whole && x in whole;
      MembersCommute(k, x, m, depth, part);
      var swapped := [m] + (a + b);
      assert swapped[1..] == a + b && (a + b)[1..] == rest + b && (a + b)[0] == x;
      SyntaxOfAll(rest + [m] + b);
      SyntaxOfAll(a + b);
      match InterpMember(k, x, depth, part)
      case None =>
        StepTwice(k, swapped, depth, part);
      case Some(p) =>
        MoveFirst(k, rest, m, b, depth, p);
        InterpStep(k, [m] + (rest + b), depth, p);
        assert ([m] + (rest + b))[1..] == rest + b;
        StepTwice(k, swapped, depth, part);
    }
  }

  /** Reading members starts with the first. */
  lemma InterpStep(k: Kind, ms: seq<Member>, depth: nat, part: Partial)
    requires k.KRecord? && |part.values| == |k.fields| && |ms| > 0 && MembersSyntax(ms)
    ensures InterpMembers(k, ms, depth, part) ==
            match InterpMember(k, ms[0], depth, part)
            case None => None
            case Some(p) => InterpMembers(k, ms[1..], depth, p)
  {
    hide InterpMember, Syntax;
  }

  lemma StepTwice(k: Kind, ms: seq<Member>, depth: nat, part: Partial)
    requires k.KRecord? && |part.values| == |k.fields| && |ms| > 1 && MembersSyntax(ms) && MembersSyntax(ms[1..][1..])
    requires UnitsOk(ms[1].key) && Syntax(ms[1].value)
    ensures InterpMembers(k, ms, depth, part) ==
            match Then(k, ms[1], depth, InterpMember(k, ms[0], depth, part))
            case None => None
            case Some(q) => InterpMembers(k, ms[1..][1..], depth, q)
  {
    hide InterpMember, InterpMembers, Syntax;
    InterpStep(k, ms, depth, part);
    match InterpMember(k, ms[0], depth, part)
    case None =>
    case Some(p) => InterpStep(k, ms[1..], depth, p);
  }

  lemma RemoveOne<T>(s: seq<T>, m: T, a: seq<T>, b: seq<T>)
    requires multiset([m] + s) == multiset(a + [m] + b)
    ensures multiset(s) == multiset(a + b)
  {
    assert multiset([m] + s) == multiset{m} + multiset(s);
    assert multiset(a + [m] + b) == multiset(a) + multiset{m} + multiset(b);
    assert multiset(a + b) == multiset(a) + multiset(b);
    assert multiset(s) == multiset([m] + s) - multiset{m};
  }

  /** Members in another order. */
  lemma {:induction false} Reordered(k: Kind, ms: seq<Member>, ns: seq<Member>, depth: nat, part: Partial)
    requires k.KRecord? && |part.values| == |k.fields| && MembersSyntax(ms) && multiset(ms) == multiset(ns)
    ensures MembersSyntax(ns) && InterpMembers(k, ms, depth, part) == InterpMembers(k, ns, depth, part)
    decreases |ms|
  {
    hide InterpMember, Syntax, UnitsOk, BlanksOk;
    assert |ms| == |multiset(ms)| == |multiset(ns)| == |ns|;
    SyntaxOfAll(ms);
    SyntaxOfAll(ns);
    assert forall m :: m in ns ==> m in multiset(ms);
    if |ms| > 0 {
      var m := ms[0];
      assert m in multiset(ns);
      var j :| 0 <= j < |ns| && ns[j] == m;
      var a, b := ns[..j], ns[j + 1..];
      assert ns == a + [m] + b;
      assert ms == [m] + ms[1..];
      RemoveOne(ms[1..], m, a, b);
      MoveFirst(k, a, m, b, depth, part);
      assert ([m] + (a + b))[1..] == a + b;
      match InterpMember(k, m, depth, part)
      case None =>
      case Some(p) => Reordered(k, ms[1..], a + b, depth, p);
    }
  }

  /** A member an open record does not know, carrying any value the skipper carries. */
  predicate Unknown(k: Kind, m: Member, depth: nat) {
    k.KRecord? && UnitsOk(m.key) && Syntax(m.value) && ValidUtf8(KeyOf(m)) && IndexOf(k.fields, KeyOf(m)) < 0 && Carried(m.value, depth)
  }

  /** Unknown members read away. */
  lemma {:induction false} Inserted(k: Kind, a: seq<Member>, m: Member, b: seq<Member>, depth: nat, part: Partial)
    requires k.KRecord? && k.open && |part.values| == |k.fields| && MembersSyntax(a + [m] + b) && Unknown(k, m, depth)
    ensures MembersSyntax(a + b)
    ensures InterpMembers(k, a + [m] + b, depth, part) == InterpMembers(k, a + b, depth, part)
  {
    hide Syntax, UnitsOk, BlanksOk, UnitsValue, ValidUtf8, Carried, IndexOf, Interp;
    MoveFirst(k, a, m, b, depth, part);
    assert ([m] + (a + b))[1..] == a + b;
  }

  /** A closed record refuses a key it does not know, wherever it stands. */
  lemma {:induction false} Refused(k: Kind, a: seq<Member>, m: Member, b: seq<Member>, depth: nat, part: Partial)
    requires k.KRecord? && !k.open && |part.values| == |k.fields| && MembersSyntax(a + [m] + b)
    requires UnitsOk(m.key) && IndexOf(k.fields, KeyOf(m)) < 0
    ensures InterpMembers(k, a + [m] + b, depth, part) == None
  {
    hide Syntax, BlanksOk, UnitsValue, ValidUtf8, Carried, IndexOf, Interp;
    MoveFirst(k, a, m, b, depth, part);
  }

  // ---- Trees that read alike ----

  /**
   t is s as another peer might write it: in every record, at any depth, the
   members in any order, and in an open one any number of members the kind does
   not know. Blanks and the spelling of keys are free.
   */
  ghost predicate Evolves(k: Kind, s: Json, t: Json, depth: nat)
    requires Syntax(s) && Syntax(t)
    decreases s, 2
  {
    || s == t
    || (k.KList? && s.Arr? && t.Arr? && ItemsEvolve(k.elem, s.items, t.items, depth + 1))
    || (k.KRecord? && s.Obj? && t.Obj? && MembersEvolve(k, s.members, t.members, depth + 1))
  }

  ghost predicate ItemsEvolve(elem: Kind, a: seq<Item>, b: seq<Item>, depth: nat)
    requires ItemsSyntax(a) && ItemsSyntax(b)
    decreases a, 0
  {
    |a| == |b| && (|a| > 0 ==> Evolves(elem, a[0].value, b[0].value, depth) && ItemsEvolve(elem, a[1..], b[1..], depth))
  }

  /** Each member kept, some added, and the whole rearranged. */
  ghost predicate MembersEvolve(k: Kind, ms: seq<Member>, ns: seq<Member>, depth: nat)
    requires k.KRecord? && MembersSyntax(ms)
    decreases ms, 1
  {
    exists kept, added ::
      && multiset(ns) == multiset(kept + added)
      && MembersSyntax(kept) && EachEvolves(k, ms, kept, depth)
      && AllUnknown(k, added, depth)
  }

  predicate AllUnknown(k: Kind, added: seq<Member>, depth: nat) {
    k.KRecord? && forall m :: m in added ==> k.open && Unknown(k, m, depth)
  }

  ghost predicate EachEvolves(k: Kind, ms: seq<Member>, ns: seq<Member>, depth: nat)
    requires k.KRecord? && MembersSyntax(ms) && MembersSyntax(ns)
    decreases ms, 0
  {
    |ms| == |ns| && (|ms| > 0 ==> MemberEvolves(k, ms[0], ns[0], depth) && EachEvolves(k, ms[1..], ns[1..], depth))
  }

  ghost predicate MemberEvolves(k: Kind, m: Member, n: Member, depth: nat)
    requires k.KRecord? && UnitsOk(m.key) && Syntax(m.value) && UnitsOk(n.key) && Syntax(n.value)
    decreases m, 3
  {
    var i := IndexOf(k.fields, KeyOf(m));
    KeyOf(m) == KeyOf(n) && if i >= 0 then Evolves(k.fields[i].kind, m.value, n.value, depth) else m.value == n.value
  }

  /** What a kind makes of a tree it makes of every tree that one evolves into. */
  lemma {:induction false} EvolvesAlike(k: Kind, s: Json, t: Json, depth: nat)
    requires Syntax(s) && Syntax(t) && Evolves(k, s, t, depth)
    ensures Interp(k, s, depth) == Interp(k, t, depth)
    decreases s, 2
  {
    hide MembersEvolve, ItemsEvolve, InterpMembers, InterpItems, MembersSyntax, ItemsSyntax, Required, Zeros;
    if s != t && k.KList? {
      TreeParts(s);
      TreeParts(t);
      ItemsAlike(k.elem, s.items, t.items, depth + 1, []);
    } else if s != t {
      TreeParts(s);
      TreeParts(t);
      MembersAlike(k, s.members, t.members, depth + 1, Partial({}, Zeros(k.fields)));
    }
  }

  lemma TreeParts(t: Json)
    requires Syntax(t)
    ensures t.Arr? ==> ItemsSyntax(t.items)
    ensures t.Obj? ==> MembersSyntax(t.members)
  {
  }

  lemma {:induction false} ItemsAlike(elem: Kind, a: seq<Item>, b: seq<Item>, depth: nat, out: seq<Value>)
    requires ItemsSyntax(a) && ItemsSyntax(b) && ItemsEvolve(elem, a, b, depth)
    ensures InterpItems(elem, a, depth, out) == InterpItems(elem, b, depth, out)
    decreases a, 0
  {
    hide Evolves, Interp, Syntax;
    if |a| > 0 {
      EvolvesAlike(elem, a[0].value, b[0].value, depth);
      match Interp(elem, a[0].value, depth)
      case Some(v) => ItemsAlike(elem, a[1..], b[1..], depth, out + [v]);
      case None =>
    }
  }

  lemma {:induction false} MembersAlike(k: Kind, ms: seq<Member>, ns: seq<Member>, depth: nat, part: Partial)
    requires k.KRecord? && MembersSyntax(ms) && MembersSyntax(ns) && MembersEvolve(k, ms, ns, depth)
    requires |part.values| == |k.fields|
    ensures InterpMembers(k, ms, depth, part) == InterpMembers(k, ns, depth, part)
    decreases ms, 1
  {
    hide InterpMembers, MembersSyntax, EachEvolves, AllUnknown;
    var kept, added :| && multiset(ns) == multiset(kept + added)
                       && MembersSyntax(kept) && EachEvolves(k, ms, kept, depth)
                       && AllUnknown(k, added, depth);
    EachAlike(k, ms, kept, depth, part);
    Reordered(k, ns, kept + added, depth, part);
    AddedReadAway(k, kept, added, depth, part);
  }

  lemma {:induction false} EachAlike(k: Kind, ms: seq<Member>, ns: seq<Member>, depth: nat, part: Partial)
    requires k.KRecord? && MembersSyntax(ms) && MembersSyntax(ns) && EachEvolves(k, ms, ns, depth)
    requires |part.values| == |k.fields|
    ensures InterpMembers(k, ms, depth, part) == InterpMembers(k, ns, depth, part)
    decreases ms, 0
  {
    hide Evolves, Interp, Syntax, IndexOf, KeyOf, Carried, ValidUtf8, UnitsOk;
    if |ms| > 0 {
      var m, n := ms[0], ns[0];
      if IndexOf(k.fields, KeyOf(m)) >= 0 {
        EvolvesAlike(k.fields[IndexOf(k.fields, KeyOf(m))].kind, m.value, n.value, depth);
      }
      assert InterpMember(k, m, depth, part) == InterpMember(k, n, depth, part);
      match InterpMember(k, m, depth, part)
      case Some(next) => EachAlike(k, ms[1..], ns[1..], depth, next);
      case None =>
    }
  }

  lemma {:induction false} AddedReadAway(k: Kind, kept: seq<Member>, added: seq<Member>, depth: nat, part: Partial)
    requires k.KRecord? && MembersSyntax(kept + added) && AllUnknown(k, added, depth) && |part.values| == |k.fields|
    ensures MembersSyntax(kept) && InterpMembers(k, kept + added, depth, part) == InterpMembers(k, kept, depth, part)
    decreases |added|
  {
    hide InterpMembers, MembersSyntax, Unknown;
    if |added| == 0 {
      assert kept + added == kept;
    } else {
      var n := |added| - 1;
      assert added[n] in added;
      assert kept + added == (kept + added[..n]) + [added[n]] + [];
      assert (kept + added[..n]) + [] == kept + added[..n];
      Inserted(k, kept + added[..n], added[n], [], depth, part);
      AddedReadAway(k, kept, added[..n], depth, part);
    }
  }

  lemma {:induction false} EachStays(k: Kind, ms: seq<Member>, depth: nat)
    requires k.KRecord? && MembersSyntax(ms)
    ensures EachEvolves(k, ms, ms, depth)
  {
    if |ms| > 0 {
      assert MemberEvolves(k, ms[0], ms[0], depth);
      EachStays(k, ms[1..], depth);
    }
  }

  /** A record evolves by rearranging its members and, when it is open, adding unknown ones. */
  lemma RecordEvolves(k: Kind, s: Json, t: Json, added: seq<Member>, depth: nat)
    requires k.KRecord? && s.Obj? && t.Obj? && Syntax(s) && Syntax(t)
    requires multiset(t.members) == multiset(s.members + added) && AllUnknown(k, added, depth + 1)
    ensures Evolves(k, s, t, depth)
  {
    hide AllUnknown, MembersSyntax, EachEvolves;
    TreeParts(s);
    EachStays(k, s.members, depth + 1);
    assert MembersEvolve(k, s.members, t.members, depth + 1);
  }

  // ---- Closed records ----

  /** Somewhere in the tree a closed record meets a key it does not know. */
  predicate Strays(k: Kind, t: Json)
    requires Syntax(t)
    decreases t, 1
  {
    match k
    case KList(elem) => t.Arr? && ItemsStray(elem, t.items)
    case KRecord(_, _) => t.Obj? && MembersStray(k, t.members)
    case _ => false
  }

  predicate ItemsStray(elem: Kind, items: seq<Item>)
    requires ItemsSyntax(items)
    decreases items, 0
  {
    |items| > 0 && (Strays(elem, items[0].value) || ItemsStray(elem, items[1..]))
  }

  predicate MembersStray(k: Kind, ms: seq<Member>)
    requires k.KRecord? && MembersSyntax(ms)
    decreases ms, 0
  {
    |ms| > 0 && (MemberStrays(k, ms[0]) || MembersStray(k, ms[1..]))
  }

  predicate MemberStrays(k: Kind, m: Member)
    requires k.KRecord? && UnitsOk(m.key) && Syntax(m.value)
    decreases m, 2
  {
    var i := IndexOf(k.fields, KeyOf(m));
    if i >= 0 then Strays(k.fields[i].kind, m.value) else !k.open
  }

  lemma {:induction false} StrayMeansNothing(k: Kind, t: Json, depth: nat)
    requires Syntax(t) && Strays(k, t)
    ensures Interp(k, t, depth) == None
    decreases t, 1
  {
    hide MembersStray, ItemsStray, InterpMembers, InterpItems, MembersSyntax, ItemsSyntax;
    TreeParts(t);
    if k.KList? {
      StrayItems(k.elem, t.items, depth + 1, []);
    } else {
      StrayMembers(k, t.members, depth + 1, Partial({}, Zeros(k.fields)));
    }
  }

  lemma {:induction false} StrayItems(elem: Kind, items: seq<Item>, depth: nat, out: seq<Value>)
    requires ItemsSyntax(items) && ItemsStray(elem, items)
    ensures InterpItems(elem, items, depth, out) == None
    decreases items, 0
  {
    hide Strays, Interp, Syntax;
    if Strays(elem, items[0].value) {
      StrayMeansNothing(elem, items[0].value, depth);
    } else if Interp(elem, items[0].value, depth).Some? {
      StrayItems(elem, items[1..], depth, out + [Interp(elem, items[0].value, depth).value]);
    }
  }

  lemma {:induction false} StrayMembers(k: Kind, ms: seq<Member>, depth: nat, part: Partial)
    requires k.KRecord? && MembersSyntax(ms) && MembersStray(k, ms) && |part.values| == |k.fields|
    ensures InterpMembers(k, ms, depth, part) == None
    decreases ms, 0
  {
    hide Strays, Interp, Syntax, IndexOf, KeyOf, Carried, ValidUtf8, UnitsOk;
    if MemberStrays(k, ms[0]) {
      var i := IndexOf(k.fields, KeyOf(ms[0]));
      if i >= 0 {
        StrayMeansNothing(k.fields[i].kind, ms[0].value, depth);
      }
      assert InterpMember(k, ms[0], depth, part) == None;
    } else if InterpMember(k, ms[0], depth, part).Some? {
      StrayMembers(k, ms[1..], depth, InterpMember(k, ms[0], depth, part).value);
    }
  }

  // ---- On texts ----

  /** Two texts decode alike: to one value, or both to a refusal. */
  predicate DecodeAlike(k: Kind, a: bytes, b: bytes, depth: nat) {
    var x, y := DecodeText(k, a, depth), DecodeText(k, b, depth);
    (x.Ok? <==> y.Ok?) && (x.Ok? ==> x.value == y.value)
  }

  /** A text is one tree printed, between blanks. */
  predicate Spells(buf: bytes, lead: bytes, t: Json, trail: bytes) {
    AllSpace(lead) && Syntax(t) && AllSpace(trail) && buf == lead + (Print(t) + trail)
  }

  lemma Decoded(k: Kind, buf: bytes, lead: bytes, t: Json, trail: bytes, depth: nat)
    requires Spells(buf, lead, t, trail)
    ensures DecodeText(k, buf, depth).Ok? <==> Interp(k, t, depth).Some?
    ensures DecodeText(k, buf, depth).Ok? ==> DecodeText(k, buf, depth).value == Interp(k, t, depth).value
  {
    hide DecodeText, Interp, Syntax, Print;
    TextRead(k, buf, depth, lead, t, trail);
  }

  /** A text and one it evolves into decode to the same value, or are both refused, for every kind and depth. */
  lemma ReadAlike(k: Kind, a: bytes, b: bytes, lead: bytes, s: Json, trail: bytes, before: bytes, t: Json, after: bytes, depth: nat)
    requires Spells(a, lead, s, trail) && Spells(b, before, t, after) && Evolves(k, s, t, depth)
    ensures DecodeAlike(k, a, b, depth)
  {
    hide DecodeText, Interp, Syntax, Print, Evolves;
    EvolvesAlike(k, s, t, depth);
    Decoded(k, a, lead, s, trail, depth);
    Decoded(k, b, before, t, after, depth);
  }

  /** A text with a key unknown to a closed record, anywhere in it, is refused. */
  lemma UnknownRefused(k: Kind, buf: bytes, lead: bytes, t: Json, trail: bytes, depth: nat)
    requires Spells(buf, lead, t, trail) && Strays(k, t)
    ensures DecodeText(k, buf, depth).Refuse?
  {
    hide DecodeText, Interp, Syntax, Print, Strays;
    StrayMeansNothing(k, t, depth);
    Decoded(k, buf, lead, t, trail, depth);
  }
}
