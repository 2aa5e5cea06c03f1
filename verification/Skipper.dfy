/** The skipper against the grammar: it walks exactly the values it carries, and stops at their end. */
module Skipper {
  import opened Bytes
  import opened Utf8
  import opened Scan
  import opened Grammar
  import opened Tokens

  /** A byte that may follow a value inside a container. */
  predicate Closes(c: byte) {
    c == COMMA || c == RBRACKET || c == RBRACE || IsSpace(c)
  }

  /** The byte at pos does not carry the value t on. */
  predicate Stops(t: Json, buf: bytes, pos: nat) {
    t.Num? ==> t.n.EndsBefore(At(buf, pos))
  }

  /** A body between blanks is where the reader looks for it, and so is the byte after it. */
  lemma Framed(buf: bytes, pos: nat, before: bytes, body: bytes, after: bytes)
    requires HasAt(buf, pos, before + (body + after)) && AllSpace(before) && AllSpace(after)
    requires |body| > 0 && !IsSpace(body[0])
    requires !IsSpace(At(buf, pos + |before| + |body| + |after|))
    ensures SkipWs(buf, pos) == pos + |before|
    ensures HasAt(buf, pos + |before|, body)
    ensures pos + |before| + |body| <= |buf|
    ensures SkipWs(buf, pos + |before| + |body|) == pos + |before| + |body| + |after|
    ensures var c := At(buf, pos + |before| + |body|);
            IsSpace(c) || c == At(buf, pos + |before| + |body| + |after|)
  {
    hide HasAt;
    HasAtSplit(buf, pos, before, body + after);
    HasAtSplit(buf, pos + |before|, body, after);
    HasAtFirst(buf, pos + |before|, body);
    HasAtInside(buf, pos + |before|, body);
    BlanksSkipped(buf, pos, before);
    BlanksSkipped(buf, pos + |before| + |body|, after);
    if |after| > 0 {
      HasAtFirst(buf, pos + |before| + |body|, after);
    }
  }

  /** The rest of a list of elements after the first: where it stands, and the byte before it. */
  lemma Separated(buf: bytes, pos: nat, first: bytes, rest: bytes, last: bool)
    requires HasAt(buf, pos, first + (if last then [] else [COMMA] + rest))
    ensures HasAt(buf, pos, first)
    ensures !last ==> At(buf, pos + |first|) == COMMA && HasAt(buf, pos + |first| + 1, rest)
    ensures last ==> first + (if last then [] else [COMMA] + rest) == first
  {
    hide HasAt;
    if last {
      HasAtSplit(buf, pos, first, []);
    } else {
      HasAtSplit(buf, pos, first, [COMMA] + rest);
      HasAtSplit(buf, pos + |first|, [COMMA], rest);
      HasAtFirst(buf, pos + |first|, [COMMA]);
    }
  }

  /** The three parts of a printed container. */
  lemma Container(buf: bytes, pos: nat, open: byte, lead: bytes, inner: bytes, shut: byte)
    requires HasAt(buf, pos, [open] + (lead + (inner + [shut]))) && AllSpace(lead)
    requires shut != 0 && !IsSpace(shut)
    ensures pos < |buf| && buf[pos] == open
    ensures At(buf, pos + 1 + |lead| + |inner|) == shut
    ensures HasAt(buf, pos + 1 + |lead|, inner)
    ensures pos + 1 + |lead| + |inner| < |buf|
    ensures inner == [] ==> SkipWs(buf, pos + 1) == pos + 1 + |lead|
  {
    hide HasAt;
    HasAtSplit(buf, pos, [open], lead + (inner + [shut]));
    HasAtFirst(buf, pos, [open]);
    HasAtSplit(buf, pos + 1, lead, inner + [shut]);
    HasAtSplit(buf, pos + 1 + |lead|, inner, [shut]);
    HasAtFirst(buf, pos + 1 + |lead| + |inner|, [shut]);
    if inner == [] {
      BlanksSkipped(buf, pos + 1, lead);
    }
  }

  /** Whatever blanks it begins with, a list of elements does not begin with a bracket. */
  lemma OpensNoBracket(buf: bytes, pos: nat, before: bytes, c: byte)
    requires HasAt(buf, pos, before + [c]) && AllSpace(before) && !IsSpace(c)
    ensures pos <= |buf| && At(buf, SkipWs(buf, pos)) == c && SkipWs(buf, pos) == pos + |before|
  {
    hide HasAt;
    HasAtSplit(buf, pos, before, [c]);
    HasAtFirst(buf, pos + |before|, [c]);
    HasAtInside(buf, pos, before);
    BlanksSkipped(buf, pos, before);
  }

  lemma SpacesTwice(buf: bytes, pos: nat)
    requires pos <= |buf|
    ensures SkipWs(buf, SkipWs(buf, pos)) == SkipWs(buf, pos)
  {
  }

  // ---- What the skipper does on a printed value ----

  lemma {:induction false} SkipRead(t: Json, buf: bytes, pos: nat, depth: nat)
    requires Syntax(t) && HasAt(buf, pos, Print(t)) && Stops(t, buf, pos + |Print(t)|)
    ensures pos <= |buf|
    ensures if Carried(t, depth) then Skip(buf, pos, depth) == Parsed.Ok((), pos + |Print(t)|)
            else Skip(buf, pos, depth).Refuse?
    decreases t, 1
  {
    hide HasAt, ValidUtf8, Str, SkipNumber, SkipWs, SkipContainer, AllSpace;
    match t
    case Arr(lead, items) =>
      HasAtFirst(buf, pos, Print(t));
      Container(buf, pos, LBRACKET, lead, ItemsText(items), RBRACKET);
      SkipItemsIn(t, buf, pos, depth);
    case Obj(lead, members) =>
      HasAtFirst(buf, pos, Print(t));
      Container(buf, pos, LBRACE, lead, MembersText(members), RBRACE);
      SkipMembersIn(t, buf, pos, depth);
    case _ =>
      hide Skip, Carried, Print, Stops;
      ScalarSkipped(t, buf, pos, depth);
  }

  lemma ScalarSkipped(t: Json, buf: bytes, pos: nat, depth: nat)
    requires !t.Arr? && !t.Obj? && Syntax(t) && HasAt(buf, pos, Print(t)) && Stops(t, buf, pos + |Print(t)|)
    ensures pos <= |buf|
    ensures if Carried(t, depth) then Skip(buf, pos, depth) == Parsed.Ok((), pos + |Print(t)|)
            else Skip(buf, pos, depth).Refuse?
  {
    hide HasAt, ValidUtf8, Str, SkipNumber, SkipContainer;
    PrintNonEmpty(t);
    HasAtFirst(buf, pos, Print(t));
    match t
    case Num(n) =>
      NumberRead(buf, pos, n);
      assert IsDigit(n.whole[0]);
    case Text(us) =>
      StringRead(buf, pos, us);
    case _ =>
  }

  lemma {:induction false} SkipItemsIn(t: Json, buf: bytes, pos: nat, depth: nat)
    requires t.Arr? && Syntax(t) && pos < |buf| && buf[pos] == LBRACKET
    requires HasAt(buf, pos + 1 + |t.lead|, ItemsText(t.items))
    requires At(buf, pos + 1 + |t.lead| + |ItemsText(t.items)|) == RBRACKET
    requires t.items == [] ==> SkipWs(buf, pos + 1) == pos + 1 + |t.lead|
    ensures var end := pos + 1 + |t.lead| + |ItemsText(t.items)| + 1;
            if Carried(t, depth) then SkipContainer(buf, pos, depth) == Parsed.Ok((), end)
            else SkipContainer(buf, pos, depth).Refuse?
    decreases t, 0
  {
    hide HasAt, SkipWs, SkipItems, SkipMembers, AllSpace;
    var items := t.items;
    if |items| > 0 && depth < DEPTH_LIMIT {
      FirstItem(items, buf, pos + 1);
      SkipItemsRead(items, buf, pos + 1, depth + 1);
      ItemsFromBlank(buf, pos + 1, depth + 1);
    } else if |items| == 0 {
      assert ItemsCarried(items, depth + 1);
    }
  }

  lemma {:induction false} SkipMembersIn(t: Json, buf: bytes, pos: nat, depth: nat)
    requires t.Obj? && Syntax(t) && pos < |buf| && buf[pos] == LBRACE
    requires HasAt(buf, pos + 1 + |t.lead|, MembersText(t.members))
    requires At(buf, pos + 1 + |t.lead| + |MembersText(t.members)|) == RBRACE
    requires t.members == [] ==> SkipWs(buf, pos + 1) == pos + 1 + |t.lead|
    ensures var end := pos + 1 + |t.lead| + |MembersText(t.members)| + 1;
            if Carried(t, depth) then SkipContainer(buf, pos, depth) == Parsed.Ok((), end)
            else SkipContainer(buf, pos, depth).Refuse?
    decreases t, 0
  {
    hide HasAt, SkipWs, SkipItems, SkipMembers, AllSpace;
    var members := t.members;
    if |members| > 0 && depth < DEPTH_LIMIT {
      FirstMember(members, buf, pos + 1);
      SkipMembersRead(members, buf, pos + 1, depth + 1, {});
      MembersFromBlank(buf, pos + 1, depth + 1);
    } else if |members| == 0 {
      assert MembersCarried(members, depth + 1, {});
    }
  }

  /** Looking past blanks before the loop changes nothing the loop does. */
  lemma ItemsFromBlank(buf: bytes, pos: nat, depth: nat)
    requires pos <= |buf|
    ensures SkipItems(buf, SkipWs(buf, pos), depth) == SkipItems(buf, pos, depth)
  {
    hide Skip;
    SpacesTwice(buf, pos);
  }

  lemma MembersFromBlank(buf: bytes, pos: nat, depth: nat)
    requires pos <= |buf|
    ensures SkipMembers(buf, SkipWs(buf, pos), depth, {}) == SkipMembers(buf, pos, depth, {})
  {
    hide Skip, SkipKey;
    SpacesTwice(buf, pos);
  }

  lemma FirstItem(items: seq<Item>, buf: bytes, pos: nat)
    requires |items| > 0 && ItemsSyntax(items) && HasAt(buf, pos, ItemsText(items))
    ensures pos <= |buf| && At(buf, SkipWs(buf, pos)) != RBRACKET
  {
    hide HasAt;
    var i := items[0];
    PrintNonEmpty(i.value);
    var rest := ItemsText(items)[|i.before| + 1..];
    assert ItemsText(items) == (i.before + [Print(i.value)[0]]) + rest;
    HasAtSplit(buf, pos, i.before + [Print(i.value)[0]], rest);
    OpensNoBracket(buf, pos, i.before, Print(i.value)[0]);
  }

  lemma FirstMember(members: seq<Member>, buf: bytes, pos: nat)
    requires |members| > 0 && MembersSyntax(members) && HasAt(buf, pos, MembersText(members))
    ensures pos <= |buf| && At(buf, SkipWs(buf, pos)) != RBRACE
  {
    hide HasAt;
    var m := members[0];
    var rest := MembersText(members)[|m.before| + 1..];
    assert MembersText(members) == (m.before + [QUOTE]) + rest;
    HasAtSplit(buf, pos, m.before + [QUOTE], rest);
    OpensNoBracket(buf, pos, m.before, QUOTE);
  }

  /** One turn of the loop over an array. */
  lemma {:induction false} SkipItemStep(i: Item, buf: bytes, pos: nat, depth: nat)
    requires AllSpace(i.before) && Syntax(i.value) && AllSpace(i.after) && HasAt(buf, pos, ItemText(i))
    requires var c := At(buf, pos + |ItemText(i)|); c == COMMA || c == RBRACKET
    ensures pos + |ItemText(i)| <= |buf|
    ensures if !Carried(i.value, depth) then SkipItems(buf, pos, depth).Refuse?
            else SkipItems(buf, pos, depth) ==
                 if At(buf, pos + |ItemText(i)|) == COMMA then SkipItems(buf, pos + |ItemText(i)| + 1, depth)
                 else Parsed.Ok((), pos + |ItemText(i)|)
    decreases i, 0
  {
    hide HasAt, SkipWs, Skip, AllSpace, Carried, Syntax, Print, MembersText;
    PrintNonEmpty(i.value);
    HasAtInside(buf, pos, ItemText(i));
    Framed(buf, pos, i.before, Print(i.value), i.after);
    SkipRead(i.value, buf, pos + |i.before|, depth);
  }

  lemma {:induction false} SkipItemsRead(items: seq<Item>, buf: bytes, pos: nat, depth: nat)
    requires |items| > 0 && ItemsSyntax(items) && HasAt(buf, pos, ItemsText(items))
    requires At(buf, pos + |ItemsText(items)|) == RBRACKET
    ensures pos <= |buf|
    ensures if ItemsCarried(items, depth) then SkipItems(buf, pos, depth) == Parsed.Ok((), pos + |ItemsText(items)|)
            else SkipItems(buf, pos, depth).Refuse?
    decreases items, 0
  {
    hide HasAt, SkipWs, SkipItems, AllSpace, Carried, Syntax, ItemText;
    var rest := items[1..];
    var text := ItemText(items[0]);
    Separated(buf, pos, text, ItemsText(rest), |items| == 1);
    SkipItemStep(items[0], buf, pos, depth);
    if |items| > 1 {
      SkipItemsRead(rest, buf, pos + |text| + 1, depth);
    } else {
      assert ItemsCarried(rest, depth);
    }
  }

  /** A key, its blanks and its colon, one after another. */
  lemma KeyAtParts(buf: bytes, pos: nat)
    requires pos <= |buf| && At(buf, pos) == QUOTE
    ensures Str(buf, pos).Refuse? ==> KeyAt(buf, pos).Refuse?
    ensures Str(buf, pos).Ok? && At(buf, SkipWs(buf, Str(buf, pos).pos)) == COLON ==>
              KeyAt(buf, pos) == Parsed.Ok(Str(buf, pos).value, SkipWs(buf, SkipWs(buf, Str(buf, pos).pos) + 1))
  {
    hide Str, SkipWs;
  }

  /** Where a key, its blanks and its colon stand. */
  lemma KeyParts(m: Member, buf: bytes, pos: nat, next: byte)
    requires AllSpace(m.keyed) && AllSpace(m.coloned)
    requires HasAt(buf, pos, KeyText(m)) && At(buf, pos + |KeyText(m)|) == next && !IsSpace(next)
    ensures HasAt(buf, pos, StringText(m.key)) && pos < |buf| && buf[pos] == QUOTE
    ensures var end := pos + |StringText(m.key)|;
            && end <= |buf| && SkipWs(buf, end) == end + |m.keyed|
            && At(buf, end + |m.keyed|) == COLON && end + |m.keyed| < |buf|
            && SkipWs(buf, end + |m.keyed| + 1) == pos + |KeyText(m)|
  {
    hide HasAt, SkipWs, AllSpace, StringText;
    var k := StringText(m.key);
    StringOpens(m.key);
    HasAtFour(buf, pos, k, m.keyed, [COLON], m.coloned);
    HasAtFirst(buf, pos, k);
    HasAtFirst(buf, pos + |k| + |m.keyed|, [COLON]);
    BlanksSkipped(buf, pos + |k|, m.keyed);
    BlanksSkipped(buf, pos + |k| + |m.keyed| + 1, m.coloned);
  }

  lemma StringOpens(us: seq<Unit>)
    ensures |StringText(us)| > 0 && StringText(us)[0] == QUOTE
  {
  }

  lemma KeyRead(m: Member, buf: bytes, pos: nat, next: byte)
    requires UnitsOk(m.key) && AllSpace(m.keyed) && AllSpace(m.coloned)
    requires HasAt(buf, pos, KeyText(m)) && At(buf, pos + |KeyText(m)|) == next && !IsSpace(next)
    ensures pos < |buf| && buf[pos] == QUOTE
    ensures if ValidUtf8(UnitsValue(m.key)) then KeyAt(buf, pos) == Parsed.Ok(KeyOf(m), pos + |KeyText(m)|)
            else KeyAt(buf, pos).Refuse? && Str(buf, pos).Refuse?
    ensures ValidUtf8(UnitsValue(m.key)) ==> Str(buf, pos).Ok? && Str(buf, pos).value == KeyOf(m)
  {
    hide HasAt, SkipWs, ValidUtf8, Str, KeyAt, AllSpace, StringText, KeyText, UnitsValue;
    KeyParts(m, buf, pos, next);
    StringRead(buf, pos, m.key);
    KeyAtParts(buf, pos);
  }

  /** Where the parts of a member stand. */
  lemma MemberParts(m: Member, buf: bytes, pos: nat)
    requires BlanksOk(m) && UnitsOk(m.key) && Syntax(m.value) && HasAt(buf, pos, MemberText(m))
    requires Closes(At(buf, pos + |MemberText(m)|)) && !IsSpace(At(buf, pos + |MemberText(m)|))
    ensures pos <= |buf| && SkipWs(buf, pos) == pos + |m.before|
    ensures var k := pos + |m.before|;
            var v := k + |KeyText(m)|;
            var e := v + |Print(m.value)|;
            && k < |buf| && buf[k] == QUOTE
            && (if ValidUtf8(UnitsValue(m.key)) then KeyAt(buf, k) == Parsed.Ok(KeyOf(m), v) && Str(buf, k).Ok? && Str(buf, k).value == KeyOf(m)
                else KeyAt(buf, k).Refuse? && Str(buf, k).Refuse?)
            && HasAt(buf, v, Print(m.value)) && v < e <= |buf|
            && Closes(At(buf, e)) && SkipWs(buf, e) == pos + |MemberText(m)|
  {
    hide HasAt, SkipWs, ValidUtf8, Str, KeyAt, AllSpace, Syntax, Print, UnitsValue, UnitsText, UnitsOk;
    var k := pos + |m.before|;
    var v := k + |KeyText(m)|;
    PrintNonEmpty(m.value);
    assert KeyText(m) + (Print(m.value) + m.after) == (KeyText(m) + Print(m.value)) + m.after;
    Framed(buf, pos, m.before, KeyText(m) + Print(m.value), m.after);
    HasAtSplit(buf, k, KeyText(m), Print(m.value));
    HasAtFirst(buf, v, Print(m.value));
    HasAtInside(buf, v, Print(m.value));
    KeyRead(m, buf, k, Print(m.value)[0]);
    HasAtInside(buf, pos, MemberText(m));
  }

  /** The skipper's own reading of a member's key. */
  lemma SkipKeyRead(m: Member, buf: bytes, k: nat, v: nat, seen: set<bytes>)
    requires UnitsOk(m.key) && k < |buf| && buf[k] == QUOTE
    requires if ValidUtf8(UnitsValue(m.key)) then KeyAt(buf, k) == Parsed.Ok(KeyOf(m), v) && Str(buf, k).Ok? && Str(buf, k).value == KeyOf(m)
             else KeyAt(buf, k).Refuse? && Str(buf, k).Refuse?
    ensures if ValidUtf8(KeyOf(m)) && KeyOf(m) !in seen then SkipKey(buf, k, seen) == Parsed.Ok(KeyOf(m), v)
            else SkipKey(buf, k, seen).Refuse?
  {
    hide Str, KeyAt, ValidUtf8, UnitsValue;
  }

  /** One turn of the skipper's loop over an object. */
  lemma SkipMembersTurn(buf: bytes, pos: nat, depth: nat, seen: set<bytes>)
    requires pos <= |buf|
    ensures var key := SkipKey(buf, SkipWs(buf, pos), seen);
            && (key.Refuse? ==> SkipMembers(buf, pos, depth, seen).Refuse?)
            && (key.Ok? && Skip(buf, key.pos, depth).Refuse? ==> SkipMembers(buf, pos, depth, seen).Refuse?)
            && (key.Ok? && Skip(buf, key.pos, depth).Ok? ==>
                  var n := SkipWs(buf, Skip(buf, key.pos, depth).pos);
                  SkipMembers(buf, pos, depth, seen) ==
                  if At(buf, n) == COMMA then SkipMembers(buf, n + 1, depth, seen + {key.value}) else Parsed.Ok((), n))
  {
    hide Skip, SkipKey, SkipWs;
  }

  lemma {:induction false} SkipMemberStep(m: Member, buf: bytes, pos: nat, depth: nat, seen: set<bytes>)
    requires BlanksOk(m) && UnitsOk(m.key) && Syntax(m.value) && HasAt(buf, pos, MemberText(m))
    requires var c := At(buf, pos + |MemberText(m)|); c == COMMA || c == RBRACE
    ensures pos + |MemberText(m)| <= |buf|
    ensures if !(ValidUtf8(KeyOf(m)) && KeyOf(m) !in seen && Carried(m.value, depth)) then SkipMembers(buf, pos, depth, seen).Refuse?
            else SkipMembers(buf, pos, depth, seen) ==
                 if At(buf, pos + |MemberText(m)|) == COMMA then SkipMembers(buf, pos + |MemberText(m)| + 1, depth, seen + {KeyOf(m)})
                 else Parsed.Ok((), pos + |MemberText(m)|)
    decreases m, 0
  {
    hide HasAt, SkipWs, Skip, SkipKey, SkipMembers, AllSpace, ValidUtf8, KeyAt, Str, Carried, Syntax, Print, MemberText, KeyText, UnitsValue;
    HasAtInside(buf, pos, MemberText(m));
    MemberParts(m, buf, pos);
    SkipKeyRead(m, buf, pos + |m.before|, pos + |m.before| + |KeyText(m)|, seen);
    SkipMembersTurn(buf, pos, depth, seen);
    SkipRead(m.value, buf, pos + |m.before| + |KeyText(m)|, depth);
  }

  lemma {:induction false} SkipMembersRead(members: seq<Member>, buf: bytes, pos: nat, depth: nat, seen: set<bytes>)
    requires |members| > 0 && MembersSyntax(members) && HasAt(buf, pos, MembersText(members))
    requires At(buf, pos + |MembersText(members)|) == RBRACE
    ensures pos <= |buf|
    ensures if MembersCarried(members, depth, seen)
            then SkipMembers(buf, pos, depth, seen) == Parsed.Ok((), pos + |MembersText(members)|)
            else SkipMembers(buf, pos, depth, seen).Refuse?
    decreases members, 0
  {
    hide HasAt, SkipWs, SkipMembers, AllSpace, ValidUtf8, Carried, Syntax, MemberText, KeyOf, UnitsOk, BlanksOk;
    var rest := members[1..];
    var text := MemberText(members[0]);
    Separated(buf, pos, text, MembersText(rest), |members| == 1);
    SkipMemberStep(members[0], buf, pos, depth, seen);
    if |members| > 1 {
      SkipMembersRead(rest, buf, pos + |text| + 1, depth, seen + {KeyOf(members[0])});
    } else {
      assert MembersCarried(rest, depth, seen + {KeyOf(members[0])});
    }
  }

  // ---- What the skipper accepts is a printed value ----

  lemma JoinThree(buf: bytes, pos: nat, before: bytes, body: bytes, after: bytes)
    requires HasAt(buf, pos, before) && HasAt(buf, pos + |before|, body) && HasAt(buf, pos + |before| + |body|, after)
    ensures HasAt(buf, pos, before + (body + after))
  {
    hide HasAt;
    HasAtJoin(buf, pos + |before|, body, after);
    HasAtJoin(buf, pos, before, body + after);
  }

  lemma BlanksAt(buf: bytes, pos: nat) returns (blanks: bytes)
    requires pos <= |buf|
    ensures AllSpace(blanks) && HasAt(buf, pos, blanks) && SkipWs(buf, pos) == pos + |blanks|
  {
    blanks := buf[pos..SkipWs(buf, pos)];
  }

  lemma {:induction false} SkipSound(buf: bytes, pos: nat, depth: nat) returns (t: Json)
    requires pos <= |buf| && Skip(buf, pos, depth).Ok?
    ensures Syntax(t) && HasAt(buf, pos, Print(t)) && Stops(t, buf, pos + |Print(t)|)
    ensures Skip(buf, pos, depth).pos == pos + |Print(t)|
    decreases |buf| - pos, 1
  {
    hide HasAt, ValidUtf8, Str, SkipNumber, SkipContainer;
    var c := At(buf, pos);
    if c == QUOTE {
      var us := StringSound(buf, pos);
      t := Text(us);
    } else if c == LBRACE || c == LBRACKET {
      t := SkipContainerSound(buf, pos, depth);
    } else if c == MINUS || IsDigit(c) {
      var n := NumberSound(buf, pos);
      t := Num(n);
    } else {
      t := if c == LOWER_T then True else if c == LOWER_F then False else Null;
    }
  }

  lemma BracketTree(lead: bytes, items: seq<Item>)
    requires AllSpace(lead) && ItemsSyntax(items) && (|items| > 0 ==> lead == [])
    ensures Syntax(Arr(lead, items)) && Print(Arr(lead, items)) == [LBRACKET] + (lead + (ItemsText(items) + [RBRACKET]))
  {
  }

  lemma BraceTree(lead: bytes, members: seq<Member>)
    requires AllSpace(lead) && MembersSyntax(members) && (|members| > 0 ==> lead == [])
    ensures Syntax(Obj(lead, members)) && Print(Obj(lead, members)) == [LBRACE] + (lead + (MembersText(members) + [RBRACE]))
  {
  }

  lemma {:induction false} SkipContainerSound(buf: bytes, pos: nat, depth: nat) returns (t: Json)
    requires pos < |buf| && (buf[pos] == LBRACE || buf[pos] == LBRACKET) && SkipContainer(buf, pos, depth).Ok?
    ensures (t.Arr? || t.Obj?) && Syntax(t) && HasAt(buf, pos, Print(t))
    ensures SkipContainer(buf, pos, depth).pos == pos + |Print(t)|
    decreases |buf| - pos, 0
  {
    hide HasAt, SkipItems, SkipMembers, SkipWs, Syntax, Print, AllSpace, ItemsText, MembersText, ItemsSyntax, MembersSyntax;
    NothingInside();
    var open, p := buf[pos], SkipWs(buf, pos + 1);
    var lead, inner: bytes := [], [];
    if At(buf, p) == Shut(open) {
      lead := BlanksAt(buf, pos + 1);
      BraceTree(lead, []);
      BracketTree(lead, []);
      t := if open == LBRACE then Obj(lead, []) else Arr(lead, []);
    } else if open == LBRACE {
      MembersFromBlank(buf, pos + 1, depth + 1);
      var members := SkipMembersSound(buf, pos + 1, depth + 1, {});
      inner := MembersText(members);
      BraceTree([], members);
      t := Obj([], members);
    } else {
      ItemsFromBlank(buf, pos + 1, depth + 1);
      var items := SkipItemsSound(buf, pos + 1, depth + 1);
      inner := ItemsText(items);
      BracketTree([], items);
      t := Arr([], items);
    }
    EmptyAt(buf, pos + 1);
    EmptyAt(buf, p);
    ContainerAt(buf, pos, lead, inner, Shut(open));
  }

  lemma NothingInside()
    ensures ItemsSyntax([]) && MembersSyntax([]) && ItemsText([]) == [] && MembersText([]) == [] && AllSpace([])
  {
  }

  lemma EmptyAt(buf: bytes, pos: nat)
    requires pos <= |buf|
    ensures HasAt(buf, pos, [])
  {
  }

  lemma ContainerAt(buf: bytes, pos: nat, lead: bytes, inner: bytes, shut: byte)
    requires pos < |buf| && HasAt(buf, pos + 1, lead) && HasAt(buf, pos + 1 + |lead|, inner)
    requires pos + 1 + |lead| + |inner| < |buf| && buf[pos + 1 + |lead| + |inner|] == shut
    ensures HasAt(buf, pos, [buf[pos]] + (lead + (inner + [shut])))
  {
    hide HasAt;
    HasAtByte(buf, pos + 1 + |lead| + |inner|);
    HasAtJoin(buf, pos + 1 + |lead|, inner, [shut]);
    HasAtJoin(buf, pos + 1, lead, inner + [shut]);
    HasAtByte(buf, pos);
    HasAtJoin(buf, pos, [buf[pos]], lead + (inner + [shut]));
  }

  lemma JoinRest(buf: bytes, pos: nat, first: bytes, rest: bytes)
    requires HasAt(buf, pos, first) && At(buf, pos + |first|) == COMMA && HasAt(buf, pos + |first| + 1, rest)
    ensures HasAt(buf, pos, first + ([COMMA] + rest))
  {
    hide HasAt;
    HasAtByte(buf, pos + |first|);
    HasAtJoin(buf, pos + |first|, [COMMA], rest);
    HasAtJoin(buf, pos, first, [COMMA] + rest);
  }

  lemma ConsItems(i: Item, rest: seq<Item>)
    requires AllSpace(i.before) && Syntax(i.value) && AllSpace(i.after) && ItemsSyntax(rest)
    ensures ItemsSyntax([i] + rest)
    ensures ItemsText([i] + rest) == ItemText(i) + (if rest == [] then [] else [COMMA] + ItemsText(rest))
  {
    hide AllSpace, Syntax, Print;
    assert ([i] + rest)[1..] == rest;
  }

  lemma {:induction false} SkipItemsSound(buf: bytes, pos: nat, depth: nat) returns (items: seq<Item>)
    requires pos <= |buf| && SkipItems(buf, pos, depth).Ok?
    ensures |items| > 0 && ItemsSyntax(items) && HasAt(buf, pos, ItemsText(items))
    ensures SkipItems(buf, pos, depth).pos == pos + |ItemsText(items)|
    decreases |buf| - pos, 2
  {
    hide HasAt, SkipWs, Skip, AllSpace, Syntax, Print, ItemsText, ItemsSyntax, MembersText, MembersSyntax;
    NothingInside();
    var before := BlanksAt(buf, pos);
    var p := pos + |before|;
    var value := SkipSound(buf, p, depth);
    var e := p + |Print(value)|;
    var after := BlanksAt(buf, e);
    var i := Item(before, value, after);
    JoinThree(buf, pos, before, Print(value), after);
    var n := pos + |ItemText(i)|;
    assert n == e + |after|;
    var rest: seq<Item> := [];
    if At(buf, n) == COMMA {
      rest := SkipItemsSound(buf, n + 1, depth);
      JoinRest(buf, pos, ItemText(i), ItemsText(rest));
    }
    items := [i] + rest;
    ConsItems(i, rest);
    assert ItemText(i) + [] == ItemText(i);
  }

  lemma KeySound(buf: bytes, pos: nat) returns (key: seq<Unit>, keyed: bytes, coloned: bytes)
    requires pos <= |buf| && KeyAt(buf, pos).Ok?
    ensures UnitsOk(key) && AllSpace(keyed) && AllSpace(coloned)
    ensures Str(buf, pos).Ok? && Str(buf, pos).value == UnitsValue(key) == KeyAt(buf, pos).value
    ensures var text := StringText(key) + (keyed + ([COLON] + coloned));
            HasAt(buf, pos, text) && KeyAt(buf, pos).pos == pos + |text|
  {
    hide HasAt, SkipWs, AllSpace, Str, ValidUtf8, StringText, UnitsValue, UnitsOk;
    key := StringSound(buf, pos);
    var p := pos + |StringText(key)|;
    keyed := BlanksAt(buf, p);
    var q := p + |keyed|;
    coloned := BlanksAt(buf, q + 1);
    HasAtByte(buf, q);
    HasAtJoin(buf, q, [COLON], coloned);
    JoinThree(buf, pos, StringText(key), keyed, [COLON] + coloned);
  }

  /** The member whose key and value stand at pos. */
  lemma MemberAt(buf: bytes, pos: nat, value: Json) returns (m: Member)
    requires pos <= |buf| && KeyAt(buf, SkipWs(buf, pos)).Ok? && Syntax(value)
    requires var v := KeyAt(buf, SkipWs(buf, pos)).pos; HasAt(buf, v, Print(value)) && v + |Print(value)| <= |buf|
    ensures BlanksOk(m) && UnitsOk(m.key) && m.value == value && HasAt(buf, pos, MemberText(m))
    ensures KeyAt(buf, SkipWs(buf, pos)).value == KeyOf(m)
    ensures pos + |MemberText(m)| == SkipWs(buf, KeyAt(buf, SkipWs(buf, pos)).pos + |Print(value)|)
  {
    hide HasAt, SkipWs, AllSpace, Str, KeyAt, Print, Syntax;
    var before := BlanksAt(buf, pos);
    var k := pos + |before|;
    var key, keyed, coloned := KeySound(buf, k);
    var v := KeyAt(buf, k).pos;
    var after := BlanksAt(buf, v + |Print(value)|);
    m := Member(before, key, keyed, coloned, value, after);
    HasAtJoin(buf, v, Print(value), after);
    JoinThree(buf, pos, before, KeyText(m), Print(value) + after);
  }

  lemma ConsMembers(m: Member, rest: seq<Member>)
    requires BlanksOk(m) && UnitsOk(m.key) && Syntax(m.value) && MembersSyntax(rest)
    ensures MembersSyntax([m] + rest)
    ensures MembersText([m] + rest) == MemberText(m) + (if rest == [] then [] else [COMMA] + MembersText(rest))
  {
    hide BlanksOk, UnitsOk, Syntax, MemberText;
    assert ([m] + rest)[1..] == rest;
  }

  lemma {:induction false} SkipMembersSound(buf: bytes, pos: nat, depth: nat, seen: set<bytes>) returns (members: seq<Member>)
    requires pos <= |buf| && SkipMembers(buf, pos, depth, seen).Ok?
    ensures |members| > 0 && MembersSyntax(members) && HasAt(buf, pos, MembersText(members))
    ensures SkipMembers(buf, pos, depth, seen).pos == pos + |MembersText(members)|
    decreases |buf| - pos, 2
  {
    hide HasAt, SkipWs, Skip, AllSpace, Syntax, Print, ItemsText, ItemsSyntax, MembersText, MembersSyntax, Str, KeyAt, MemberText, ValidUtf8, UnitsValue, UnitsOk, BlanksOk;
    NothingInside();
    var p := SkipWs(buf, pos);
    var v := KeyAt(buf, p).pos;
    var value := SkipSound(buf, v, depth);
    var m := MemberAt(buf, pos, value);
    var n := pos + |MemberText(m)|;
    var rest: seq<Member> := [];
    if At(buf, n) == COMMA {
      rest := SkipMembersSound(buf, n + 1, depth, seen + {KeyOf(m)});
      JoinRest(buf, pos, MemberText(m), MembersText(rest));
    }
    members := [m] + rest;
    ConsMembers(m, rest);
    assert MemberText(m) + [] == MemberText(m);
  }

  // ---- The skipper, exactly ----

  /** t stands at pos, carried at this depth, and ends where the number it may be ends. */
  ghost predicate StandsAt(t: Json, buf: bytes, pos: nat, depth: nat) {
    Syntax(t) && Carried(t, depth) && HasAt(buf, pos, Print(t)) && Stops(t, buf, pos + |Print(t)|)
  }

  /**
   skipValue accepts and stops at end exactly when an RFC 8259 value stands
   there: well-formed strings, no key named twice in one object, and no
   container opened past the depth limit.
   */
  lemma SkipExact(buf: bytes, pos: nat, depth: nat, end: nat)
    requires pos <= |buf|
    ensures Skip(buf, pos, depth) == Parsed.Ok((), end) <==>
            exists t :: StandsAt(t, buf, pos, depth) && end == pos + |Print(t)|
  {
    hide HasAt, Skip, Carried, Syntax, Print;
    if Skip(buf, pos, depth) == Parsed.Ok((), end) {
      var t := SkipSound(buf, pos, depth);
      SkipRead(t, buf, pos, depth);
      assert StandsAt(t, buf, pos, depth);
    }
    if t :| StandsAt(t, buf, pos, depth) && end == pos + |Print(t)| {
      SkipRead(t, buf, pos, depth);
    }
  }
}
