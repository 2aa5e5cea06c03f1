/**
 Forward compatibility over a whole call: what a client makes of any payload a
 peer may send, and what a dispatcher makes of any arguments.
 */
module Replies {
  import opened Basics
  import opened Bytes
  import opened Utf8
  import opened Scan
  import opened Grammar
  import opened Schema
  import opened Decoding
  import opened Encoding
  import opened Records
  import opened Rpc
  import opened Forward

  /** The reply a peer sends with a payload of its own. */
  function Replied(f: Frame, payload: bytes): bytes {
    ReplyText(f, Good(payload))
  }

  /** The payload as the reply's reader sees it: carried one level down, or refused. */
  lemma PayloadRead(f: Frame, t: Json)
    requires Syntax(t) && ValidUtf8(f.service) && ValidUtf8(f.operation)
    ensures var r := ServiceResponse(Replied(f, Print(t)), f.service, f.operation);
            if Carried(t, 1) then r == Good(Print(t)) else r.Bad? && r.error.Refused?
  {
    hide Carried, Syntax, Print, ValidUtf8, IsRaw, RawTree, DecodeText, Decode, Encode;
    assert IsRaw(Print(t)) by { PrintIsRaw(t); }
    CarriedByText(RawTree(Print(t)), t, 1);
    ReplyRead(f, true, Print(t));
  }

  lemma PrintIsRaw(t: Json)
    requires Syntax(t)
    ensures IsRaw(Print(t))
  {
  }

  /** A payload read as the operation's result. */
  lemma ResultRead(op: Op, t: Json)
    requires Syntax(t) && Interp(ResultKind(op), t, 1).Some?
    ensures var v := Interp(ResultKind(op), t, 1).value; v.VRecord? && |v.fields| == 1 && v == VRecord([v.fields[0]])
  {
    hide InterpMembers, Syntax;
  }

  /**
   What the client gets from a payload of any shape: a result exactly when the
   payload means one and the reply's own reader carries it whole, and then that
   result; otherwise a refusal.
   */
  lemma ReplyExact(op: Op, f: Frame, t: Json)
    requires Syntax(t) && ValidUtf8(f.service) && ValidUtf8(f.operation)
    ensures var r := Received(op, f, Replied(f, Print(t)));
            if Carried(t, 1) && Interp(ResultKind(op), t, 1).Some?
            then r.Good? && Interp(ResultKind(op), t, 1) == Some(VRecord([r.value]))
            else r.Bad? && r.error.Refused?
  {
    hide Carried, Syntax, Print, ValidUtf8, Interp, DecodeText, ResultKind, Replied, ServiceResponse;
    PayloadRead(f, t);
    NoBlanks();
    assert [] + (Print(t) + []) == Print(t);
    TextRead(ResultKind(op), Print(t), 1, [], t, []);
    if Interp(ResultKind(op), t, 1).Some? {
      ResultRead(op, t);
    }
  }

  /**
   A newer peer's payload: the client makes of it what it makes of the one it
   evolved from, as long as the reply's reader carries both.
   */
  lemma ReplyAlike(op: Op, f: Frame, s: Json, t: Json)
    requires Syntax(s) && Syntax(t) && Evolves(ResultKind(op), s, t, 1) && ValidUtf8(f.service) && ValidUtf8(f.operation)
    ensures var r, q := Received(op, f, Replied(f, Print(t))), Received(op, f, Replied(f, Print(s)));
            && (r.Good? <==> Carried(t, 1) && Interp(ResultKind(op), s, 1).Some?)
            && (r.Good? && q.Good? ==> r == q)
            && (Carried(s, 1) && Carried(t, 1) ==> (r.Good? <==> q.Good?))
  {
    hide Carried, Syntax, Print, ValidUtf8, Interp, ResultKind, Replied, Received, Evolves;
    EvolvesAlike(ResultKind(op), s, t, 1);
    ReplyExact(op, f, s);
    ReplyExact(op, f, t);
  }

  // ---- A key sent twice ----

  lemma {:induction false} RepeatedKey(ms: seq<Member>, i: nat, j: nat, depth: nat, seen: set<bytes>)
    requires MembersSyntax(ms) && i < j < |ms| && UnitsOk(ms[i].key) && UnitsOk(ms[j].key) && KeyOf(ms[i]) == KeyOf(ms[j])
    ensures !MembersCarried(ms, depth, seen)
  {
    hide Carried, ValidUtf8, Syntax, UnitsOk, KeyOf;
    if i > 0 {
      RepeatedKey(ms[1..], i - 1, j - 1, depth, seen + {KeyOf(ms[0])});
    } else if MembersCarried(ms, depth, seen) {
      SeenKey(ms[1..], j - 1, depth, seen + {KeyOf(ms[0])});
    }
  }

  lemma {:induction false} SeenKey(ms: seq<Member>, j: nat, depth: nat, seen: set<bytes>)
    requires MembersSyntax(ms) && j < |ms| && UnitsOk(ms[j].key) && KeyOf(ms[j]) in seen
    ensures !MembersCarried(ms, depth, seen)
  {
    hide Carried, ValidUtf8, Syntax, UnitsOk, KeyOf;
    if j > 0 {
      SeenKey(ms[1..], j - 1, depth, seen + {KeyOf(ms[0])});
    }
  }

  /** A record with an unknown member twice means what it meant, and is not carried. */
  lemma UnknownTwice(k: Kind, s: Json, t: Json, m: Member, depth: nat)
    requires k.KRecord? && k.open && s.Obj? && t.Obj? && Syntax(s) && Syntax(t)
    requires t.members == s.members + [m, m] && Unknown(k, m, depth + 1)
    ensures Evolves(k, s, t, depth) && Interp(k, s, depth) == Interp(k, t, depth) && !Carried(t, depth)
  {
    hide Evolves, Interp, Syntax, Unknown, MembersCarried;
    RecordEvolves(k, s, t, [m, m], depth);
    EvolvesAlike(k, s, t, depth);
    TreeParts(t);
    var n := |s.members|;
    assert t.members[n] == m && t.members[n + 1] == m;
    assert UnitsOk(m.key) by { UnknownKey(k, m, depth + 1); }
    RepeatedKey(t.members, n, n + 1, depth + 1, {});
  }

  lemma UnknownKey(k: Kind, m: Member, depth: nat)
    requires Unknown(k, m, depth)
    ensures UnitsOk(m.key)
  {
  }

  /**
   An unknown member sent twice inside a result: the result's own reader would
   read both away, and the reply's reader refuses the payload.
   */
  lemma TwiceRefused(op: Op, f: Frame, s: Json, t: Json, m: Member)
    requires Syntax(s) && Syntax(t) && ValidUtf8(f.service) && ValidUtf8(f.operation)
    requires InOneMember(ResultKind(op), s, t) && |ResultKind(op).fields| == 1
    requires var k, x, y := ResultKind(op).fields[0].kind, s.members[0].value, t.members[0].value;
             && k.KRecord? && k.open && x.Obj? && y.Obj?
             && y.members == x.members + [m, m] && Unknown(k, m, 3)
    ensures Interp(ResultKind(op), s, 1) == Interp(ResultKind(op), t, 1)
    ensures var r := Received(op, f, Replied(f, Print(t))); r.Bad? && r.error.Refused?
  {
    hide Print, ValidUtf8, ResultKind, Replied, Received, Unknown, UnitsOk, KeyOf, Evolves, Interp, Carried, Syntax;
    var k := ResultKind(op).fields[0].kind;
    MemberParts(s);
    MemberParts(t);
    UnknownTwice(k, s.members[0].value, t.members[0].value, m, 2);
    OneMemberAlike(ResultKind(op), s, t, 1);
    OneMemberCarried(t, 1);
    ReplyExact(op, f, t);
  }

  /** Two records of one member each, of the same known key. */
  predicate InOneMember(k: Kind, s: Json, t: Json) {
    && k.KRecord? && s.Obj? && t.Obj? && |s.members| == 1 && |t.members| == 1
    && UnitsOk(s.members[0].key) && UnitsOk(t.members[0].key) && KeyOf(s.members[0]) == KeyOf(t.members[0])
    && IndexOf(k.fields, KeyOf(s.members[0])) == 0
  }

  lemma MemberParts(t: Json)
    requires Syntax(t) && t.Obj? && |t.members| == 1
    ensures Syntax(t.members[0].value)
  {
  }

  lemma OneMemberAlike(k: Kind, s: Json, t: Json, depth: nat)
    requires Syntax(s) && Syntax(t) && InOneMember(k, s, t)
    requires Syntax(s.members[0].value) && Syntax(t.members[0].value)
    requires Interp(k.fields[0].kind, s.members[0].value, depth + 1) == Interp(k.fields[0].kind, t.members[0].value, depth + 1)
    ensures Interp(k, s, depth) == Interp(k, t, depth)
  {
    hide Carried, ValidUtf8, UnitsOk, KeyOf, IndexOf, Zeros, Required;
    var part := Partial({}, Zeros(k.fields));
    assert InterpMember(k, s.members[0], depth + 1, part) == InterpMember(k, t.members[0], depth + 1, part);
    assert s.members[1..] == [] && t.members[1..] == [];
    TreeParts(s);
    TreeParts(t);
    InterpStep(k, s.members, depth + 1, part);
    InterpStep(k, t.members, depth + 1, part);
  }

  lemma OneMemberCarried(t: Json, depth: nat)
    requires Syntax(t) && t.Obj? && |t.members| == 1 && Syntax(t.members[0].value) && !Carried(t.members[0].value, depth + 1)
    ensures !Carried(t, depth)
  {
  }

  // ---- Arguments ----

  /** Arguments with a key unknown to a closed record, anywhere in them, never reach the handler. */
  lemma StrayNeverCalls(frame: bytes, f: Frame, op: Op, t: Json, h: Handler)
    requires ServicePayload(frame) == Good(f) && f.service == CONTRACT && MethodOp(f.operation) == Some(op)
    requires Syntax(t) && f.arguments == Print(t) && Strays(ArgumentsKind(op), t) && WellTyped(h)
    ensures ExchangeFrame(frame, h).Answered? && ExchangeFrame(frame, h).calls == []
  {
    hide Syntax, Print, Strays, DecodeText, ArgumentsKind, ServicePayload, MethodOp, ServiceReply;
    NoBlanks();
    ContractRead();
    assert [] + (Print(t) + []) == Print(t);
    UnknownRefused(ArgumentsKind(op), Print(t), [], t, [], 1);
  }
}
