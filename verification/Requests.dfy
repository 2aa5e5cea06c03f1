/** The two requests of the routing contract, sent through a call. */
module Requests {
  import opened Basics
  import opened Bytes
  import opened Utf8
  import opened Scan
  import opened Grammar
  import opened Schema
  import opened Encoding
  import opened RoundTrip
  import opened Records
  import Rpc

  /** allowed is absent, or present and possibly empty. anew is the wire's fresh. */
  datatype PickRequest = PickRequest(model: bytes, anew: bool, allowed: Option<seq<bytes>>, profile: bytes)

  /** placement is the private tag of a closed enum, 1 to 3 when it is a member. */
  datatype OfferRequest = OfferRequest(profile: bytes, placement: nat, reserve: int64, anew: bool)

  function Strings(ss: seq<bytes>): (vs: seq<Value>)
    ensures |vs| == |ss| && forall i :: 0 <= i < |ss| ==> vs[i] == VStr(ss[i])
  {
    seq(|ss|, i requires 0 <= i < |ss| => VStr(ss[i]))
  }

  function AllowanceValue(hosts: seq<bytes>): Value {
    VRecord([VList(Strings(hosts))])
  }

  function PickValue(r: PickRequest): Value {
    VRecord([VStr(r.model), VBool(r.anew), if r.allowed.Some? then AllowanceValue(r.allowed.value) else VNone, VStr(r.profile)])
  }

  function PickArguments(r: PickRequest): Value {
    VRecord([PickValue(r)])
  }

  function OfferValue(r: OfferRequest): Value {
    VRecord([VStr(r.profile), VEnum(r.placement), VInt(r.reserve), VBool(r.anew)])
  }

  function OfferArguments(r: OfferRequest): Value {
    VRecord([OfferValue(r)])
  }

  predicate PickIsUtf8(r: PickRequest) {
    && ValidUtf8(r.model) && ValidUtf8(r.profile)
    && (r.allowed.Some? ==> forall host :: host in r.allowed.value ==> ValidUtf8(host))
  }

  lemma StringsDiffer(a: seq<bytes>, b: seq<bytes>)
    requires Strings(a) == Strings(b)
    ensures a == b
  {
    assert |a| == |Strings(a)| == |b|;
    forall i | 0 <= i < |a| ensures a[i] == b[i] {
      assert Strings(a)[i] == Strings(b)[i];
    }
  }

  /** No two requests are the same arguments. */
  lemma PickArgumentsDiffer(a: PickRequest, b: PickRequest)
    requires PickArguments(a) == PickArguments(b)
    ensures a == b
  {
    var x, y := PickValue(a).fields, PickValue(b).fields;
    assert PickArguments(a).fields[0] == PickArguments(b).fields[0];
    assert x[0] == y[0] && x[1] == y[1] && x[2] == y[2] && x[3] == y[3];
    if a.allowed.Some? && b.allowed.Some? {
      assert AllowanceValue(a.allowed.value).fields[0] == AllowanceValue(b.allowed.value).fields[0];
      StringsDiffer(a.allowed.value, b.allowed.value);
    }
  }

  lemma OfferArgumentsDiffer(a: OfferRequest, b: OfferRequest)
    requires OfferArguments(a) == OfferArguments(b)
    ensures a == b
  {
    var x, y := OfferValue(a).fields, OfferValue(b).fields;
    assert OfferArguments(a).fields[0] == OfferArguments(b).fields[0];
    assert x[0] == y[0] && x[1] == y[1] && x[2] == y[2] && x[3] == y[3];
  }

  lemma AllowanceShape(hosts: seq<bytes>)
    ensures Shaped(HOST_ALLOWANCE, AllowanceValue(hosts)) && Writable(HOST_ALLOWANCE, AllowanceValue(hosts))
    ensures AllUtf8(HOST_ALLOWANCE, AllowanceValue(hosts)) <==> forall host :: host in hosts ==> ValidUtf8(host)
  {
    hide ValidUtf8;
    var v := AllowanceValue(hosts);
    var list := VList(Strings(hosts));
    assert v.fields[0] == list;
    forall x | x in list.items ensures Shaped(KStr, x) && Writable(KStr, x) {
    }
    assert FieldShaped(HOST_ALLOWANCE, 0, list);
    assert FieldWritable(HOST_ALLOWANCE, 0, list);
    if AllUtf8(HOST_ALLOWANCE, v) {
      assert FieldUtf8(HOST_ALLOWANCE, 0, list);
      forall host | host in hosts ensures ValidUtf8(host) {
        var i :| 0 <= i < |hosts| && hosts[i] == host;
        assert list.items[i] == VStr(host);
        assert AllUtf8(KStr, VStr(host));
      }
    }
    if forall host :: host in hosts ==> ValidUtf8(host) {
      assert forall x :: x in list.items ==> AllUtf8(KStr, x);
      assert FieldUtf8(HOST_ALLOWANCE, 0, list);
    }
  }

  lemma OneField(k: Kind, i: nat, x: Value, kind: Kind)
    requires k.KRecord? && i < |k.fields| && k.fields[i].kind == kind
    requires (k.fields[i].omit.WhenAbsent? && x.VNone?) || Shaped(kind, x)
    ensures FieldShaped(k, i, x)
    ensures !x.VNone? ==> Shaped(kind, x)
    ensures FieldWritable(k, i, x) <==> x.VNone? || Writable(kind, x)
    ensures FieldUtf8(k, i, x) <==> x.VNone? || AllUtf8(kind, x)
  {
  }

  lemma FourFields(k: Kind, v: Value)
    requires k.KRecord? && |k.fields| == 4 && v.VRecord? && |v.fields| == 4
    requires FieldShaped(k, 0, v.fields[0]) && FieldShaped(k, 1, v.fields[1]) && FieldShaped(k, 2, v.fields[2]) && FieldShaped(k, 3, v.fields[3])
    ensures Shaped(k, v)
    ensures Writable(k, v) <==> && FieldWritable(k, 0, v.fields[0]) && FieldWritable(k, 1, v.fields[1])
                                && FieldWritable(k, 2, v.fields[2]) && FieldWritable(k, 3, v.fields[3])
    ensures AllUtf8(k, v) <==> && FieldUtf8(k, 0, v.fields[0]) && FieldUtf8(k, 1, v.fields[1])
                               && FieldUtf8(k, 2, v.fields[2]) && FieldUtf8(k, 3, v.fields[3])
  {
    hide FieldShaped, FieldWritable, FieldUtf8;
  }

  lemma PickShape(r: PickRequest)
    ensures Shaped(PICK_REQUEST, PickValue(r)) && Writable(PICK_REQUEST, PickValue(r))
    ensures AllUtf8(PICK_REQUEST, PickValue(r)) <==> PickIsUtf8(r)
  {
    hide ValidUtf8, AllowanceValue, HOST_ALLOWANCE, FieldShaped, FieldWritable, FieldUtf8;
    var k, vs := PICK_REQUEST, PickValue(r).fields;
    if r.allowed.Some? {
      AllowanceShape(r.allowed.value);
    }
    OneField(k, 0, vs[0], KStr);
    OneField(k, 1, vs[1], KBool);
    OneField(k, 2, vs[2], HOST_ALLOWANCE);
    OneField(k, 3, vs[3], KStr);
    FourFields(k, PickValue(r));
  }

  lemma PickArgumentsShape(r: PickRequest)
    ensures Shaped(PICK_ARGUMENTS, PickArguments(r)) && Writable(PICK_ARGUMENTS, PickArguments(r))
    ensures AllUtf8(PICK_ARGUMENTS, PickArguments(r)) <==> PickIsUtf8(r)
  {
    hide PickValue, PICK_REQUEST, PickIsUtf8;
    PickShape(r);
    var k, v := PICK_ARGUMENTS, PickArguments(r);
    assert FieldShaped(k, 0, v.fields[0]);
    assert FieldWritable(k, 0, v.fields[0]);
    assert FieldUtf8(k, 0, v.fields[0]) == AllUtf8(PICK_REQUEST, PickValue(r));
  }

  lemma OfferArgumentsShape(r: OfferRequest)
    ensures Shaped(OFFER_ARGUMENTS, OfferArguments(r))
    ensures Writable(OFFER_ARGUMENTS, OfferArguments(r)) <==> 1 <= r.placement <= 3
    ensures AllUtf8(OFFER_ARGUMENTS, OfferArguments(r)) <==> ValidUtf8(r.profile)
  {
    hide OfferValue, OFFER_REQUEST, ValidUtf8;
    OfferShape(r);
    var k, v := OFFER_ARGUMENTS, OfferArguments(r);
    assert FieldShaped(k, 0, v.fields[0]);
    assert FieldWritable(k, 0, v.fields[0]) == Writable(OFFER_REQUEST, OfferValue(r));
    assert FieldUtf8(k, 0, v.fields[0]) == AllUtf8(OFFER_REQUEST, OfferValue(r));
  }

  lemma OfferShape(r: OfferRequest)
    ensures Shaped(OFFER_REQUEST, OfferValue(r))
    ensures Writable(OFFER_REQUEST, OfferValue(r)) <==> 1 <= r.placement <= 3
    ensures AllUtf8(OFFER_REQUEST, OfferValue(r)) <==> ValidUtf8(r.profile)
    ensures OfferValue(r).VRecord?
  {
    hide ValidUtf8, FieldShaped, FieldWritable, FieldUtf8;
    var k, vs := OFFER_REQUEST, OfferValue(r).fields;
    OneField(k, 0, vs[0], KStr);
    OneField(k, 1, vs[1], PLACEMENT);
    OneField(k, 2, vs[2], I64);
    OneField(k, 3, vs[3], KBool);
    FourFields(k, OfferValue(r));
  }

  /**
   A pick request reaches the handler as it was sent, an absent allowance and an
   empty one still apart, exactly when its strings are UTF-8; otherwise the
   client refuses it and nothing is called.
   */
  lemma PickDelivered(r: PickRequest, h: Rpc.Handler)
    requires Rpc.WellTyped(h)
    ensures Shaped(PICK_ARGUMENTS, PickArguments(r))
    ensures var outcome := Rpc.Call(Rpc.Pick, PickArguments(r), h);
            if PickIsUtf8(r)
            then && outcome.calls == [(Rpc.Pick, PickArguments(r))]
                 && (h(Rpc.Pick, PickArguments(r)).Returned? ==>
                     Shaped(PICK_RESULT_RECORD, VRecord([h(Rpc.Pick, PickArguments(r)).value])))
                 && Rpc.SeenByCaller(Rpc.Pick, h(Rpc.Pick, PickArguments(r)), outcome.result)
            else outcome.calls == [] && outcome.result.Bad? && outcome.result.error.Refused?
    ensures forall other :: PickArguments(other) == PickArguments(r) ==> other == r
  {
    hide PickIsUtf8, AllUtf8, Writable, PickArguments, Shaped, Rpc.Call, Rpc.SeenByCaller;
    PickArgumentsShape(r);
    Rpc.EndToEnd(Rpc.Pick, PickArguments(r), h);
    forall other | PickArguments(other) == PickArguments(r) ensures other == r {
      PickArgumentsDiffer(other, r);
    }
  }

  /** The same for an offer request, which the client also refuses when its placement is no member. */
  lemma OfferDelivered(r: OfferRequest, h: Rpc.Handler)
    requires Rpc.WellTyped(h)
    ensures Shaped(OFFER_ARGUMENTS, OfferArguments(r))
    ensures var outcome := Rpc.Call(Rpc.Offer, OfferArguments(r), h);
            if ValidUtf8(r.profile) && 1 <= r.placement <= 3
            then && outcome.calls == [(Rpc.Offer, OfferArguments(r))]
                 && (h(Rpc.Offer, OfferArguments(r)).Returned? ==>
                     Shaped(OFFER_RESULT_RECORD, VRecord([h(Rpc.Offer, OfferArguments(r)).value])))
                 && Rpc.SeenByCaller(Rpc.Offer, h(Rpc.Offer, OfferArguments(r)), outcome.result)
            else outcome.calls == [] && outcome.result.Bad? && outcome.result.error.Refused?
    ensures forall other :: OfferArguments(other) == OfferArguments(r) ==> other == r
  {
    hide ValidUtf8, AllUtf8, Writable, OfferArguments, Shaped, Rpc.Call, Rpc.SeenByCaller;
    OfferArgumentsShape(r);
    Rpc.EndToEnd(Rpc.Offer, OfferArguments(r), h);
    forall other | OfferArguments(other) == OfferArguments(r) ensures other == r {
      OfferArgumentsDiffer(other, r);
    }
  }

  /** Encode and Decode: a pick request written, with its closing line feed, reads back as itself and to its last byte. */
  lemma PickRoundTrip(r: PickRequest)
    ensures Shaped(PICK_REQUEST, PickValue(r))
    ensures var written := Encode(PICK_REQUEST, PickValue(r), 0);
            && written.Written?
            && var text := written.text + [LF];
               if PickIsUtf8(r) then DecodeText(PICK_REQUEST, text, 0) == Parsed.Ok(PickValue(r), |text|)
               else DecodeText(PICK_REQUEST, text, 0).Refuse?
  {
    hide Encode, DecodeText, PickIsUtf8, AllUtf8, Acceptable, Norm, WellFormed, Fits, Timeless, Writable, Embeds, Decode, SkipWs;
    PickShape(r);
    PickRequestSound(0);
    FittingIsUtf8(PICK_REQUEST, PickValue(r), 0);
    TimelessUnchanged(PICK_REQUEST, PickValue(r));
    EncodeDecode(PICK_REQUEST, PickValue(r), 0, 0, [LF]);
  }
}
