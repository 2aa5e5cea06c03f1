/**
 One call from the client through a dispatcher and back: the frame and the reply
 that carry one encoded value inside another, and what the caller and the
 handler see of each other.
 */
module Rpc {
  import opened Basics
  import opened Bytes
  import opened Utf8
  import opened Scan
  import opened Grammar
  import opened Skipper
  import opened Schema
  import opened Decoding
  import opened Encoding
  import opened RoundTrip
  import opened Records

  // ---- The contract's operations ----

  datatype Op = Models | Hosts | Pick | Offer

  const CONTRACT: bytes := Ascii("abstraction.router/router@1")
  const ENDPOINT: bytes := Ascii("abstraction.facade/endpoint@1")

  function MethodName(op: Op): ascii {
    match op
    case Models => "Models"
    case Hosts => "Hosts"
    case Pick => "Pick"
    case Offer => "Offer"
  }

  function ArgumentsKind(op: Op): Kind {
    match op
    case Models => MODELS_ARGUMENTS
    case Hosts => HOSTS_ARGUMENTS
    case Pick => PICK_ARGUMENTS
    case Offer => OFFER_ARGUMENTS
  }

  function ResultKind(op: Op): Kind {
    match op
    case Models => MODELS_RESULT
    case Hosts => HOSTS_RESULT
    case Pick => PICK_RESULT_RECORD
    case Offer => OFFER_RESULT_RECORD
  }

  function MethodOp(name: bytes): Option<Op> {
    if name == Ascii("Models") then Some(Models)
    else if name == Ascii("Hosts") then Some(Hosts)
    else if name == Ascii("Pick") then Some(Pick)
    else if name == Ascii("Offer") then Some(Offer)
    else None
  }

  // ---- Errors ----

  /** A Go error: a reader's refusal, a dispatch error, a service error, or any other. */
  datatype Failure =
    | Refused(word: Word, at: nat)
    | Dispatch(what: bytes)
    | Service(code: bytes, message: bytes)
    | Other

  datatype Result<+T> = Good(value: T) | Bad(error: Failure)

  function WordText(w: Word): ascii {
    match w
    case Malformed => "malformed"
    case BadString => "bad_string"
    case NumberSpelling => "number_spelling"
    case WrongType => "wrong_type"
    case BadTimestamp => "bad_timestamp"
    case _ => RecordWordText(w)
  }

  /** The words only containers and records are refused with. */
  function RecordWordText(w: Word): ascii {
    match w
    case DepthExceeded => "depth_exceeded"
    case DuplicateKey => "duplicate_key"
    case DuplicateField => "duplicate_field"
    case UnknownField => "unknown_field"
    case MissingField => "missing_field"
    case BadEnum => "bad_enum"
    case TrailingBytes => "trailing_bytes"
    case _ => ""
  }

  const HANDLER_ERROR: bytes := Ascii("handler_error")
  const HANDLER_FAILED: bytes := Ascii("handler failed")
  const INVALID_RESULT: bytes := Ascii("invalid_result")
  const UNKNOWN_VERSION: bytes := Ascii("unknown_version")
  const UNKNOWN_SERVICE: bytes := Ascii("unknown_service")
  const UNKNOWN_METHOD: bytes := Ascii("unknown_method")
  const MISMATCHED_RESPONSE: bytes := Ascii("mismatched_response")
  const INVALID_ERROR: bytes := Ascii("invalid_error")

  // ---- Frames and replies ----

  datatype Frame = Frame(service: bytes, operation: bytes, arguments: bytes)

  function FrameValue(f: Frame): (v: Value)
    ensures Shaped(SERVICE_FRAME, v)
  {
    VRecord([VInt(1), VStr(f.service), VStr(f.operation), VRaw(f.arguments)])
  }

  function ReplyValue(f: Frame, ok: bool, payload: bytes): (v: Value)
    ensures Shaped(SERVICE_REPLY, v)
  {
    VRecord([VInt(1), VStr(f.service), VStr(f.operation), VBool(ok), VRaw(payload)])
  }

  function ErrorValue(code: bytes, message: bytes): (v: Value)
    ensures Shaped(SERVICE_ERROR, v)
  {
    VRecord([VStr(code), VStr(message)])
  }

  /** The text of a value whose encoder cannot panic. */
  function Text(e: Encoded): bytes {
    match e case Written(text) => text case Panic(_) => []
  }

  function FrameText(f: Frame): bytes {
    Text(Encode(SERVICE_FRAME, FrameValue(f), 0))
  }

  /** servicePayload: a frame read whole, of version 1. */
  function ServicePayload(frame: bytes): Result<Frame> {
    match DecodeText(SERVICE_FRAME, frame, 0)
    case Refuse(w, at) => Bad(Refused(w, at))
    case Ok(v, _) =>
      match v
      case VRecord(fs) =>
        if |fs| == 4 && fs[0].VInt? && fs[1].VStr? && fs[2].VStr? && fs[3].VRaw? then
          if fs[0].n != 1 then Bad(Dispatch(UNKNOWN_VERSION)) else Good(Frame(fs[1].s, fs[2].s, fs[3].text))
        else Bad(Other)
      case _ => Bad(Other)
  }

  /** serviceResponse: the payload of a reply to this call, or the error it carries. */
  function ServiceResponse(reply: bytes, service: bytes, operation: bytes): Result<bytes> {
    match DecodeText(SERVICE_REPLY, reply, 0)
    case Refuse(w, at) => Bad(Refused(w, at))
    case Ok(v, _) =>
      match v
      case VRecord(fs) =>
        if |fs| == 5 && fs[0].VInt? && fs[1].VStr? && fs[2].VStr? && fs[3].VBool? && fs[4].VRaw? then
          if fs[0].n != 1 then Bad(Dispatch(UNKNOWN_VERSION))
          else if fs[1].s != service || fs[2].s != operation then Bad(Dispatch(MISMATCHED_RESPONSE))
          else if fs[3].b then Good(fs[4].text)
          else Bad(ServiceFailure(fs[4].text))
        else Bad(Other)
      case _ => Bad(Other)
  }

  /** The error a failed reply's payload spells. */
  function ServiceFailure(payload: bytes): Failure {
    match DecodeText(SERVICE_ERROR, payload, 1)
    case Refuse(w, at) => Refused(w, at)
    case Ok(v, _) =>
      match v
      case VRecord(fs) =>
        if |fs| == 2 && fs[0].VStr? && fs[1].VStr? then
          if fs[0].s == [] then Dispatch(INVALID_ERROR) else Service(fs[0].s, fs[1].s)
        else Other
      case _ => Other
  }

  /** The code and message serviceReply gives an error. */
  function ErrorCode(e: Failure): bytes {
    match e
    case Service(code, _) => if code != [] then code else HANDLER_ERROR
    case Dispatch(what) => what
    case Refused(w, _) => Ascii(WordText(w))
    case Other => HANDLER_ERROR
  }

  function ErrorMessage(e: Failure): bytes {
    match e
    case Service(_, message) => message
    case Other => HANDLER_FAILED
    case _ => []
  }

  function ReplyText(f: Frame, outcome: Result<bytes>): bytes {
    match outcome
    case Good(payload) => Text(Encode(SERVICE_REPLY, ReplyValue(f, true, payload), 0))
    case Bad(e) =>
      var payload := Text(Encode(SERVICE_ERROR, ErrorValue(ErrorCode(e), ErrorMessage(e)), 1));
      Text(Encode(SERVICE_REPLY, ReplyValue(f, false, payload), 0))
  }

  /** serviceReply: the reply, checked by its own reader before it is sent. */
  function ServiceReply(f: Frame, outcome: Result<bytes>): Result<bytes> {
    var reply := ReplyText(f, outcome);
    match Decode(SERVICE_REPLY, reply, SkipWs(reply, 0), 0)
    case Refuse(w, at) => Bad(Refused(w, at))
    case Ok(_, _) => Good(reply)
  }

  // ---- The dispatcher ----

  /** What a handler does with a call: returns, fails, or panics (with a *Refusal or anything else). */
  datatype Handled = Returned(value: Value) | Failed(error: Failure) | Panicked(refusal: bool)

  type Handler = (Op, Value) -> Handled

  /** Every value a handler returns is one of the operation's own type. */
  ghost predicate WellTyped(h: Handler) {
    forall op: Op, v: Value :: h(op, v).Returned? ==> Shaped(ResultKind(op), VRecord([h(op, v).value]))
  }

  /** invokeX: the handler's result as a payload its own reader accepts. */
  function Invoke(op: Op, args: Value, h: Handler): Result<bytes>
    requires WellTyped(h)
  {
    match h(op, args)
    case Failed(e) => Bad(e)
    case Panicked(refusal) => Bad(if refusal then Service(INVALID_RESULT, []) else Service(HANDLER_ERROR, HANDLER_FAILED))
    case Returned(v) =>
      match Encode(ResultKind(op), VRecord([v]), 1)
      case Panic(_) => Bad(Service(INVALID_RESULT, []))
      case Written(payload) =>
        match DecodeText(ResultKind(op), payload, 1)
        case Refuse(_, _) => Bad(Service(INVALID_RESULT, []))
        case Ok(_, _) => Good(payload)
  }

  /** A reply, and the calls the handler saw. */
  datatype Exchange =
    | Answered(reply: Result<bytes>, calls: seq<(Op, Value)>)
    | Described(frame: Frame)

  /** ExchangeFrame. A frame for the endpoint contract is answered elsewhere. */
  function ExchangeFrame(frame: bytes, h: Handler): Exchange
    requires WellTyped(h)
  {
    match ServicePayload(frame)
    case Bad(e) => Answered(Bad(e), [])
    case Good(f) =>
      if f.service == ENDPOINT then Described(f)
      else if f.service != CONTRACT then Answered(ServiceReply(f, Bad(Dispatch(UNKNOWN_SERVICE))), [])
      else
        match MethodOp(f.operation)
        case None => Answered(ServiceReply(f, Bad(Dispatch(UNKNOWN_METHOD))), [])
        case Some(op) =>
          match DecodeText(ArgumentsKind(op), f.arguments, 1)
          case Refuse(w, at) => Answered(ServiceReply(f, Bad(Refused(w, at))), [])
          case Ok(args, _) => Answered(ServiceReply(f, Invoke(op, args, h)), [(op, args)])
  }

  // ---- The client ----

  /** What the caller gets back, and the calls the handler saw. */
  datatype Outcome = Outcome(result: Result<Value>, calls: seq<(Op, Value)>)

  /** A client method, its transport being the dispatcher over h. */
  function Call(op: Op, args: Value, h: Handler): Outcome
    requires Shaped(ArgumentsKind(op), args) && WellTyped(h)
  {
    match Encode(ArgumentsKind(op), args, 1)
    case Panic(w) => Outcome(Bad(Refused(w, 0)), [])
    case Written(text) =>
      var f := Frame(CONTRACT, Ascii(MethodName(op)), text);
      match ServicePayload(FrameText(f))
      case Bad(e) => Outcome(Bad(e), [])
      case Good(_) =>
        match ExchangeFrame(FrameText(f), h)
        case Described(_) => Outcome(Bad(Other), [])
        case Answered(Bad(e), calls) => Outcome(Bad(e), calls)
        case Answered(Good(reply), calls) => Outcome(Received(op, f, reply), calls)
  }

  /** What the client makes of a reply. */
  function Received(op: Op, f: Frame, reply: bytes): Result<Value> {
    match ServiceResponse(reply, f.service, f.operation)
    case Bad(e) => Bad(e)
    case Good(payload) =>
      match DecodeText(ResultKind(op), payload, 1)
      case Refuse(w, at) => Bad(Refused(w, at))
      case Ok(v, _) => if v.VRecord? && |v.fields| == 1 then Good(v.fields[0]) else Bad(Other)
  }

  // ---- A raw value inside a frame ----

  /** Two trees printing one text are carried alike. */
  lemma CarriedByText(s: Json, t: Json, depth: nat)
    requires Syntax(s) && Syntax(t) && Print(s) == Print(t)
    ensures Carried(s, depth) <==> Carried(t, depth)
  {
    hide Carried, Syntax, Print, Skip;
    var buf := Print(s);
    HasAtSlice(buf, 0, |buf|);
    assert buf[0..|buf|] == buf;
    SkipRead(s, buf, 0, depth);
    SkipRead(t, buf, 0, depth);
  }

  /** The text of an encoded value, embedded raw, is carried exactly when the value would be read back. */
  lemma RawOfWritten(k: Kind, v: Value, depth: nat)
    requires Printable(k, v) && Encode(k, v, 1).Written?
    ensures IsRaw(Encode(k, v, 1).text)
    ensures Carried(RawTree(Encode(k, v, 1).text), depth) <==> Acceptable(k, v, depth)
  {
    hide Carried, Syntax, Print, TreeOf, Acceptable, Encode, Writable, Embeds, WellFormed;
    EncodePrints(k, v, 1);
    TreeCarried(k, v, 1, depth);
    CarriedByText(RawTree(Encode(k, v, 1).text), TreeOf(k, v, 1), depth);
  }

  /** A record whose fields are all written and all plain. */
  predicate Flat(k: Kind) {
    && k.KRecord?
    && forall i :: 0 <= i < |k.fields| ==>
         k.fields[i].omit.Never? && (k.fields[i].kind.KStr? || k.fields[i].kind.KBool? || k.fields[i].kind.KInt? || k.fields[i].kind.KRaw?)
  }

  ghost predicate FlatAcceptable(x: Value) {
    match x
    case VStr(s) => ValidUtf8(s)
    case VRaw(text) => Carried(RawTree(text), 1)
    case _ => true
  }

  lemma FlatRecord(k: Kind, v: Value)
    requires Flat(k) && Shaped(k, v)
    ensures Timeless(k) && Writable(k, v)
    ensures Embeds(k, v) <==> forall i :: 0 <= i < |v.fields| && v.fields[i].VRaw? ==> IsRaw(v.fields[i].text)
    ensures Acceptable(k, v, 0) <==> forall i :: 0 <= i < |v.fields| ==> FlatAcceptable(v.fields[i])
  {
    hide Carried, ValidUtf8, IsRaw, RawTree;
    forall i | 0 <= i < |v.fields|
      ensures Timeless(k.fields[i].kind)
      ensures FieldShaped(k, i, v.fields[i]) && FieldWritable(k, i, v.fields[i])
      ensures FieldEmbeds(k, i, v.fields[i]) <==> (v.fields[i].VRaw? ==> IsRaw(v.fields[i].text))
      ensures FieldAcceptable(k, i, v.fields[i], 1) <==> FlatAcceptable(v.fields[i])
    {
      assert FieldShaped(k, i, v.fields[i]);
    }
  }

  lemma FrameShape(f: Frame)
    ensures WellFormed(SERVICE_FRAME) && Timeless(SERVICE_FRAME)
    ensures Shaped(SERVICE_FRAME, FrameValue(f)) && Writable(SERVICE_FRAME, FrameValue(f))
    ensures IsRaw(f.arguments) ==> Embeds(SERVICE_FRAME, FrameValue(f))
    ensures Acceptable(SERVICE_FRAME, FrameValue(f), 0) <==>
            ValidUtf8(f.service) && ValidUtf8(f.operation) && Carried(RawTree(f.arguments), 1)
  {
    hide Carried, ValidUtf8, IsRaw, RawTree, Timeless, Writable, Embeds, Acceptable, WellFormed;
    ServiceFrameSound();
    FlatRecord(SERVICE_FRAME, FrameValue(f));
    FrameFields(f);
  }

  lemma FrameFields(f: Frame)
    ensures var vs := FrameValue(f).fields;
            (forall i :: 0 <= i < |vs| ==> FlatAcceptable(vs[i])) <==>
            ValidUtf8(f.service) && ValidUtf8(f.operation) && Carried(RawTree(f.arguments), 1)
  {
    hide Carried, ValidUtf8, RawTree;
    var vs := FrameValue(f).fields;
    assert FlatAcceptable(vs[0]);
    assert FlatAcceptable(vs[1]) == ValidUtf8(f.service) && FlatAcceptable(vs[2]) == ValidUtf8(f.operation);
    assert FlatAcceptable(vs[3]) == Carried(RawTree(f.arguments), 1);
  }

  lemma ReplyShape(f: Frame, ok: bool, payload: bytes)
    ensures WellFormed(SERVICE_REPLY) && Timeless(SERVICE_REPLY)
    ensures Shaped(SERVICE_REPLY, ReplyValue(f, ok, payload)) && Writable(SERVICE_REPLY, ReplyValue(f, ok, payload))
    ensures IsRaw(payload) ==> Embeds(SERVICE_REPLY, ReplyValue(f, ok, payload))
    ensures Acceptable(SERVICE_REPLY, ReplyValue(f, ok, payload), 0) <==>
            ValidUtf8(f.service) && ValidUtf8(f.operation) && Carried(RawTree(payload), 1)
  {
    hide Carried, ValidUtf8, IsRaw, RawTree, Timeless, Writable, Embeds, Acceptable, WellFormed;
    ServiceReplySound();
    FlatRecord(SERVICE_REPLY, ReplyValue(f, ok, payload));
    ReplyFields(f, ok, payload);
  }

  lemma ReplyFields(f: Frame, ok: bool, payload: bytes)
    ensures var vs := ReplyValue(f, ok, payload).fields;
            (forall i :: 0 <= i < |vs| ==> FlatAcceptable(vs[i])) <==>
            ValidUtf8(f.service) && ValidUtf8(f.operation) && Carried(RawTree(payload), 1)
  {
    hide Carried, ValidUtf8, RawTree;
    var vs := ReplyValue(f, ok, payload).fields;
    assert FlatAcceptable(vs[0]) && FlatAcceptable(vs[3]);
    assert FlatAcceptable(vs[1]) == ValidUtf8(f.service) && FlatAcceptable(vs[2]) == ValidUtf8(f.operation);
    assert FlatAcceptable(vs[4]) == Carried(RawTree(payload), 1);
  }

  lemma ErrorShape(code: bytes, message: bytes)
    ensures WellFormed(SERVICE_ERROR) && Timeless(SERVICE_ERROR)
    ensures Shaped(SERVICE_ERROR, ErrorValue(code, message)) && Writable(SERVICE_ERROR, ErrorValue(code, message))
    ensures Embeds(SERVICE_ERROR, ErrorValue(code, message))
    ensures Acceptable(SERVICE_ERROR, ErrorValue(code, message), 1) <==> ValidUtf8(code) && ValidUtf8(message)
  {
    hide ValidUtf8;
    ServiceErrorSound(1);
    FlatRecord(SERVICE_ERROR, ErrorValue(code, message));
    var k, v := SERVICE_ERROR, ErrorValue(code, message);
    assert FieldShaped(k, 0, v.fields[0]) && FieldShaped(k, 1, v.fields[1]);
    assert FieldAcceptable(k, 0, v.fields[0], 2) <==> ValidUtf8(code);
    assert FieldAcceptable(k, 1, v.fields[1], 2) <==> ValidUtf8(message);
  }

  /** A timeless value written with nothing after it. */
  lemma WholeText(k: Kind, v: Value, indent: nat, depth: nat)
    requires Printable(k, v) && Timeless(k)
    ensures Encode(k, v, indent).Written?
    ensures var text := Encode(k, v, indent).text;
            if Acceptable(k, v, depth) then DecodeText(k, text, depth) == Parsed.Ok(v, |text|)
            else Rejects(k, text, depth)
  {
    hide Encode, Acceptable, DecodeText, Rejects, WellFormed, Shaped, Embeds, Writable, Timeless, Norm;
    assert AllSpace([]);
    EncodeDecode(k, v, indent, depth, []);
    TimelessUnchanged(k, v);
    assert Encode(k, v, indent).text + [] == Encode(k, v, indent).text;
  }

  /** A frame is read back exactly when its names are UTF-8 and its arguments are carried one level down. */
  lemma FrameRead(f: Frame)
    requires IsRaw(f.arguments)
    ensures if ValidUtf8(f.service) && ValidUtf8(f.operation) && Carried(RawTree(f.arguments), 1)
            then ServicePayload(FrameText(f)) == Good(f)
            else ServicePayload(FrameText(f)).Bad? && ServicePayload(FrameText(f)).error.Refused?
  {
    hide Carried, ValidUtf8, Encode, DecodeText, IsRaw, WellFormed, Timeless, Writable, Embeds, Acceptable, Shaped;
    FrameShape(f);
    WholeText(SERVICE_FRAME, FrameValue(f), 0, 0);
  }

  /** A reply is sent exactly when its names are UTF-8 and its payload is carried, and then says what it was given. */
  lemma ReplyRead(f: Frame, ok: bool, payload: bytes)
    requires IsRaw(payload) && ValidUtf8(f.service) && ValidUtf8(f.operation)
    ensures var reply := Text(Encode(SERVICE_REPLY, ReplyValue(f, ok, payload), 0));
            if Carried(RawTree(payload), 1)
            then DecodeText(SERVICE_REPLY, reply, 0) == Parsed.Ok(ReplyValue(f, ok, payload), |reply|)
            else Rejects(SERVICE_REPLY, reply, 0)
  {
    hide Carried, ValidUtf8, IsRaw, WellFormed, Timeless, Embeds, Acceptable, Shaped, DecodeText, Rejects, Encode;
    ReplyShape(f, ok, payload);
    WholeText(SERVICE_REPLY, ReplyValue(f, ok, payload), 0, 0);
  }

  lemma SuccessCrosses(f: Frame, payload: bytes)
    requires IsRaw(payload) && Carried(RawTree(payload), 1) && ValidUtf8(f.service) && ValidUtf8(f.operation)
    ensures var reply := ServiceReply(f, Good(payload));
            reply.Good? && ServiceResponse(reply.value, f.service, f.operation) == Good(payload)
  {
    hide Carried, ValidUtf8, IsRaw, RawTree, Shaped, Decode, Encode;
    ReplyRead(f, true, payload);
  }

  /** What a caller sees of an error. */
  function Seen(e: Failure): Failure {
    if ErrorCode(e) == [] then Dispatch(INVALID_ERROR) else Service(ErrorCode(e), ErrorMessage(e))
  }

  lemma FailureCrosses(f: Frame, e: Failure)
    requires ValidUtf8(f.service) && ValidUtf8(f.operation)
    ensures var reply := ServiceReply(f, Bad(e));
            if ValidUtf8(ErrorCode(e)) && ValidUtf8(ErrorMessage(e))
            then reply.Good? && ServiceResponse(reply.value, f.service, f.operation) == Bad(Seen(e))
            else reply.Bad? && reply.error.Refused?
  {
    hide Carried, ValidUtf8, IsRaw, RawTree, Shaped, Decode, Encode, Embeds, Writable, WellFormed, Timeless, Acceptable, ErrorCode, ErrorMessage;
    var code, message := ErrorCode(e), ErrorMessage(e);
    ErrorShape(code, message);
    WholeText(SERVICE_ERROR, ErrorValue(code, message), 1, 1);
    RawOfWritten(SERVICE_ERROR, ErrorValue(code, message), 1);
    var payload := Text(Encode(SERVICE_ERROR, ErrorValue(code, message), 1));
    ReplyRead(f, false, payload);
  }

  // ---- Both sides together ----

  lemma ArgumentsSound(op: Op)
    ensures WellFormed(ArgumentsKind(op)) && Fits(ArgumentsKind(op), 1) && Timeless(ArgumentsKind(op))
  {
    hide WellFormed, Fits, Timeless;
    ModelsArgumentsSound(1);
    HostsArgumentsSound(1);
    PickArgumentsSound(1);
    OfferArgumentsSound(1);
  }

  lemma ResultSound(op: Op)
    ensures WellFormed(ResultKind(op)) && Fits(ResultKind(op), 1)
  {
    hide WellFormed, Fits, Timeless;
    ModelsResultSound(1);
    HostsResultSound(1);
    PickResultRecordSound(1);
    OfferResultRecordSound(1);
  }

  lemma NamesRead(op: Op)
    ensures MethodOp(Ascii(MethodName(op))) == Some(op)
    ensures ValidUtf8(Ascii(MethodName(op)))
  {
    AsciiValid(MethodName(op));
    assert |Ascii("Models")| == 6 && |Ascii("Hosts")| == 5 && |Ascii("Pick")| == 4;
    assert Ascii("Hosts")[0] == 'H' as int && Ascii("Offer")[0] == 'O' as int;
  }

  lemma ContractRead()
    ensures ValidUtf8(CONTRACT) && CONTRACT != ENDPOINT
  {
    AsciiValid("abstraction.router/router@1");
    assert |CONTRACT| != |ENDPOINT|;
  }

  lemma OwnWordsAreUtf8()
    ensures ValidUtf8(INVALID_RESULT) && ValidUtf8(HANDLER_ERROR) && ValidUtf8(HANDLER_FAILED) && ValidUtf8([])
  {
    AsciiValid("invalid_result");
    AsciiValid("handler_error");
    AsciiValid("handler failed");
  }

  /** Written arguments: the frame carrying them, the handler reading them. */
  lemma ArgumentsCross(op: Op, args: Value)
    requires Shaped(ArgumentsKind(op), args) && Writable(ArgumentsKind(op), args)
    ensures Encode(ArgumentsKind(op), args, 1).Written?
    ensures var text := Encode(ArgumentsKind(op), args, 1).text;
            var f := Frame(CONTRACT, Ascii(MethodName(op)), text);
            if AllUtf8(ArgumentsKind(op), args)
            then ServicePayload(FrameText(f)) == Good(f) && DecodeText(ArgumentsKind(op), text, 1) == Parsed.Ok(args, |text|)
            else ServicePayload(FrameText(f)).Bad? && ServicePayload(FrameText(f)).error.Refused?
  {
    hide Carried, ValidUtf8, IsRaw, RawTree, Encode, DecodeText, Rejects, WellFormed, Timeless, Writable, Embeds, Acceptable, Fits, AllUtf8;
    hide ArgumentsKind, ServicePayload, FrameText, CONTRACT, ENDPOINT;
    var k := ArgumentsKind(op);
    ArgumentsSound(op);
    NamesRead(op);
    ContractRead();
    FittingIsUtf8(k, args, 1);
    WholeText(k, args, 1, 1);
    RawOfWritten(k, args, 1);
    FrameRead(Frame(CONTRACT, Ascii(MethodName(op)), Encode(k, args, 1).text));
  }

  /** The caller's view of a handled call, with no frame in sight. */
  ghost predicate SeenByCaller(op: Op, handled: Handled, result: Result<Value>)
    requires handled.Returned? ==> Shaped(ResultKind(op), VRecord([handled.value]))
  {
    match handled
    case Returned(value) =>
      var k, record := ResultKind(op), VRecord([value]);
      result == if Writable(k, record) && AllUtf8(k, record) then Good(Norm(k, record).fields[0]) else Bad(Service(INVALID_RESULT, []))
    case Failed(e) =>
      if ValidUtf8(ErrorCode(e)) && ValidUtf8(ErrorMessage(e)) then result == Bad(Seen(e))
      else result.Bad? && result.error.Refused?
    case Panicked(refusal) =>
      result == Bad(if refusal then Service(INVALID_RESULT, []) else Service(HANDLER_ERROR, HANDLER_FAILED))
  }

  /** A handler's result as a payload: there exactly when it encodes and its strings are UTF-8. */
  lemma ResultCrosses(op: Op, args: Value, h: Handler)
    requires WellTyped(h) && h(op, args).Returned?
    ensures Shaped(ResultKind(op), VRecord([h(op, args).value]))
    ensures var k, record := ResultKind(op), VRecord([h(op, args).value]);
            if Writable(k, record) && AllUtf8(k, record)
            then && Invoke(op, args, h).Good?
                 && var payload := Invoke(op, args, h).value;
                    && IsRaw(payload) && Carried(RawTree(payload), 1)
                    && DecodeText(k, payload, 1) == Parsed.Ok(Norm(k, record), |payload|)
            else Invoke(op, args, h) == Bad(Service(INVALID_RESULT, []))
  {
    hide Carried, ValidUtf8, IsRaw, RawTree, Encode, DecodeText, Decode, WellFormed, Timeless, Writable, Embeds, Acceptable, Fits, AllUtf8, Norm;
    hide ResultKind, Shaped;
    var k, record := ResultKind(op), VRecord([h(op, args).value]);
    ResultSound(op);
    FittingIsUtf8(k, record, 1);
    EncodeDecode(k, record, 1, 1, []);
    if Writable(k, record) {
      RawOfWritten(k, record, 1);
      assert Encode(k, record, 1).text + [] == Encode(k, record, 1).text;
    } else {
      EncodePanics(k, record, 1);
    }
  }

  /** The reply to a handled call, as the caller reads it. */
  lemma ReplyCrosses(op: Op, args: Value, h: Handler, f: Frame)
    requires WellTyped(h) && ValidUtf8(f.service) && ValidUtf8(f.operation)
    ensures h(op, args).Returned? ==> Shaped(ResultKind(op), VRecord([h(op, args).value]))
    ensures match ServiceReply(f, Invoke(op, args, h))
            case Good(reply) => SeenByCaller(op, h(op, args), Received(op, f, reply))
            case Bad(e) => SeenByCaller(op, h(op, args), Bad(e))
  {
    hide Carried, ValidUtf8, IsRaw, RawTree, Encode, DecodeText, ServiceReply, ServiceResponse, WellFormed, Writable, AllUtf8, ResultKind;
    OwnWordsAreUtf8();
    match h(op, args)
    case Returned(value) =>
      ResultCrosses(op, args, h);
      if Invoke(op, args, h).Good? {
        SuccessCrosses(f, Invoke(op, args, h).value);
      } else {
        FailureCrosses(f, Service(INVALID_RESULT, []));
      }
    case Failed(e) =>
      FailureCrosses(f, e);
    case Panicked(refusal) =>
      FailureCrosses(f, if refusal then Service(INVALID_RESULT, []) else Service(HANDLER_ERROR, HANDLER_FAILED));
  }

  /**
   A call, end to end. The client refuses the arguments before any frame is sent
   exactly when an enum is no member, a timestamp names no time, or a string is
   not UTF-8. Otherwise the handler is called once, with those very arguments,
   and the caller sees its outcome.
   */
  lemma EndToEnd(op: Op, args: Value, h: Handler)
    requires Shaped(ArgumentsKind(op), args) && WellTyped(h)
    ensures var outcome := Call(op, args, h);
            if !Writable(ArgumentsKind(op), args) || !AllUtf8(ArgumentsKind(op), args)
            then outcome.calls == [] && outcome.result.Bad? && outcome.result.error.Refused?
            else && outcome.calls == [(op, args)]
                 && (h(op, args).Returned? ==> Shaped(ResultKind(op), VRecord([h(op, args).value])))
                 && SeenByCaller(op, h(op, args), outcome.result)
  {
    hide ValidUtf8, Encode, DecodeText, ServiceReply, ServicePayload, FrameText, Received, Invoke, Writable, AllUtf8, ArgumentsKind, ResultKind;
    hide Shaped, SeenByCaller, MethodOp, MethodName;
    var k := ArgumentsKind(op);
    ArgumentsSound(op);
    if !Writable(k, args) {
      EncodePanics(k, args, 1);
    } else {
      ArgumentsCross(op, args);
      NamesRead(op);
      ContractRead();
      ReplyCrosses(op, args, h, Frame(CONTRACT, Ascii(MethodName(op)), Encode(k, args, 1).text));
    }
  }

  /** Models, Pick and Offer bring the handler's own value back, unchanged; Hosts brings it back with its times normalised. */
  lemma AnsweredUnchanged(op: Op, args: Value, h: Handler)
    requires !op.Hosts? && Shaped(ArgumentsKind(op), args) && WellTyped(h)
    requires Writable(ArgumentsKind(op), args) && AllUtf8(ArgumentsKind(op), args)
    requires h(op, args).Returned?
    ensures var record := VRecord([h(op, args).value]);
            && Shaped(ResultKind(op), record)
            && (Writable(ResultKind(op), record) && AllUtf8(ResultKind(op), record) ==>
                Call(op, args, h).result == Good(h(op, args).value))
  {
    hide Call, Writable, AllUtf8, ArgumentsKind, Shaped, Norm, Timeless, Fits, WellFormed;
    EndToEnd(op, args, h);
    ModelsResultSound(1);
    PickResultRecordSound(1);
    OfferResultRecordSound(1);
    TimelessUnchanged(ResultKind(op), VRecord([h(op, args).value]));
  }
}
