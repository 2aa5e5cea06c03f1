/**
 How a call that fails ends: the error each kind of failure becomes for the
 caller, in the words that stand on the wire.
 */
module Failures {
  import opened Basics
  import opened Bytes
  import opened Utf8
  import opened Scan
  import opened Grammar
  import opened Skipper
  import opened Schema
  import opened Decoding
  import opened Encoding
  import opened RoundTrip
  import opened Records
  import opened Rpc

  /** Arguments a client sends: of the operation's type, encodable, and all of it UTF-8. */
  ghost predicate Reaches(op: Op, args: Value) {
    Shaped(ArgumentsKind(op), args) && Writable(ArgumentsKind(op), args) && AllUtf8(ArgumentsKind(op), args)
  }

  /** The call reached the handler once, as it was made. */
  ghost predicate Delivered(op: Op, args: Value, h: Handler)
    requires Shaped(ArgumentsKind(op), args) && WellTyped(h)
  {
    Call(op, args, h).calls == [(op, args)]
  }

  /** The caller gets a service error of this code. */
  ghost predicate Told<T>(result: Result<T>, code: string, message: bytes) {
    && result.Bad? && result.error.Service?
    && Spells(result.error.code, code) && result.error.message == message
  }

  /** The reply is refused on its way out. */
  ghost predicate Untold<T>(result: Result<T>) {
    result.Bad? && result.error.Refused?
  }

  lemma OwnWordsSpelled()
    ensures Spells(HANDLER_ERROR, "handler_error") && Spells(HANDLER_FAILED, "handler failed")
    ensures Spells(INVALID_RESULT, "invalid_result") && Spells(INVALID_ERROR, "invalid_error")
  {
  }

  /** A service error keeps its code and its message; one with no code is a handler error with its message. */
  lemma ServiceErrorCrosses(op: Op, args: Value, h: Handler, code: bytes, message: bytes)
    requires WellTyped(h) && Reaches(op, args) && h(op, args) == Failed(Service(code, message))
    ensures Delivered(op, args, h)
    ensures ValidUtf8(code) && ValidUtf8(message) && code != [] ==> Call(op, args, h).result == Bad(Service(code, message))
    ensures ValidUtf8(message) && code == [] ==> Told(Call(op, args, h).result, "handler_error", message)
    ensures !ValidUtf8(code) || !ValidUtf8(message) ==> Untold(Call(op, args, h).result)
  {
    hide Call, Shaped, Writable, AllUtf8, ValidUtf8, ArgumentsKind, ResultKind, Spells, HANDLER_ERROR, HANDLER_FAILED, INVALID_RESULT, INVALID_ERROR;
    EndToEnd(op, args, h);
    OwnWordsAreUtf8();
    OwnWordsSpelled();
    SpelledSize(HANDLER_ERROR, "handler_error");
  }

  /** A dispatch error's word becomes the code; one without a word cannot be told. */
  lemma DispatchErrorCrosses(op: Op, args: Value, h: Handler, what: bytes)
    requires WellTyped(h) && Reaches(op, args) && h(op, args) == Failed(Dispatch(what))
    ensures Delivered(op, args, h)
    ensures ValidUtf8(what) && what != [] ==> Call(op, args, h).result == Bad(Service(what, []))
    ensures what == [] ==>
              var r := Call(op, args, h).result; r.Bad? && r.error.Dispatch? && Spells(r.error.what, "invalid_error")
    ensures !ValidUtf8(what) ==> Untold(Call(op, args, h).result)
  {
    hide Call, Shaped, Writable, AllUtf8, ValidUtf8, ArgumentsKind, ResultKind, Spells, HANDLER_ERROR, HANDLER_FAILED, INVALID_RESULT, INVALID_ERROR;
    EndToEnd(op, args, h);
    OwnWordsAreUtf8();
    OwnWordsSpelled();
  }

  /** Any other error is a handler error that says nothing more, and so is a panic that is no refusal. */
  lemma OtherErrorsCross(op: Op, args: Value, h: Handler)
    requires WellTyped(h) && Reaches(op, args)
    ensures Delivered(op, args, h)
    ensures h(op, args) == Failed(Other) || h(op, args) == Panicked(false) ==>
              Told(Call(op, args, h).result, "handler_error", HANDLER_FAILED) && Spells(HANDLER_FAILED, "handler failed")
    ensures h(op, args) == Panicked(true) ==> Told(Call(op, args, h).result, "invalid_result", [])
  {
    hide Call, Shaped, Writable, AllUtf8, ValidUtf8, ArgumentsKind, ResultKind, Spells, HANDLER_ERROR, HANDLER_FAILED, INVALID_RESULT, INVALID_ERROR;
    EndToEnd(op, args, h);
    OwnWordsAreUtf8();
    OwnWordsSpelled();
    SpelledSize(HANDLER_ERROR, "handler_error");
  }

  /** The twelve refusals and the word each is told by. */
  const REFUSALS: map<Word, string> := map[
    Malformed := "malformed",
    BadString := "bad_string",
    NumberSpelling := "number_spelling",
    WrongType := "wrong_type",
    BadTimestamp := "bad_timestamp",
    DepthExceeded := "depth_exceeded",
    DuplicateKey := "duplicate_key",
    DuplicateField := "duplicate_field",
    UnknownField := "unknown_field",
    MissingField := "missing_field",
    BadEnum := "bad_enum",
    TrailingBytes := "trailing_bytes"]

  lemma WordSpelled(w: Word)
    ensures w in REFUSALS && WordText(w) == REFUSALS[w] && |WordText(w)| > 0
  {
    hide IsAscii, Ascii;
  }

  lemma AsciiSpells(word: ascii)
    ensures Spells(Ascii(word), word) && ValidUtf8(Ascii(word))
  {
    hide ValidUtf8;
    AsciiValid(word);
  }

  /** A refusal's word becomes the code; the offset it names stays behind. */
  lemma RefusalCrosses(op: Op, args: Value, h: Handler, w: Word, at: nat)
    requires WellTyped(h) && Reaches(op, args) && h(op, args) == Failed(Refused(w, at))
    ensures Delivered(op, args, h)
    ensures w in REFUSALS && Told(Call(op, args, h).result, REFUSALS[w], [])
  {
    hide Call, Shaped, Writable, AllUtf8, ValidUtf8, ArgumentsKind, ResultKind, WordText, Spells, REFUSALS;
    EndToEnd(op, args, h);
    OwnWordsAreUtf8();
    WordSpelled(w);
    AsciiSpells(WordText(w));
    SpelledSize(Ascii(WordText(w)), WordText(w));
  }

  // ---- What the dispatcher answers by itself ----

  /** A frame the dispatcher can read. */
  ghost predicate Legible(f: Frame) {
    ValidUtf8(f.service) && ValidUtf8(f.operation) && IsRaw(f.arguments) && Carried(RawTree(f.arguments), 1)
  }

  /** The dispatcher's own answer to a frame: no call is made, and the caller is told the code. */
  ghost predicate Dismissed(f: Frame, e: Exchange, code: string) {
    && e.Answered? && e.calls == [] && e.reply.Good?
    && Told(ServiceResponse(e.reply.value, f.service, f.operation), code, [])
  }

  lemma ReplyTold(f: Frame, what: bytes, word: string)
    requires ValidUtf8(f.service) && ValidUtf8(f.operation) && ValidUtf8(what) && Spells(what, word) && |word| > 0
    ensures var reply := ServiceReply(f, Bad(Dispatch(what)));
            reply.Good? && Told(ServiceResponse(reply.value, f.service, f.operation), word, [])
  {
    hide ValidUtf8, ServiceReply, ServiceResponse;
    OwnWordsAreUtf8();
    FailureCrosses(f, Dispatch(what));
  }

  lemma DispatchWordsSpelled()
    ensures Spells(UNKNOWN_SERVICE, "unknown_service") && ValidUtf8(UNKNOWN_SERVICE)
    ensures Spells(UNKNOWN_METHOD, "unknown_method") && ValidUtf8(UNKNOWN_METHOD)
  {
    hide ValidUtf8;
    AsciiValid("unknown_service");
    AsciiValid("unknown_method");
  }

  lemma ContractsSpelled()
    ensures Spells(CONTRACT, "abstraction.router/router@1") && Spells(ENDPOINT, "abstraction.facade/endpoint@1")
  {
  }

  /** The name each operation is called by on the wire. */
  function OperationName(op: Op): string {
    match op
    case Models => "Models"
    case Hosts => "Hosts"
    case Pick => "Pick"
    case Offer => "Offer"
  }

  lemma OperationSpelled(name: bytes, op: Op)
    ensures Spells(name, OperationName(op)) <==> MethodOp(name) == Some(op)
  {
    hide Spells, MethodOp;
    NamesRead(op);
    NameIsSpelled(op);
    SpelledOnce(Ascii(MethodName(op)), name, OperationName(op));
    MethodOpGives(name);
  }

  lemma NameIsSpelled(op: Op)
    ensures Spells(Ascii(MethodName(op)), OperationName(op))
  {
  }

  lemma MethodOpGives(name: bytes)
    ensures MethodOp(name).Some? ==> name == Ascii(MethodName(MethodOp(name).value))
  {
  }

  /**
   What the dispatcher answers a readable frame: it describes itself under the
   endpoint contract, knows no other service than the router's and no other
   operation than the four, and tells a refusal of the arguments by its word.
   */
  lemma DispatchedExactly(f: Frame, h: Handler)
    requires Legible(f) && WellTyped(h)
    ensures var e := ExchangeFrame(FrameText(f), h);
            && (Spells(f.service, "abstraction.facade/endpoint@1") ==> e == Described(f))
            && (!Spells(f.service, "abstraction.facade/endpoint@1") && !Spells(f.service, "abstraction.router/router@1") ==>
                Dismissed(f, e, "unknown_service"))
            && (Spells(f.service, "abstraction.router/router@1") && (forall op :: !Spells(f.operation, OperationName(op))) ==>
                Dismissed(f, e, "unknown_method"))
  {
    hide ExchangeFrame, FrameText, Spells, OperationName, ServiceReply, ServiceResponse, ValidUtf8, IsRaw, Carried, MethodOp, CONTRACT, ENDPOINT;
    hide UNKNOWN_SERVICE, UNKNOWN_METHOD;
    FrameRead(f);
    Exchanged(f, h);
    ContractsSpelled();
    SpelledOnce(CONTRACT, f.service, "abstraction.router/router@1");
    SpelledOnce(ENDPOINT, f.service, "abstraction.facade/endpoint@1");
    ContractRead();
    DispatchWordsSpelled();
    ReplyTold(f, UNKNOWN_SERVICE, "unknown_service");
    ReplyTold(f, UNKNOWN_METHOD, "unknown_method");
    if MethodOp(f.operation).Some? {
      OperationSpelled(f.operation, MethodOp(f.operation).value);
    }
  }

  /** A frame read, then dispatched. */
  lemma Exchanged(f: Frame, h: Handler)
    requires WellTyped(h) && ServicePayload(FrameText(f)) == Good(f)
    ensures f.service == ENDPOINT ==> ExchangeFrame(FrameText(f), h) == Described(f)
    ensures f.service != ENDPOINT && f.service != CONTRACT ==>
              ExchangeFrame(FrameText(f), h) == Answered(ServiceReply(f, Bad(Dispatch(UNKNOWN_SERVICE))), [])
    ensures f.service != ENDPOINT && f.service == CONTRACT && MethodOp(f.operation).None? ==>
              ExchangeFrame(FrameText(f), h) == Answered(ServiceReply(f, Bad(Dispatch(UNKNOWN_METHOD))), [])
    ensures f.service != ENDPOINT && f.service == CONTRACT && MethodOp(f.operation).Some? ==>
              forall w: Word, at: nat :: DecodeText(ArgumentsKind(MethodOp(f.operation).value), f.arguments, 1) == Parsed.Refuse(w, at) ==>
                ExchangeFrame(FrameText(f), h) == Answered(ServiceReply(f, Bad(Refused(w, at))), [])
  {
    hide FrameText, ServicePayload, ServiceReply, MethodOp, DecodeText, CONTRACT, ENDPOINT, UNKNOWN_SERVICE, UNKNOWN_METHOD, ArgumentsKind;
  }

  /** Arguments that cannot be read never reach the handler, and the caller is told why. */
  lemma ArgumentsRefused(f: Frame, op: Op, h: Handler, w: Word, at: nat)
    requires Legible(f) && WellTyped(h)
    requires Spells(f.service, "abstraction.router/router@1") && Spells(f.operation, OperationName(op))
    requires DecodeText(ArgumentsKind(op), f.arguments, 1) == Parsed.Refuse(w, at)
    ensures w in REFUSALS && Dismissed(f, ExchangeFrame(FrameText(f), h), REFUSALS[w])
  {
    hide ExchangeFrame, FrameText, Spells, OperationName, ServiceReply, ServiceResponse, ValidUtf8, IsRaw, Carried, MethodOp, CONTRACT, ENDPOINT;
    hide DecodeText, ArgumentsKind, WordText, REFUSALS;
    FrameRead(f);
    Exchanged(f, h);
    ContractsSpelled();
    SpelledOnce(CONTRACT, f.service, "abstraction.router/router@1");
    ContractRead();
    OperationSpelled(f.operation, op);
    WordSpelled(w);
    AsciiSpells(WordText(w));
    OwnWordsAreUtf8();
    SpelledSize(Ascii(WordText(w)), WordText(w));
    FailureCrosses(f, Refused(w, at));
  }

  // ---- Versions and correlation ----

  /** The dispatch error of this word. */
  ghost predicate DispatchError<T>(result: Result<T>, word: string) {
    result.Bad? && result.error.Dispatch? && Spells(result.error.what, word)
  }

  lemma VersionWordsSpelled()
    ensures Spells(UNKNOWN_VERSION, "unknown_version") && Spells(MISMATCHED_RESPONSE, "mismatched_response")
  {
  }

  lemma VersionShaped(f: Frame, version: int, payload: bytes)
    requires -0x8000_0000 <= version < 0x8000_0000
    ensures Shaped(SERVICE_FRAME, VRecord([VInt(version), VStr(f.service), VStr(f.operation), VRaw(f.arguments)]))
    ensures Shaped(SERVICE_REPLY, VRecord([VInt(version), VStr(f.service), VStr(f.operation), VBool(true), VRaw(payload)]))
  {
  }

  /** A frame of any version, and the one version that is read. */
  lemma VersionOneRead(f: Frame, version: int)
    requires Legible(f) && -0x8000_0000 <= version < 0x8000_0000
    ensures Shaped(SERVICE_FRAME, VRecord([VInt(version), VStr(f.service), VStr(f.operation), VRaw(f.arguments)]))
    ensures var v := VRecord([VInt(version), VStr(f.service), VStr(f.operation), VRaw(f.arguments)]);
            var r := ServicePayload(Rpc.Text(Encode(SERVICE_FRAME, v, 0)));
            if version == 1 then r == Good(f) else DispatchError(r, "unknown_version")
  {
    hide Spells, ValidUtf8, IsRaw, Carried, RawTree, Encode, DecodeText, WellFormed, Timeless, Writable, Embeds, Acceptable, Shaped;
    var v := VRecord([VInt(version), VStr(f.service), VStr(f.operation), VRaw(f.arguments)]);
    VersionWordsSpelled();
    VersionShaped(f, version, []);
    ServiceFrameSound();
    FlatRecord(SERVICE_FRAME, v);
    VersionFields(f, version);
    WholeText(SERVICE_FRAME, v, 0, 0);
  }

  lemma VersionFields(f: Frame, version: int)
    requires Legible(f)
    ensures var vs := VRecord([VInt(version), VStr(f.service), VStr(f.operation), VRaw(f.arguments)]).fields;
            (forall i :: 0 <= i < |vs| ==> FlatAcceptable(vs[i])) && (forall i :: 0 <= i < |vs| && vs[i].VRaw? ==> IsRaw(vs[i].text))
  {
    hide Carried, ValidUtf8, RawTree, IsRaw;
  }

  /** A reply of any version, and the one version that is read. */
  lemma ReplyVersionOneRead(f: Frame, version: int, payload: bytes)
    requires Legible(f.(arguments := payload)) && -0x8000_0000 <= version < 0x8000_0000
    ensures Shaped(SERVICE_REPLY, VRecord([VInt(version), VStr(f.service), VStr(f.operation), VBool(true), VRaw(payload)]))
    ensures var v := VRecord([VInt(version), VStr(f.service), VStr(f.operation), VBool(true), VRaw(payload)]);
            var r := ServiceResponse(Rpc.Text(Encode(SERVICE_REPLY, v, 0)), f.service, f.operation);
            if version == 1 then r == Good(payload) else DispatchError(r, "unknown_version")
  {
    hide Spells, ValidUtf8, IsRaw, Carried, RawTree, Encode, DecodeText, WellFormed, Timeless, Writable, Embeds, Acceptable, Shaped;
    var v := VRecord([VInt(version), VStr(f.service), VStr(f.operation), VBool(true), VRaw(payload)]);
    VersionWordsSpelled();
    VersionShaped(f, version, payload);
    ServiceReplySound();
    FlatRecord(SERVICE_REPLY, v);
    ReplyFields(f, version, payload);
    WholeText(SERVICE_REPLY, v, 0, 0);
  }

  lemma ReplyFields(f: Frame, version: int, payload: bytes)
    requires Legible(f.(arguments := payload))
    ensures var vs := VRecord([VInt(version), VStr(f.service), VStr(f.operation), VBool(true), VRaw(payload)]).fields;
            (forall i :: 0 <= i < |vs| ==> FlatAcceptable(vs[i])) && (forall i :: 0 <= i < |vs| && vs[i].VRaw? ==> IsRaw(vs[i].text))
  {
    hide Carried, ValidUtf8, RawTree, IsRaw;
  }

  /** A reply is taken for the answer to its own call and to no other. */
  lemma AnswersItsOwnCall(f: Frame, payload: bytes, service: bytes, operation: bytes)
    requires Legible(f) && Legible(f.(arguments := payload))
    ensures var reply := ServiceReply(f, Good(payload));
            && reply.Good?
            && var r := ServiceResponse(reply.value, service, operation);
               if service == f.service && operation == f.operation then r == Good(payload) else DispatchError(r, "mismatched_response")
  {
    hide Spells, ValidUtf8, IsRaw, Carried, RawTree, Shaped, Decode, Encode;
    VersionWordsSpelled();
    ReplyRead(f, true, payload);
  }
}
