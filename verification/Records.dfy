/** The records of the router's contract, as shapes. */
module Records {
  import opened Basics
  import opened Bytes
  import opened Scan
  import opened Schema
  import opened Encoding
  import opened RoundTrip

  const I64 := KInt(-TWO63, TWO63 - 1)
  const I32 := KInt(-0x8000_0000, 0x7fff_ffff)

  const PLACEMENT := KEnum(["local", "hosted", "any"])
  const OFFER_OUTCOME := KEnum(["offered", "invalid", "unavailable", "forbidden", "not_permitted"])

  const HOST_ALLOWANCE := KRecord([
    Field("hosts", KList(KStr), Never)], false)

  const PICK_REQUEST := KRecord([
    Field("model", KStr, Never),
    Field("fresh", KBool, Never),
    Field("allowed", HOST_ALLOWANCE, WhenAbsent),
    Field("profile", KStr, AtZero)], false)

  const CALLER := KRecord([
    Field("user_description", KStr, Never),
    Field("path_description", KStr, Never)], true)

  const OBSERVATION := KRecord([
    Field("caller", CALLER, Never),
    Field("took_ms", I64, Never),
    Field("cache_age_ms", I64, Never)], true)

  const ALIAS := KRecord([
    Field("host", KStr, Never),
    Field("name", KStr, Never),
    Field("resident", KBool, Never),
    Field("servable", KBool, Never),
    Field("hosted", KBool, AtZero),
    Field("profiles", KList(KStr), AtZero),
    Field("held_in", KList(KStr), AtZero),
    Field("context_length", I64, AtZero),
    Field("effective_context_length", I64, AtZero)], true)

  const COMPONENT := KRecord([
    Field("store", KStr, Never),
    Field("role", KStr, Never),
    Field("name", KStr, AtZero)], true)

  const FAMILY := KRecord([
    Field("family", KStr, Never),
    Field("names", KList(ALIAS), Never),
    Field("held_in", KList(KStr), AtZero),
    Field("family_source", KStr, AtZero),
    Field("components", KList(COMPONENT), AtZero)], true)

  const MODELS_SNAPSHOT := KRecord([
    Field("observation", OBSERVATION, Never),
    Field("models", KList(FAMILY), Never)], true)

  const HOST_STATE := KRecord([
    Field("host", KStr, Never),
    Field("base", KStr, Never),
    Field("up", KBool, Never),
    Field("why", KStr, Never),
    Field("installed", I64, Never),
    Field("resident", KList(KStr), Never),
    Field("servable", KBool, Never),
    Field("hosted", KBool, AtZero),
    Field("wire", KStr, AtZero),
    Field("credential", KStr, AtZero),
    Field("declared_by", KStr, AtZero),
    Field("profiles", KList(KStr), AtZero),
    Field("domain", KStr, AtZero),
    Field("availability_cause", KStr, WhenAbsent)], true)

  const ASK := KRecord([
    Field("at", KTime, Never),
    Field("caller", KStr, Never),
    Field("user", KStr, Never),
    Field("model", KStr, Never),
    Field("family", KStr, Never),
    Field("verdict", KStr, Never),
    Field("host", KStr, Never)], true)

  const HOSTS_SNAPSHOT := KRecord([
    Field("observation", OBSERVATION, Never),
    Field("hosts", KList(HOST_STATE), Never),
    Field("doubled", KList(KStr), Never),
    Field("asked", KList(ASK), Never)], true)

  const DECISION := KRecord([
    Field("asked", KStr, Never),
    Field("family", KStr, Never),
    Field("verdict", KStr, Never),
    Field("host", KStr, Never),
    Field("model", KStr, Never),
    Field("endpoint", KStr, Never),
    Field("installed_on", KList(KStr), Never),
    Field("authorised", HOST_ALLOWANCE, WhenAbsent),
    Field("withheld", KList(KStr), Never),
    Field("loads", I64, Never),
    Field("why", KStr, Never)], true)

  const PICK_RESULT := KRecord([
    Field("observation", OBSERVATION, Never),
    Field("decision", DECISION, Never)], true)

  const OFFER_REQUEST := KRecord([
    Field("profile", KStr, Never),
    Field("placement", PLACEMENT, Never),
    Field("reserve", I64, Never),
    Field("fresh", KBool, Never)], false)

  const OFFER := KRecord([
    Field("family", KStr, Never),
    Field("names", KList(KStr), Never),
    Field("servers", KList(KStr), Never),
    Field("context", I64, Never),
    Field("context_source", KStr, Never),
    Field("input", I64, Never),
    Field("unknown", KList(KStr), AtZero)], true)

  const OFFER_SNAPSHOT := KRecord([
    Field("observation", OBSERVATION, Never),
    Field("offers", KList(OFFER), Never),
    Field("outcome", OFFER_OUTCOME, Never)], true)

  const MODELS_ARGUMENTS := KRecord([
    Field("fresh", KBool, Never)], false)

  const HOSTS_ARGUMENTS := KRecord([
    Field("fresh", KBool, Never)], false)

  const PICK_ARGUMENTS := KRecord([
    Field("request", PICK_REQUEST, Never)], false)

  const OFFER_ARGUMENTS := KRecord([
    Field("request", OFFER_REQUEST, Never)], false)

  const SERVICE_FRAME := KRecord([
    Field("version", I32, Never),
    Field("service", KStr, Never),
    Field("method", KStr, Never),
    Field("arguments", KRaw, Never)], false)

  const SERVICE_REPLY := KRecord([
    Field("version", I32, Never),
    Field("service", KStr, Never),
    Field("method", KStr, Never),
    Field("ok", KBool, Never),
    Field("payload", KRaw, Never)], false)

  const SERVICE_ERROR := KRecord([
    Field("code", KStr, Never),
    Field("message", KStr, Never)], false)

  const MODELS_RESULT := KRecord([
    Field("value", MODELS_SNAPSHOT, Never)], false)

  const HOSTS_RESULT := KRecord([
    Field("value", HOSTS_SNAPSHOT, Never)], false)

  const PICK_RESULT_RECORD := KRecord([
    Field("value", PICK_RESULT, Never)], false)

  const OFFER_RESULT_RECORD := KRecord([
    Field("value", OFFER_SNAPSHOT, Never)], false)

  /** Whether a shape is well formed, and fits under the depth limit from a depth on. */

  lemma HostAllowanceSound(depth: nat)
    requires depth <= 62
    ensures WellFormed(HOST_ALLOWANCE) && Fits(HOST_ALLOWANCE, depth) && Timeless(HOST_ALLOWANCE) && HOST_ALLOWANCE.KRecord?
  {
  }

  lemma PickRequestSound(depth: nat)
    requires depth <= 61
    ensures WellFormed(PICK_REQUEST) && Fits(PICK_REQUEST, depth) && Timeless(PICK_REQUEST)
  {
    hide HOST_ALLOWANCE;
    HostAllowanceSound(depth + 1);
    assert PICK_REQUEST.fields[0].kind == KStr;
    assert FieldWellFormed(PICK_REQUEST, 0);
    assert PICK_REQUEST.fields[1].kind == KBool;
    assert FieldWellFormed(PICK_REQUEST, 1);
    assert PICK_REQUEST.fields[2].kind == HOST_ALLOWANCE;
    assert FieldWellFormed(PICK_REQUEST, 2);
    assert PICK_REQUEST.fields[3].kind == KStr;
    assert FieldWellFormed(PICK_REQUEST, 3);
  }

  lemma CallerSound(depth: nat)
    requires depth <= 63
    ensures WellFormed(CALLER) && Fits(CALLER, depth) && Timeless(CALLER)
  {
  }

  lemma ObservationSound(depth: nat)
    requires depth <= 62
    ensures WellFormed(OBSERVATION) && Fits(OBSERVATION, depth) && Timeless(OBSERVATION)
  {
    hide CALLER;
    CallerSound(depth + 1);
    assert OBSERVATION.fields[0].kind == CALLER;
    assert FieldWellFormed(OBSERVATION, 0);
    assert OBSERVATION.fields[1].kind == I64;
    assert FieldWellFormed(OBSERVATION, 1);
    assert OBSERVATION.fields[2].kind == I64;
    assert FieldWellFormed(OBSERVATION, 2);
  }

  lemma AliasSound(depth: nat)
    requires depth <= 62
    ensures WellFormed(ALIAS) && Fits(ALIAS, depth) && Timeless(ALIAS)
  {
  }

  lemma ComponentSound(depth: nat)
    requires depth <= 63
    ensures WellFormed(COMPONENT) && Fits(COMPONENT, depth) && Timeless(COMPONENT)
  {
  }

  lemma FamilySound(depth: nat)
    requires depth <= 60
    ensures WellFormed(FAMILY) && Fits(FAMILY, depth) && Timeless(FAMILY)
  {
    hide ALIAS, COMPONENT;
    AliasSound(depth + 2);
    ComponentSound(depth + 2);
    assert FAMILY.fields[0].kind == KStr;
    assert FieldWellFormed(FAMILY, 0);
    assert FAMILY.fields[1].kind == KList(ALIAS);
    assert WellFormed(KList(ALIAS)) && Fits(KList(ALIAS), depth + 1) && Timeless(KList(ALIAS));
    assert FieldWellFormed(FAMILY, 1);
    assert FAMILY.fields[2].kind == KList(KStr);
    assert WellFormed(KList(KStr)) && Fits(KList(KStr), depth + 1) && Timeless(KList(KStr));
    assert FieldWellFormed(FAMILY, 2);
    assert FAMILY.fields[3].kind == KStr;
    assert FieldWellFormed(FAMILY, 3);
    assert FAMILY.fields[4].kind == KList(COMPONENT);
    assert WellFormed(KList(COMPONENT)) && Fits(KList(COMPONENT), depth + 1) && Timeless(KList(COMPONENT));
    assert FieldWellFormed(FAMILY, 4);
  }

  lemma ModelsSnapshotSound(depth: nat)
    requires depth <= 58
    ensures WellFormed(MODELS_SNAPSHOT) && Fits(MODELS_SNAPSHOT, depth) && Timeless(MODELS_SNAPSHOT)
  {
    hide OBSERVATION, FAMILY;
    ObservationSound(depth + 1);
    FamilySound(depth + 2);
    assert MODELS_SNAPSHOT.fields[0].kind == OBSERVATION;
    assert FieldWellFormed(MODELS_SNAPSHOT, 0);
    assert MODELS_SNAPSHOT.fields[1].kind == KList(FAMILY);
    assert WellFormed(KList(FAMILY)) && Fits(KList(FAMILY), depth + 1) && Timeless(KList(FAMILY));
    assert FieldWellFormed(MODELS_SNAPSHOT, 1);
  }

  lemma HostStateSound(depth: nat)
    requires depth <= 62
    ensures WellFormed(HOST_STATE) && Fits(HOST_STATE, depth) && Timeless(HOST_STATE)
  {
  }

  lemma AskSound(depth: nat)
    requires depth <= 63
    ensures WellFormed(ASK) && Fits(ASK, depth)
  {
  }

  lemma HostsSnapshotSound(depth: nat)
    requires depth <= 60
    ensures WellFormed(HOSTS_SNAPSHOT) && Fits(HOSTS_SNAPSHOT, depth)
  {
    hide OBSERVATION, HOST_STATE, ASK;
    ObservationSound(depth + 1);
    HostStateSound(depth + 2);
    AskSound(depth + 2);
    assert HOSTS_SNAPSHOT.fields[0].kind == OBSERVATION;
    assert FieldWellFormed(HOSTS_SNAPSHOT, 0);
    assert HOSTS_SNAPSHOT.fields[1].kind == KList(HOST_STATE);
    assert WellFormed(KList(HOST_STATE)) && Fits(KList(HOST_STATE), depth + 1);
    assert FieldWellFormed(HOSTS_SNAPSHOT, 1);
    assert HOSTS_SNAPSHOT.fields[2].kind == KList(KStr);
    assert WellFormed(KList(KStr)) && Fits(KList(KStr), depth + 1);
    assert FieldWellFormed(HOSTS_SNAPSHOT, 2);
    assert HOSTS_SNAPSHOT.fields[3].kind == KList(ASK);
    assert WellFormed(KList(ASK)) && Fits(KList(ASK), depth + 1);
    assert FieldWellFormed(HOSTS_SNAPSHOT, 3);
  }

  lemma DecisionSound(depth: nat)
    requires depth <= 61
    ensures WellFormed(DECISION) && Fits(DECISION, depth) && Timeless(DECISION)
  {
    hide HOST_ALLOWANCE;
    HostAllowanceSound(depth + 1);
    assert DECISION.fields[7].kind == HOST_ALLOWANCE && FieldWellFormed(DECISION, 7);
    assert DECISION.fields[6].kind == KList(KStr) && DECISION.fields[8].kind == KList(KStr) && DECISION.fields[9].kind == I64;
    forall i | 0 <= i < 11 ensures FieldWellFormed(DECISION, i) {
    }
  }

  lemma PickResultSound(depth: nat)
    requires depth <= 60
    ensures WellFormed(PICK_RESULT) && Fits(PICK_RESULT, depth) && Timeless(PICK_RESULT)
  {
    hide OBSERVATION, DECISION;
    ObservationSound(depth + 1);
    DecisionSound(depth + 1);
    assert PICK_RESULT.fields[0].kind == OBSERVATION;
    assert FieldWellFormed(PICK_RESULT, 0);
    assert PICK_RESULT.fields[1].kind == DECISION;
    assert FieldWellFormed(PICK_RESULT, 1);
  }

  lemma OfferRequestSound(depth: nat)
    requires depth <= 63
    ensures WellFormed(OFFER_REQUEST) && Fits(OFFER_REQUEST, depth) && Timeless(OFFER_REQUEST)
  {
  }

  lemma OfferSound(depth: nat)
    requires depth <= 62
    ensures WellFormed(OFFER) && Fits(OFFER, depth) && Timeless(OFFER)
  {
  }

  lemma OutcomeSound(depth: nat)
    ensures WellFormed(OFFER_OUTCOME) && Fits(OFFER_OUTCOME, depth) && Timeless(OFFER_OUTCOME) && OFFER_OUTCOME.KEnum?
  {
  }

  lemma OfferSnapshotSound(depth: nat)
    requires depth <= 60
    ensures WellFormed(OFFER_SNAPSHOT) && Fits(OFFER_SNAPSHOT, depth) && Timeless(OFFER_SNAPSHOT)
  {
    hide OBSERVATION, OFFER, OFFER_OUTCOME;
    ObservationSound(depth + 1);
    OfferSound(depth + 2);
    OutcomeSound(depth + 1);
    assert OFFER_SNAPSHOT.fields[0].kind == OBSERVATION;
    assert FieldWellFormed(OFFER_SNAPSHOT, 0);
    assert OFFER_SNAPSHOT.fields[1].kind == KList(OFFER);
    assert WellFormed(KList(OFFER)) && Fits(KList(OFFER), depth + 1) && Timeless(KList(OFFER));
    assert FieldWellFormed(OFFER_SNAPSHOT, 1);
    assert OFFER_SNAPSHOT.fields[2].kind == OFFER_OUTCOME;
    assert FieldWellFormed(OFFER_SNAPSHOT, 2);
  }

  lemma ModelsArgumentsSound(depth: nat)
    requires depth <= 63
    ensures WellFormed(MODELS_ARGUMENTS) && Fits(MODELS_ARGUMENTS, depth) && Timeless(MODELS_ARGUMENTS)
  {
  }

  lemma HostsArgumentsSound(depth: nat)
    requires depth <= 63
    ensures WellFormed(HOSTS_ARGUMENTS) && Fits(HOSTS_ARGUMENTS, depth) && Timeless(HOSTS_ARGUMENTS)
  {
  }

  lemma PickArgumentsSound(depth: nat)
    requires depth <= 60
    ensures WellFormed(PICK_ARGUMENTS) && Fits(PICK_ARGUMENTS, depth) && Timeless(PICK_ARGUMENTS)
  {
    hide PICK_REQUEST;
    PickRequestSound(depth + 1);
  }

  lemma OfferArgumentsSound(depth: nat)
    requires depth <= 62
    ensures WellFormed(OFFER_ARGUMENTS) && Fits(OFFER_ARGUMENTS, depth) && Timeless(OFFER_ARGUMENTS)
  {
    hide OFFER_REQUEST;
    OfferRequestSound(depth + 1);
  }

  lemma ServiceFrameSound()
    ensures WellFormed(SERVICE_FRAME)
  {
  }

  lemma ServiceReplySound()
    ensures WellFormed(SERVICE_REPLY)
  {
  }

  lemma ServiceErrorSound(depth: nat)
    requires depth <= 63
    ensures WellFormed(SERVICE_ERROR) && Fits(SERVICE_ERROR, depth) && Timeless(SERVICE_ERROR)
  {
  }

  lemma ModelsResultSound(depth: nat)
    requires depth <= 57
    ensures WellFormed(MODELS_RESULT) && Fits(MODELS_RESULT, depth) && Timeless(MODELS_RESULT)
  {
    hide MODELS_SNAPSHOT;
    ModelsSnapshotSound(depth + 1);
  }

  lemma HostsResultSound(depth: nat)
    requires depth <= 59
    ensures WellFormed(HOSTS_RESULT) && Fits(HOSTS_RESULT, depth)
  {
    hide HOSTS_SNAPSHOT;
    HostsSnapshotSound(depth + 1);
  }

  lemma PickResultRecordSound(depth: nat)
    requires depth <= 59
    ensures WellFormed(PICK_RESULT_RECORD) && Fits(PICK_RESULT_RECORD, depth) && Timeless(PICK_RESULT_RECORD)
  {
    hide PICK_RESULT;
    PickResultSound(depth + 1);
  }

  lemma OfferResultRecordSound(depth: nat)
    requires depth <= 59
    ensures WellFormed(OFFER_RESULT_RECORD) && Fits(OFFER_RESULT_RECORD, depth) && Timeless(OFFER_RESULT_RECORD)
  {
    hide OFFER_SNAPSHOT;
    OfferSnapshotSound(depth + 1);
  }

}
