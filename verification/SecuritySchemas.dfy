/** The account-security response types that carry rules, as schema trees (account_security_types.go and
    account_security_enums.go), and what acceptance says about them. */
module SecuritySchemas {
  import opened Text
  import opened Json
  import opened Security

  function Plainly(): Schema {
    String(None)
  }

  function OneOf(values: set<string>): Schema {
    String(Some(values))
  }

  function Required(key: string, type': Schema): Field {
    Field(key, type', false)
  }

  function Optional(key: string, type': Schema): Field {
    Field(key, type', true)
  }

  function ProofOption(): Schema {
    Struct(OperationProofOption, [
      Required("method", OneOf({"PASSWORD", "EMAIL_OTP", "PROVIDER", "STEP_UP_PROOF"})),
      Optional("identifierId", Pointer(Plainly())),
      Optional("maskedIdentifier", Pointer(Plainly())),
      Optional("methodId", Pointer(Plainly())),
      Optional("displayName", Pointer(Plainly())),
      Optional("availableMethods", Slice(Plainly()))])
  }

  function Impact(): Schema {
    OneOf({"UNCHANGED", "CURRENT_SESSION_RETAINED", "REAUTHENTICATE"})
  }

  function OperationResult(): Schema {
    Struct(Plain, [
      Required("completedAt", Plainly()),
      Required("finalLoginMethodVersion", Integer),
      Required("sessionImpact", Impact()),
      Optional("recoveryBatchId", Pointer(Plainly())),
      Optional("recoveryCount", Pointer(Integer))])
  }

  function Operation(): Schema {
    Struct(MFAOperation, [
      Required("id", Plainly()),
      Required("type", OneOf({"TOTP_ENROLL", "TOTP_DISABLE", "RECOVERY_CODES_GENERATE"})),
      Required("state", OneOf({"AWAITING_REAUTH", "READY", "AWAITING_CONFIRMATION", "COMMITTED", "CANCELLED", "EXPIRED"})),
      Required("createdAt", Plainly()),
      Required("expiresAt", Plainly()),
      Required("expectedLoginMethodVersion", Integer),
      Required("proofRequirement", OneOf({"SESSION", "REAUTHENTICATION", "STEP_UP"})),
      Required("proofOptions", Slice(ProofOption())),
      Required("proofSatisfied", Boolean),
      Optional("nextChallengeAt", Pointer(Plainly())),
      Optional("reasonCode", Pointer(Plainly())),
      Optional("result", Pointer(OperationResult()))])
  }

  function Delivery(): Schema {
    OneOf({"AVAILABLE", "ALREADY_DELIVERED", "NOT_APPLICABLE"})
  }

  function Material(): Schema {
    Struct(Plain, [Required("secret", Plainly()), Required("qrCodeUri", Plainly()), Required("issuer", Plainly())])
  }

  function TotpBegin(): Schema {
    Struct(TOTPBeginResult, [
      Required("operation", Operation()),
      Required("delivery", Delivery()),
      Optional("material", Pointer(Material()))])
  }

  function Codes(): Schema {
    Struct(RecoveryCodes, [Required("codes", Slice(Plainly())), Required("count", Integer)])
  }

  function MfaCompletion(): Schema {
    Struct(MFACompletionResult, [
      Required("operation", Operation()),
      Required("delivery", Delivery()),
      Optional("recoveryCodes", Pointer(Codes()))])
  }

  function Capability(): Schema {
    Struct(IdentifierCapability, [
      Required("allowed", Boolean),
      Required("unavailableReasons", Slice(OneOf({
        "ACCOUNT_INACTIVE", "MANAGED_IDENTIFIER", "METHOD_UNAVAILABLE", "REAUTH_METHOD_UNAVAILABLE",
        "TARGET_PROOF_UNAVAILABLE", "IDENTIFIER_ALREADY_EXISTS", "NOT_APPLICABLE", "ALREADY_VERIFIED",
        "ALREADY_PRIMARY", "IDENTIFIER_UNVERIFIED", "IDENTIFIER_RANGE_REJECTED", "LAST_LOGIN_METHOD",
        "PRIMARY_REPLACEMENT_UNAVAILABLE"}))),
      Required("requirements", Slice(OneOf({
        "CURRENT_ACCOUNT_PROOF", "NEW_IDENTIFIER", "TARGET_EMAIL_OTP", "TARGET_PHONE_OTP",
        "REPLACEMENT_PRIMARY", "REMOVE_OLD", "COUNTERPART_CONFIRMATION", "REMAINING_LOGIN_PATH"}))),
      Required("replacementPrimaryIds", Slice(Plainly()))])
  }

  const IDENTIFIER_ACTIONS := {"VERIFY", "SET_PRIMARY", "REMOVE", "REPLACE", "TRANSFER"}

  function IdentifierSchema(): Schema {
    Struct(Plain, [
      Optional("capabilities", MapOf(OneOf(IDENTIFIER_ACTIONS), Capability())),
      Required("id", Plainly()),
      Required("kind", OneOf({"USERNAME", "EMAIL", "PHONE"})),
      Required("displayValue", Plainly()),
      Required("status", Plainly()),
      Required("verificationState", Plainly()),
      Optional("verifiedAt", Pointer(Plainly())),
      Optional("verificationSource", Pointer(Plainly())),
      Required("isPrimary", Boolean),
      Optional("managedBy", Pointer(Plainly()))])
  }

  function Management(): Schema {
    Struct(Plain, [
      Required("add", MapOf(OneOf({"USERNAME", "EMAIL", "PHONE"}), Capability())),
      Required("proofOptions", Slice(ProofOption()))])
  }

  function Identifiers(): Schema {
    Struct(Plain, [
      Field("management", Pointer(Management()), false),
      Required("loginMethodVersion", Integer),
      Required("items", Slice(IdentifierSchema()))])
  }

  // ----- What acceptance says of the types in use

  /** An accepted TOTPBeginResult holds an operation that is COMMITTED exactly when it has a result and
      leaks no material, and delivers material exactly when it says so. */
  lemma AcceptedTotpBegin(v: Json)
    requires Validate(v, TotpBegin())
    ensures v.Obj?
    ensures var f := ToMap(v.members);
            && Present(f, "operation") && f["operation"].Obj?
            && var o := ToMap(f["operation"].members);
            && (TextOf(o, "state") == "COMMITTED" <==> Present(o, "result"))
            && !Present(o, "material") && !Present(o, "recoveryCodes")
            && (TextOf(f, "delivery") == "AVAILABLE" <==> Present(f, "material"))
  {
    var f := ToMap(v.members);
    assert Present(f, TotpBegin().fields[0].key);
    assert At(f["operation"], Operation(), []) == Some((f["operation"], Operation()));
    var path := [FieldHop("operation")];
    assert path[1..] == [];
    assert At(v, TotpBegin(), path) == Some((f["operation"], Operation()));
    AcceptedOperation(v, TotpBegin(), path, f["operation"], Operation().fields);
  }

  /** An accepted MFACompletionResult delivers recovery codes exactly when it says so, and as many of them
      as it counts. */
  lemma AcceptedMfaCompletion(v: Json)
    requires Validate(v, MfaCompletion())
    ensures v.Obj?
    ensures var f := ToMap(v.members);
            && (TextOf(f, "delivery") == "AVAILABLE" <==> Present(f, "recoveryCodes"))
            && (Present(f, "recoveryCodes") ==>
                  && f["recoveryCodes"].Obj?
                  && var c := ToMap(f["recoveryCodes"].members);
                  && IntOf(c, "count") == |ItemsOf(c, "codes")|)
  {
    var f := ToMap(v.members);
    if Present(f, "recoveryCodes") {
      assert MfaCompletion().fields[2].key == "recoveryCodes";
      assert Validate(f["recoveryCodes"], Pointer(Codes()));
    }
  }

  predicate CapabilitiesConsistent(v: Json, actions: set<string>) {
    && v.Obj?
    && var capabilities := ToMap(v.members);
    && forall action | action in capabilities :: action in actions && CapabilityConsistent(capabilities[action])
  }

  /** The capabilities of an identifier are for known actions, and each is consistent. */
  predicate IdentifierConsistent(identifier: Json) {
    && identifier.Obj?
    && var f := ToMap(identifier.members);
    && (Present(f, "capabilities") ==> CapabilitiesConsistent(f["capabilities"], IDENTIFIER_ACTIONS))
  }

  lemma AcceptedCapabilities(v: Json, actions: set<string>, fields: seq<Field>)
    requires Validate(v, MapOf(OneOf(actions), Struct(IdentifierCapability, fields)))
    ensures CapabilitiesConsistent(v, actions)
  {
    var capabilities, t := ToMap(v.members), Struct(IdentifierCapability, fields);
    forall action | action in capabilities ensures action in actions && CapabilityConsistent(capabilities[action]) {
      assert Validate(Str(action), OneOf(actions));
      AcceptedCapability(capabilities[action], t, [], capabilities[action], fields);
    }
  }

  /** Every identifier of an accepted list is consistent. */
  lemma AcceptedIdentifiers(v: Json)
    requires Validate(v, Identifiers())
    ensures v.Obj? && Present(ToMap(v.members), "items")
    ensures forall i | i in ItemsOf(ToMap(v.members), "items") :: IdentifierConsistent(i)
  {
    var f := ToMap(v.members);
    assert Identifiers().fields[2] == Required("items", Slice(IdentifierSchema()));
    assert Validate(f["items"], Slice(IdentifierSchema()));
    assert IdentifierSchema().fields[0] == Optional("capabilities", MapOf(OneOf(IDENTIFIER_ACTIONS), Capability()));
    forall i | i in f["items"].items ensures IdentifierConsistent(i) {
      assert Validate(i, IdentifierSchema());
      var g := ToMap(i.members);
      if Present(g, "capabilities") {
        AcceptedCapabilities(g["capabilities"], IDENTIFIER_ACTIONS, Capability().fields);
      }
    }
  }
}
