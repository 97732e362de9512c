/** The schema-directed check of account-security responses (account_security_transport.go). The Go types
    of account_security_types.go, which the program inspects by reflection, are schema trees here. */
module Security {
  import opened Text
  import opened Int64
  import opened Json

  /** The struct types that carry a rule of their own; any other struct is Plain. */
  datatype Rule =
    | RecoveryCodesRemaining | ProviderTarget | IdentityOperation | IdentifierCapability | MFAOperation
    | TOTPBeginResult | MFACompletionResult | RecoveryCodes | MFAAction | OperationProofOption | Plain

  datatype Schema =
    | Pointer(elem: Schema)
    | Slice(elem: Schema)
    | MapOf(key: Schema, elem: Schema)
    | Struct(rule: Rule, fields: seq<Field>)
    | String(enum: Option<set<string>>)
    | Boolean
    | Integer

  /** A struct field: its json key, its type, and whether it is tagged wire:"optional". */
  datatype Field = Field(key: string, type': Schema, optional: bool) {
    predicate Nullable() {
      type'.Pointer? || optional
    }
  }

  type Fields = map<string, Json>

  /** A JSON object as a Go map: a later member replaces an earlier one of the same name. */
  function ToMap(members: seq<Member>): Fields {
    if members == [] then map[]
    else ToMap(members[..|members| - 1])[members[|members| - 1].name := members[|members| - 1].value]
  }

  /** The value under a name is that of the last member of that name. */
  lemma {:induction false} ToMapExactly(members: seq<Member>, name: string, value: Json)
    ensures name in ToMap(members) && ToMap(members)[name] == value <==>
            exists i | 0 <= i < |members| :: members[i] == Member(name, value) && forall j | i < j < |members| :: members[j].name != name
  {
    if members != [] {
      var n := |members| - 1;
      ToMapExactly(members[..n], name, value);
      if members[n].name != name && name in ToMap(members) && ToMap(members)[name] == value {
        var i :| 0 <= i < n && members[..n][i] == Member(name, value) && forall j | i < j < n :: members[..n][j].name != name;
        assert forall j | i < j < n :: members[..n][j] == members[j];
        assert members[i] == Member(name, value);
      }
      if i :| 0 <= i < |members| && members[i] == Member(name, value) && forall j | i < j < |members| :: members[j].name != name {
        if i < n { assert members[..n][i] == members[i]; }
      }
    }
  }

  // ----- Reading fields

  /** A field that is there and not null. */
  predicate Present(fields: Fields, key: string) {
    key in fields && !fields[key].Null?
  }

  function TextIn(v: Json): string {
    if v.Str? then v.text else ""
  }

  function TextOf(fields: Fields, key: string): string {
    if key in fields then TextIn(fields[key]) else ""
  }

  predicate BoolOf(fields: Fields, key: string) {
    key in fields && fields[key].Bool? && fields[key].truth
  }

  /** The integer a literal stands for, if it is one that fits an int64. */
  function Int64Literal(literal: string): Option<int> {
    var negative := literal != "" && literal[0] == '-';
    var digits := if negative then literal[1..] else literal;
    if digits == "" || !AllDigits(digits) then None
    else
      var magnitude: int := DecimalValue(digits);
      var value := if negative then -magnitude else magnitude;
      if Fits(value) then Some(value) else None
  }

  function IntOf(fields: Fields, key: string): int {
    if key in fields && fields[key].Number? && Int64Literal(fields[key].literal).Some?
    then Int64Literal(fields[key].literal).value else 0
  }

  function ItemsOf(fields: Fields, key: string): seq<Json> {
    if key in fields && fields[key].Arr? then fields[key].items else []
  }

  // ----- The rules

  predicate IsProviderReference(s: string) {
    |s| == 64 && forall i | 0 <= i < 64 :: IsLowerHex(s[i])
  }

  /** The keys a proof option must hold besides its method. */
  function ProofKeys(method': string): set<string> {
    if method' == "EMAIL_OTP" then {"identifierId", "maskedIdentifier"}
    else if method' == "PROVIDER" then {"methodId", "displayName"}
    else if method' == "STEP_UP_PROOF" then {"availableMethods"}
    else {}
  }

  const PROOF_KEYS := {"identifierId", "maskedIdentifier", "methodId", "displayName", "availableMethods"}

  /** securitySemantic. */
  predicate Semantic(fields: Fields, rule: Rule) {
    match rule
    case RecoveryCodesRemaining =>
      IntOf(fields, "remaining") >= 0
      && !Present(fields, "codes") && !Present(fields, "recoveryCodes") && !Present(fields, "material")
    case ProviderTarget =>
      IsUuid(TextOf(fields, "providerId")) && IsProviderReference(TextOf(fields, "reference"))
    case IdentityOperation =>
      Present(fields, "providerTarget") ==>
        TextOf(fields, "type") == "LINK" && TextOf(fields, "state") !in {"CANCELLED", "EXPIRED", "REJECTED"}
    case IdentifierCapability =>
      && BoolOf(fields, "allowed") == (|ItemsOf(fields, "unavailableReasons")| == 0)
      && forall id | id in ItemsOf(fields, "replacementPrimaryIds") :: IsUuid(TextIn(id))
    case MFAOperation =>
      && !Present(fields, "material") && !Present(fields, "recoveryCodes")
      && ((TextOf(fields, "state") == "COMMITTED") == Present(fields, "result"))
    case TOTPBeginResult =>
      && ((TextOf(fields, "delivery") == "AVAILABLE") == Present(fields, "material"))
      && TextOf(fields, "delivery") != "NOT_APPLICABLE"
    case MFACompletionResult => (TextOf(fields, "delivery") == "AVAILABLE") == Present(fields, "recoveryCodes")
    case RecoveryCodes => IntOf(fields, "count") == |ItemsOf(fields, "codes")|
    case MFAAction =>
      BoolOf(fields, "allowed") && TextOf(fields, "proofRequirement") != "SESSION" ==>
        |ItemsOf(fields, "proofOptions")| > 0
    case OperationProofOption =>
      var method' := TextOf(fields, "method");
      && (forall key | key in PROOF_KEYS :: Present(fields, key) <==> key in ProofKeys(method'))
      && (method' == "STEP_UP_PROOF" ==>
            && |ItemsOf(fields, "availableMethods")| > 0
            && forall m | m in ItemsOf(fields, "availableMethods") :: m == Str("TOTP") || m == Str("WEBAUTHN"))
    case Plain => true
  }

  /** Every key a rule looks at. */
  function Reads(rule: Rule): set<string> {
    match rule
    case RecoveryCodesRemaining => {"remaining", "codes", "recoveryCodes", "material"}
    case ProviderTarget => {"providerId", "reference"}
    case IdentityOperation => {"providerTarget", "type", "state"}
    case IdentifierCapability => {"allowed", "unavailableReasons", "replacementPrimaryIds"}
    case MFAOperation => {"material", "recoveryCodes", "state", "result"}
    case TOTPBeginResult => {"delivery", "material"}
    case MFACompletionResult => {"delivery", "recoveryCodes"}
    case RecoveryCodes => {"codes", "count"}
    case MFAAction => {"allowed", "proofRequirement", "proofOptions"}
    case OperationProofOption => PROOF_KEYS + {"method"}
    case Plain => {}
  }

  // ----- Validation

  /** The first field with its key. A later one would find its member already taken. */
  predicate KeyIsNew(fields: seq<Field>, i: nat)
    requires i < |fields|
  {
    forall j | 0 <= j < i :: fields[j].key != fields[i].key
  }

  /** The field is there to be read. */
  predicate Given(found: Fields, fields: seq<Field>, i: nat)
    requires i < |fields|
  {
    Present(found, fields[i].key) && KeyIsNew(fields, i)
  }

  /** validateSecurityJSON. */
  predicate Validate(v: Json, t: Schema)
    decreases t
  {
    && !v.Null?
    && match t
       case Pointer(elem) => Validate(v, elem)
       case Slice(elem) => v.Arr? && forall i | 0 <= i < |v.items| :: Validate(v.items[i], elem)
       case MapOf(key, elem) =>
         && v.Obj?
         && var items := ToMap(v.members);
         && (forall name | name in items :: Validate(Str(name), key))
         && (forall name | name in items :: Validate(items[name], elem))
       case Struct(rule, fields) =>
         && v.Obj?
         && var found := ToMap(v.members);
         && (forall i | 0 <= i < |fields| ::
               if Given(found, fields, i) then Validate(found[fields[i].key], fields[i].type')
               else fields[i].Nullable())
         && Semantic(found, rule)
       case String(enum) => v.Str? && (enum.Some? ==> v.text in enum.value)
       case Boolean => v.Bool?
       case Integer => v.Number? && Int64Literal(v.literal).Some?
  }

  /** The recursive procedure, with its loops and its shrinking map of fields. */
  method ValidateSecurityJson(v: Json, t: Schema) returns (ok: bool)
    ensures ok <==> Validate(v, t)
    decreases t, 1
  {
    if v.Null? {
      return false;
    }
    match t {
      case Pointer(elem) =>
        ok := ValidateSecurityJson(v, elem);
      case Slice(elem) =>
        if !v.Arr? {
          return false;
        }
        for i := 0 to |v.items|
          invariant forall j | 0 <= j < i :: Validate(v.items[j], elem)
        {
          ok := ValidateSecurityJson(v.items[i], elem);
          if !ok {
            return false;
          }
        }
        return true;
      case MapOf(key, elem) =>
        if !v.Obj? {
          return false;
        }
        var items := ToMap(v.members);
        var left := items.Keys;
        while left != {}
          invariant left <= items.Keys
          invariant forall name | name in items && name !in left :: Validate(Str(name), key) && Validate(items[name], elem)
          decreases |left|
        {
          var name :| name in left;
          ok := ValidateSecurityJson(Str(name), key);
          if !ok {
            return false;
          }
          ok := ValidateSecurityJson(items[name], elem);
          if !ok {
            return false;
          }
          left := left - {name};
        }
        return true;
      case Struct(rule, declared) =>
        if !v.Obj? {
          return false;
        }
        var found := ToMap(v.members);
        ok := ValidateFields(found, t);
        if !ok {
          return false;
        }
        return Semantic(found, rule);
      case String(enum) =>
        return v.Str? && (enum.Some? ==> v.text in enum.value);
      case Boolean =>
        return v.Bool?;
      case Integer =>
        return v.Number? && Int64Literal(v.literal).Some?;
    }
  }

  predicate FieldsOk(found: Fields, declared: seq<Field>, n: nat)
    requires n <= |declared|
  {
    forall i | 0 <= i < n ::
      if Given(found, declared, i) then Validate(found[declared[i].key], declared[i].type') else declared[i].Nullable()
  }

  /** What is left of the fields when `n` have been dealt with: those with none of their keys. */
  ghost predicate Left(fields: Fields, found: Fields, declared: seq<Field>, n: nat)
    requires n <= |declared|
  {
    && (forall key | key in fields :: key in found && fields[key] == found[key])
    && (forall key | key in found :: key in fields <==> forall j | 0 <= j < n :: declared[j].key != key)
  }

  /** The loop over the declared fields. */
  method ValidateFields(found: Fields, t: Schema) returns (ok: bool)
    requires t.Struct?
    ensures ok <==> FieldsOk(found, t.fields, |t.fields|)
    decreases t, 0
  {
    var fields := found;
    for i := 0 to |t.fields|
      invariant Left(fields, found, t.fields, i)
      invariant FieldsOk(found, t.fields, i)
    {
      var f := t.fields[i];
      if f.key !in fields || fields[f.key].Null? {
        if !f.Nullable() {
          return false;
        }
      } else {
        ok := ValidateSecurityJson(fields[f.key], f.type');
        if !ok {
          return false;
        }
      }
      fields := fields - {f.key};
    }
    return true;
  }

  // ----- The rules, in terms of what a response says

  predicate Missing(fields: Fields, key: string) {
    key in fields ==> fields[key] == Null
  }

  predicate Says(fields: Fields, key: string, text: string) {
    key in fields && fields[key] == Str(text)
  }

  predicate Affirms(fields: Fields, key: string) {
    key in fields && fields[key] == Bool(true)
  }

  /** The field is a list, and not an empty one. */
  predicate Lists(fields: Fields, key: string) {
    key in fields && fields[key].Arr? && fields[key].items != []
  }

  /** The literal is decimal digits for `n`, after a minus sign if that is negative. */
  ghost predicate Denotes(v: Json, n: int) {
    && v.Number? && -0x8000_0000_0000_0000 <= n <= 0x7fff_ffff_ffff_ffff
    && exists digits | digits != "" && AllDigits(digits) ::
         || (v.literal == digits && n == DecimalValue(digits))
         || (v.literal == "-" + digits && n == -(DecimalValue(digits) as int))
  }

  ghost predicate Counts(fields: Fields, key: string, n: int) {
    key in fields && Denotes(fields[key], n)
  }

  /** What each type demands of its fields beyond their own types. */
  ghost predicate RuleHolds(f: Fields, rule: Rule) {
    match rule
    case RecoveryCodesRemaining =>
      && (forall n | Counts(f, "remaining", n) :: n >= 0)
      && Missing(f, "codes") && Missing(f, "recoveryCodes") && Missing(f, "material")
    case ProviderTarget =>
      && (exists id | IsUuid(id) :: Says(f, "providerId", id))
      && (exists reference | HexRun(reference, 64) :: Says(f, "reference", reference))
    case IdentityOperation =>
      || Missing(f, "providerTarget")
      || (Says(f, "type", "LINK")
          && !Says(f, "state", "CANCELLED") && !Says(f, "state", "EXPIRED") && !Says(f, "state", "REJECTED"))
    case IdentifierCapability =>
      && (Affirms(f, "allowed") <==> !Lists(f, "unavailableReasons"))
      && (Lists(f, "replacementPrimaryIds") ==>
            forall id | id in f["replacementPrimaryIds"].items :: id.Str? && IsUuid(id.text))
    case MFAOperation =>
      && Missing(f, "material") && Missing(f, "recoveryCodes")
      && (Missing(f, "result") <==> !Says(f, "state", "COMMITTED"))
    case TOTPBeginResult =>
      && (Missing(f, "material") <==> !Says(f, "delivery", "AVAILABLE"))
      && !Says(f, "delivery", "NOT_APPLICABLE")
    case MFACompletionResult => Missing(f, "recoveryCodes") <==> !Says(f, "delivery", "AVAILABLE")
    case RecoveryCodes =>
      if Lists(f, "codes") then Counts(f, "count", |f["codes"].items|) else forall n | Counts(f, "count", n) :: n == 0
    case MFAAction =>
      Affirms(f, "allowed") ==> Says(f, "proofRequirement", "SESSION") || Lists(f, "proofOptions")
    case OperationProofOption =>
      && (Missing(f, "identifierId") <==> !Says(f, "method", "EMAIL_OTP"))
      && (Missing(f, "maskedIdentifier") <==> !Says(f, "method", "EMAIL_OTP"))
      && (Missing(f, "methodId") <==> !Says(f, "method", "PROVIDER"))
      && (Missing(f, "displayName") <==> !Says(f, "method", "PROVIDER"))
      && (Missing(f, "availableMethods") <==> !Says(f, "method", "STEP_UP_PROOF"))
      && (Says(f, "method", "STEP_UP_PROOF") ==>
            && Lists(f, "availableMethods")
            && forall m | m in f["availableMethods"].items :: m in {Str("TOTP"), Str("WEBAUTHN")})
    case Plain => true
  }

  lemma Int64LiteralExactly(v: Json, n: int)
    requires v.Number?
    ensures Int64Literal(v.literal) == Some(n) <==> Denotes(v, n)
  {
    var negative := v.literal != "" && v.literal[0] == '-';
    var digits := if negative then v.literal[1..] else v.literal;
    assert negative ==> v.literal == "-" + digits;
    if Denotes(v, n) {
      var ds :| ds != "" && AllDigits(ds) && ((v.literal == ds && n == DecimalValue(ds))
                || (v.literal == "-" + ds && n == -(DecimalValue(ds) as int)));
      assert IsDigit(ds[0]);
      assert ds == digits;
    }
  }

  /** The number of a field is what its literal stands for, or zero if it has no such number. */
  lemma IntOfExactly(f: Fields, key: string)
    ensures forall n | Counts(f, key, n) :: IntOf(f, key) == n
    ensures IntOf(f, key) != 0 ==> Counts(f, key, IntOf(f, key))
  {
    forall n | Counts(f, key, n) ensures IntOf(f, key) == n { Int64LiteralExactly(f[key], n); }
    if IntOf(f, key) != 0 { Int64LiteralExactly(f[key], IntOf(f, key)); }
  }

  /** The program's reading of each rule is the rule. */
  lemma RuleExactly(f: Fields, rule: Rule)
    ensures Semantic(f, rule) <==> RuleHolds(f, rule)
  {
    match rule {
      case RecoveryCodesRemaining => IntOfExactly(f, "remaining");
      case ProviderTarget =>
        HexDigits();
        assert IsProviderReference(TextOf(f, "reference")) <==> HexRun(TextOf(f, "reference"), 64);
      case RecoveryCodes => IntOfExactly(f, "count");
      case IdentifierCapability =>
        var ids := ItemsOf(f, "replacementPrimaryIds");
        assert ids == if Lists(f, "replacementPrimaryIds") then f["replacementPrimaryIds"].items else [];
        assert forall id | id in ids :: IsUuid(TextIn(id)) <==> id.Str? && IsUuid(id.text);
      case OperationProofOption => ProofOptionExactly(f);
      case _ =>
    }
  }

  lemma ProofOptionExactly(f: Fields)
    ensures Semantic(f, OperationProofOption) <==> RuleHolds(f, OperationProofOption)
  {
    var wanted := ProofKeys(TextOf(f, "method"));
    assert "identifierId" in wanted <==> Says(f, "method", "EMAIL_OTP");
    assert "maskedIdentifier" in wanted <==> Says(f, "method", "EMAIL_OTP");
    assert "methodId" in wanted <==> Says(f, "method", "PROVIDER");
    assert "displayName" in wanted <==> Says(f, "method", "PROVIDER");
    assert "availableMethods" in wanted <==> Says(f, "method", "STEP_UP_PROOF");
  }

  // ----- Acceptance reaches every depth

  /** A step from a value into one of its parts. */
  datatype Hop = FieldHop(key: string) | ItemHop(index: nat) | KeyHop(name: string) | ValueHop(name: string)

  /** The value and type at the end of a path. Absent and null fields lead nowhere. */
  function At(v: Json, t: Schema, path: seq<Hop>): Option<(Json, Schema)>
    decreases t
  {
    match t
    case Pointer(elem) => At(v, elem, path)
    case Slice(elem) =>
      if path == [] then Some((v, t))
      else if path[0].ItemHop? && v.Arr? && path[0].index < |v.items| then At(v.items[path[0].index], elem, path[1..])
      else None
    case MapOf(key, elem) =>
      if path == [] then Some((v, t))
      else if path[0].KeyHop? && v.Obj? && path[0].name in ToMap(v.members) then At(Str(path[0].name), key, path[1..])
      else if path[0].ValueHop? && v.Obj? && path[0].name in ToMap(v.members) then
        At(ToMap(v.members)[path[0].name], elem, path[1..])
      else None
    case Struct(_, fields) =>
      if path == [] then Some((v, t))
      else if path[0].FieldHop? && v.Obj? && Present(ToMap(v.members), path[0].key) then
        var i := FieldIndex(fields, path[0].key);
        if i < |fields| then At(ToMap(v.members)[path[0].key], fields[i].type', path[1..]) else None
      else None
    case _ => if path == [] then Some((v, t)) else None
  }

  function FieldIndex(fields: seq<Field>, key: string): (i: nat)
    ensures i <= |fields|
    ensures i < |fields| ==> fields[i].key == key && KeyIsNew(fields, i)
    ensures i == |fields| ==> forall j | 0 <= j < |fields| :: fields[j].key != key
  {
    if fields == [] || fields[0].key == key then 0 else 1 + FieldIndex(fields[1..], key)
  }

  /** What is required of a single node, whatever lies below it: its kind, its required fields, the rule
      of its type. */
  ghost predicate NodeOk(v: Json, t: Schema) {
    match t
    case Pointer(elem) => NodeOk(v, elem)
    case Slice(_) => v.Arr?
    case MapOf(_, _) => v.Obj?
    case Struct(rule, fields) =>
      && v.Obj?
      && (forall i | 0 <= i < |fields| ::
            || (!Missing(ToMap(v.members), fields[i].key) && KeyIsNew(fields, i))
            || fields[i].optional || fields[i].type'.Pointer?)
      && RuleHolds(ToMap(v.members), rule)
    case String(enum) => v.Str? && (enum.Some? ==> v.text in enum.value)
    case Boolean => v.Bool?
    case Integer => exists n :: Denotes(v, n)
  }

  /** The checks on one node are what is required of it. */
  lemma NodeExactly(v: Json, rule: Rule, fields: seq<Field>)
    ensures NodeOk(v, Struct(rule, fields)) <==>
            && v.Obj?
            && (forall i | 0 <= i < |fields| :: Given(ToMap(v.members), fields, i) || fields[i].Nullable())
            && Semantic(ToMap(v.members), rule)
    ensures NodeOk(v, Integer) <==> v.Number? && Int64Literal(v.literal).Some?
  {
    if v.Obj? { RuleExactly(ToMap(v.members), rule); }
    if v.Number? {
      forall n ensures Int64Literal(v.literal) == Some(n) <==> Denotes(v, n) { Int64LiteralExactly(v, n); }
      if Int64Literal(v.literal).Some? { assert Denotes(v, Int64Literal(v.literal).value); }
    }
  }

  lemma {:induction false} AcceptedNode(v: Json, t: Schema, path: seq<Hop>)
    requires Validate(v, t) && At(v, t, path).Some?
    ensures var (w, u) := At(v, t, path).value; Validate(w, u) && NodeOk(w, u)
    decreases t
  {
    match t {
      case Pointer(elem) => AcceptedNode(v, elem, path);
      case Slice(elem) => if path != [] { AcceptedNode(v.items[path[0].index], elem, path[1..]); }
      case MapOf(key, elem) =>
        if path != [] {
          if path[0].KeyHop? {
            AcceptedNode(Str(path[0].name), key, path[1..]);
          } else {
            AcceptedNode(ToMap(v.members)[path[0].name], elem, path[1..]);
          }
        }
      case Struct(rule, fields) =>
        if path != [] {
          var i := FieldIndex(fields, path[0].key);
          AcceptedNode(ToMap(v.members)[path[0].key], fields[i].type', path[1..]);
        }
        NodeExactly(v, rule, fields);
      case _ => NodeExactly(v, Plain, []);
    }
  }

  /** Every node that can be reached is as required. */
  ghost predicate AllNodesOk(v: Json, t: Schema) {
    forall path :: At(v, t, path).Some? ==> NodeOk(At(v, t, path).value.0, At(v, t, path).value.1)
  }

  lemma PartNodesOk(v: Json, t: Schema, w: Json, u: Schema, hop: Hop)
    requires AllNodesOk(v, t)
    requires forall path :: At(v, t, [hop] + path) == At(w, u, path)
    ensures AllNodesOk(w, u)
  {
    forall path | At(w, u, path).Some?
      ensures NodeOk(At(w, u, path).value.0, At(w, u, path).value.1)
    {
      assert At(v, t, [hop] + path) == At(w, u, path);
    }
  }

  lemma {:induction false} AllNodesSuffice(v: Json, t: Schema)
    requires AllNodesOk(v, t)
    ensures Validate(v, t)
    decreases t
  {
    match t {
      case Pointer(elem) =>
        assert forall path :: At(v, t, path) == At(v, elem, path);
        AllNodesSuffice(v, elem);
      case Slice(elem) =>
        assert At(v, t, []).Some?;
        forall i | 0 <= i < |v.items| ensures Validate(v.items[i], elem) {
          forall path ensures At(v, t, [ItemHop(i)] + path) == At(v.items[i], elem, path) {
            assert ([ItemHop(i)] + path)[1..] == path;
          }
          PartNodesOk(v, t, v.items[i], elem, ItemHop(i));
          AllNodesSuffice(v.items[i], elem);
        }
      case MapOf(key, elem) =>
        assert At(v, t, []).Some?;
        var items := ToMap(v.members);
        forall name | name in items ensures Validate(Str(name), key) && Validate(items[name], elem) {
          forall path ensures At(v, t, [KeyHop(name)] + path) == At(Str(name), key, path) {
            assert ([KeyHop(name)] + path)[1..] == path;
          }
          forall path ensures At(v, t, [ValueHop(name)] + path) == At(items[name], elem, path) {
            assert ([ValueHop(name)] + path)[1..] == path;
          }
          PartNodesOk(v, t, Str(name), key, KeyHop(name));
          PartNodesOk(v, t, items[name], elem, ValueHop(name));
          AllNodesSuffice(Str(name), key);
          AllNodesSuffice(items[name], elem);
        }
      case Struct(rule, fields) =>
        NodeExactly(v, rule, fields);
        assert At(v, t, []).Some?;
        var found := ToMap(v.members);
        forall i | 0 <= i < |fields| && Given(found, fields, i)
          ensures Validate(found[fields[i].key], fields[i].type')
        {
          assert FieldIndex(fields, fields[i].key) == i;
          forall path ensures At(v, t, [FieldHop(fields[i].key)] + path) == At(found[fields[i].key], fields[i].type', path) {
            assert ([FieldHop(fields[i].key)] + path)[1..] == path;
          }
          PartNodesOk(v, t, found[fields[i].key], fields[i].type', FieldHop(fields[i].key));
          AllNodesSuffice(found[fields[i].key], fields[i].type');
        }
      case _ =>
        assert At(v, t, []).Some?;
        NodeExactly(v, Plain, []);
    }
  }

  /** A response is accepted exactly when every node in it, at any depth, has the right kind, all its
      required fields, and obeys the rule of its own type. */
  lemma AcceptedExactly(v: Json, t: Schema)
    ensures Validate(v, t) <==> AllNodesOk(v, t)
  {
    if Validate(v, t) {
      forall path | At(v, t, path).Some? ensures NodeOk(At(v, t, path).value.0, At(v, t, path).value.1) {
        AcceptedNode(v, t, path);
      }
    }
    if AllNodesOk(v, t) { AllNodesSuffice(v, t); }
  }

  /** A capability is allowed exactly when no reason is listed against it, and names replacement identifiers
      by UUID only. */
  predicate CapabilityConsistent(capability: Json) {
    && capability.Obj?
    && var c := ToMap(capability.members);
    && (BoolOf(c, "allowed") <==> |ItemsOf(c, "unavailableReasons")| == 0)
    && forall id | id in ItemsOf(c, "replacementPrimaryIds") :: IsUuid(TextIn(id))
  }

  /** Wherever an identifier capability occurs in an accepted response, of any type, it is consistent. */
  lemma AcceptedCapability(v: Json, t: Schema, path: seq<Hop>, capability: Json, fields: seq<Field>)
    requires Validate(v, t) && At(v, t, path) == Some((capability, Struct(IdentifierCapability, fields)))
    ensures CapabilityConsistent(capability)
  {
    AcceptedNode(v, t, path);
  }

  /** Wherever an MFA operation occurs in an accepted response, it is COMMITTED exactly when it has a result,
      and it carries neither material nor recovery codes. */
  lemma AcceptedOperation(v: Json, t: Schema, path: seq<Hop>, operation: Json, fields: seq<Field>)
    requires Validate(v, t) && At(v, t, path) == Some((operation, Struct(MFAOperation, fields)))
    ensures operation.Obj?
    ensures var o := ToMap(operation.members);
            && (TextOf(o, "state") == "COMMITTED" <==> Present(o, "result"))
            && !Present(o, "material") && !Present(o, "recoveryCodes")
  {
    AcceptedNode(v, t, path);
  }

  // ----- What may change without changing the verdict

  /** Equal up to members that no type declares and no rule reads, and up to writing null for an absent
      field or the other way round, at every depth. */
  ghost predicate Similar(v: Json, w: Json, t: Schema)
    decreases t
  {
    match t
    case Pointer(elem) => Similar(v, w, elem)
    case Slice(elem) =>
      if v.Arr? && w.Arr? then
        |v.items| == |w.items| && forall i | 0 <= i < |v.items| :: Similar(v.items[i], w.items[i], elem)
      else v == w
    case MapOf(_, elem) =>
      if v.Obj? && w.Obj? then
        && ToMap(v.members).Keys == ToMap(w.members).Keys
        && forall name | name in ToMap(v.members) :: Similar(ToMap(v.members)[name], ToMap(w.members)[name], elem)
      else v == w
    case Struct(rule, fields) =>
      if v.Obj? && w.Obj? then
        var f, g := ToMap(v.members), ToMap(w.members);
        && (forall i | 0 <= i < |fields| && KeyIsNew(fields, i) ::
              && (Present(f, fields[i].key) <==> Present(g, fields[i].key))
              && (Present(f, fields[i].key) ==> Similar(f[fields[i].key], g[fields[i].key], fields[i].type')))
        && (forall key | key in Reads(rule) && FieldIndex(fields, key) == |fields| ::
              && (Present(f, key) <==> Present(g, key))
              && (Present(f, key) ==> f[key] == g[key]))
      else v == w
    case _ => v == w
  }

  /** What a rule can tell about a value. */
  ghost predicate SameView(v: Json, w: Json) {
    && (v.Null? <==> w.Null?)
    && (v.Str? || v.Bool? || v.Number? || w.Str? || w.Bool? || w.Number? ==> v == w)
    && (v.Arr? <==> w.Arr?)
    && (v.Arr? ==> |v.items| == |w.items| && forall i | 0 <= i < |v.items| ::
          v.items[i].Str? || w.items[i].Str? ==> v.items[i] == w.items[i])
  }

  lemma {:induction false} SimilarView(v: Json, w: Json, t: Schema)
    requires Similar(v, w, t)
    ensures SameView(v, w)
    decreases t
  {
    match t {
      case Pointer(elem) => SimilarView(v, w, elem);
      case Slice(elem) =>
        if v.Arr? && w.Arr? {
          forall i | 0 <= i < |v.items| { SimilarView(v.items[i], w.items[i], elem); }
        }
      case _ =>
    }
  }

  /** Rules only see what similar objects share. */
  ghost predicate SameReads(f: Fields, g: Fields, rule: Rule) {
    forall key | key in Reads(rule) ::
      && (Present(f, key) <==> Present(g, key))
      && (Present(f, key) ==> SameView(f[key], g[key]))
  }

  lemma SameAnswers(f: Fields, g: Fields, key: string)
    requires Present(f, key) <==> Present(g, key)
    requires Present(f, key) ==> SameView(f[key], g[key])
    ensures TextOf(f, key) == TextOf(g, key) && BoolOf(f, key) == BoolOf(g, key) && IntOf(f, key) == IntOf(g, key)
    ensures |ItemsOf(f, key)| == |ItemsOf(g, key)|
    ensures forall i | 0 <= i < |ItemsOf(f, key)| ::
              ItemsOf(f, key)[i].Str? || ItemsOf(g, key)[i].Str? ==> ItemsOf(f, key)[i] == ItemsOf(g, key)[i]
  {
  }

  lemma SameVerdictOfRule(f: Fields, g: Fields, rule: Rule)
    requires SameReads(f, g, rule)
    ensures Semantic(f, rule) ==> Semantic(g, rule)
  {
    forall key | key in Reads(rule) ensures TextOf(f, key) == TextOf(g, key) && BoolOf(f, key) == BoolOf(g, key)
      && IntOf(f, key) == IntOf(g, key) && |ItemsOf(f, key)| == |ItemsOf(g, key)|
    {
      SameAnswers(f, g, key);
    }
    if Semantic(f, rule) {
      match rule {
        case IdentifierCapability => SameTexts(f, g, "replacementPrimaryIds");
        case OperationProofOption => SameTexts(f, g, "availableMethods");
        case _ =>
      }
    }
  }

  lemma SameTexts(f: Fields, g: Fields, key: string)
    requires Present(f, key) <==> Present(g, key)
    requires Present(f, key) ==> SameView(f[key], g[key])
    ensures forall w | w in ItemsOf(g, key) ::
              exists v | v in ItemsOf(f, key) :: TextIn(v) == TextIn(w) && (v.Str? ==> v == w)
  {
    SameAnswers(f, g, key);
    forall w | w in ItemsOf(g, key) ensures exists v | v in ItemsOf(f, key) :: TextIn(v) == TextIn(w) && (v.Str? ==> v == w) {
      var i :| 0 <= i < |ItemsOf(g, key)| && ItemsOf(g, key)[i] == w;
      assert ItemsOf(f, key)[i] in ItemsOf(f, key);
    }
  }

  lemma {:induction false} SimilarReads(v: Json, w: Json, rule: Rule, fields: seq<Field>)
    requires v.Obj? && w.Obj? && Similar(v, w, Struct(rule, fields))
    ensures SameReads(ToMap(v.members), ToMap(w.members), rule)
    ensures SameReads(ToMap(w.members), ToMap(v.members), rule)
  {
    var f, g := ToMap(v.members), ToMap(w.members);
    forall key | key in Reads(rule)
      ensures Present(f, key) <==> Present(g, key)
      ensures Present(f, key) ==> SameView(f[key], g[key]) && SameView(g[key], f[key])
    {
      var i := FieldIndex(fields, key);
      if i < |fields| && Present(f, key) { SimilarView(f[key], g[key], fields[i].type'); }
    }
  }

  lemma {:induction false} SimilarAccepted(v: Json, w: Json, t: Schema)
    requires Similar(v, w, t) && Validate(v, t)
    ensures Validate(w, t)
    decreases t
  {
    match t {
      case Pointer(elem) => SimilarAccepted(v, w, elem);
      case Slice(elem) =>
        if w.Arr? { forall i | 0 <= i < |w.items| { SimilarAccepted(v.items[i], w.items[i], elem); } }
      case MapOf(key, elem) =>
        if w.Obj? {
          forall name | name in ToMap(w.members) { SimilarAccepted(ToMap(v.members)[name], ToMap(w.members)[name], elem); }
        }
      case Struct(rule, fields) =>
        if w.Obj? {
          SimilarReads(v, w, rule, fields);
          SameVerdictOfRule(ToMap(v.members), ToMap(w.members), rule);
          forall i | 0 <= i < |fields| && Given(ToMap(w.members), fields, i) {
            SimilarAccepted(ToMap(v.members)[fields[i].key], ToMap(w.members)[fields[i].key], fields[i].type');
          }
        }
      case _ =>
    }
  }

  lemma {:induction false} SimilarSymmetric(v: Json, w: Json, t: Schema)
    requires Similar(v, w, t)
    ensures Similar(w, v, t)
    decreases t
  {
    match t {
      case Pointer(elem) => SimilarSymmetric(v, w, elem);
      case Slice(elem) =>
        if v.Arr? && w.Arr? { forall i | 0 <= i < |v.items| { SimilarSymmetric(v.items[i], w.items[i], elem); } }
      case MapOf(_, elem) =>
        if v.Obj? && w.Obj? {
          forall name | name in ToMap(v.members) { SimilarSymmetric(ToMap(v.members)[name], ToMap(w.members)[name], elem); }
        }
      case Struct(rule, fields) =>
        if v.Obj? && w.Obj? {
          forall i | 0 <= i < |fields| && Given(ToMap(v.members), fields, i) {
            SimilarSymmetric(ToMap(v.members)[fields[i].key], ToMap(w.members)[fields[i].key], fields[i].type');
          }
        }
      case _ =>
    }
  }

  /** Additive members and null for absent never change the verdict, at any depth: similar responses are
      accepted or refused together. */
  lemma SimilarSameVerdict(v: Json, w: Json, t: Schema)
    requires Similar(v, w, t)
    ensures Validate(v, t) <==> Validate(w, t)
  {
    SimilarSymmetric(v, w, t);
    if Validate(v, t) { SimilarAccepted(v, w, t); }
    if Validate(w, t) { SimilarAccepted(w, v, t); }
  }

  lemma {:induction false} SimilarReflexive(v: Json, t: Schema)
    ensures Similar(v, v, t)
    decreases t
  {
    match t {
      case Pointer(elem) => SimilarReflexive(v, elem);
      case Slice(elem) =>
        if v.Arr? { forall i | 0 <= i < |v.items| { SimilarReflexive(v.items[i], elem); } }
      case MapOf(_, elem) =>
        if v.Obj? { forall name | name in ToMap(v.members) { SimilarReflexive(ToMap(v.members)[name], elem); } }
      case Struct(rule, fields) =>
        if v.Obj? {
          forall i | 0 <= i < |fields| && Given(ToMap(v.members), fields, i) {
            SimilarReflexive(ToMap(v.members)[fields[i].key], fields[i].type');
          }
        }
      case _ =>
    }
  }

  function Inserted(members: seq<Member>, i: nat, m: Member): seq<Member>
    requires i <= |members|
  {
    members[..i] + [m] + members[i..]
  }

  lemma {:induction false} InsertedMap(members: seq<Member>, i: nat, m: Member, key: string)
    requires i <= |members| && key != m.name
    ensures key in ToMap(Inserted(members, i, m)) <==> key in ToMap(members)
    ensures key in ToMap(members) ==> ToMap(Inserted(members, i, m))[key] == ToMap(members)[key]
  {
    var all := Inserted(members, i, m);
    if i == |members| {
      assert all[..|all| - 1] == members;
    } else {
      var n := |members| - 1;
      InsertedMap(members[..n], i, m, key);
      assert all[..|all| - 1] == Inserted(members[..n], i, m) && all[|all| - 1] == members[n];
    }
  }

  lemma {:induction false} InsertedNull(members: seq<Member>, i: nat, m: Member)
    requires i <= |members| && m.name !in ToMap(members)
    ensures m.name in ToMap(Inserted(members, i, m)) && ToMap(Inserted(members, i, m))[m.name] == m.value
  {
    var all := Inserted(members, i, m);
    if i == |members| {
      assert all[..|all| - 1] == members;
    } else {
      var n := |members| - 1;
      InsertedNull(members[..n], i, m);
      assert all[..|all| - 1] == Inserted(members[..n], i, m) && all[|all| - 1] == members[n];
    }
  }

  /** A member that no field declares and no rule reads may be added anywhere in an object; so may a null
      for a field that is absent. The inverse edits follow by symmetry. */
  lemma {:induction false} AddedMemberIsSimilar(members: seq<Member>, i: nat, m: Member, rule: Rule, fields: seq<Field>)
    requires i <= |members|
    requires || (FieldIndex(fields, m.name) == |fields| && m.name !in Reads(rule))
             || (m.value == Null && m.name !in ToMap(members))
    ensures Similar(Obj(members), Obj(Inserted(members, i, m)), Struct(rule, fields))
    ensures Validate(Obj(members), Struct(rule, fields)) <==> Validate(Obj(Inserted(members, i, m)), Struct(rule, fields))
  {
    var f, g := ToMap(members), ToMap(Inserted(members, i, m));
    if m.value == Null && m.name !in f { InsertedNull(members, i, m); }
    forall key | key != m.name ensures (key in f <==> key in g) && (key in f ==> f[key] == g[key]) {
      InsertedMap(members, i, m, key);
    }
    forall k | 0 <= k < |fields|
      ensures Present(f, fields[k].key) <==> Present(g, fields[k].key)
      ensures Present(f, fields[k].key) ==> Similar(f[fields[k].key], g[fields[k].key], fields[k].type')
    {
      if Present(f, fields[k].key) && fields[k].key != m.name { SimilarReflexive(f[fields[k].key], fields[k].type'); }
    }
    SimilarSameVerdict(Obj(members), Obj(Inserted(members, i, m)), Struct(rule, fields));
  }

  // ----- Edits at any depth

  /** The members with the value in force for a name replaced, which is that of its last member. */
  function SetMember(members: seq<Member>, name: string, value: Json): seq<Member> {
    if members == [] then []
    else
      var n := |members| - 1;
      if members[n].name == name then members[..n] + [Member(name, value)]
      else SetMember(members[..n], name, value) + [members[n]]
  }

  lemma {:induction false} SetMemberMap(members: seq<Member>, name: string, value: Json)
    requires name in ToMap(members)
    ensures ToMap(SetMember(members, name, value)) == ToMap(members)[name := value]
  {
    var n := |members| - 1;
    var edited := SetMember(members, name, value);
    if members[n].name == name {
      assert edited[..|edited| - 1] == members[..n] && edited[|edited| - 1] == Member(name, value);
    } else {
      SetMemberMap(members[..n], name, value);
      assert edited[..|edited| - 1] == SetMember(members[..n], name, value) && edited[|edited| - 1] == members[n];
    }
  }

  /** The value with the node at the end of a path replaced. The keys of a map stay as they are. */
  function Put(v: Json, t: Schema, path: seq<Hop>, node: Json): Json
    requires At(v, t, path).Some?
    decreases t
  {
    match t
    case Pointer(elem) => Put(v, elem, path, node)
    case Slice(elem) =>
      if path == [] then node
      else Arr(v.items[path[0].index := Put(v.items[path[0].index], elem, path[1..], node)])
    case MapOf(_, elem) =>
      if path == [] then node
      else if path[0].KeyHop? then v
      else Obj(SetMember(v.members, path[0].name, Put(ToMap(v.members)[path[0].name], elem, path[1..], node)))
    case Struct(_, fields) =>
      if path == [] then node
      else
        var t' := fields[FieldIndex(fields, path[0].key)].type';
        Obj(SetMember(v.members, path[0].key, Put(ToMap(v.members)[path[0].key], t', path[1..], node)))
    case _ => node
  }

  /** Replacing a node by a similar one leaves the whole similar, however deep the node is. */
  lemma {:induction false} PutIsSimilar(v: Json, t: Schema, path: seq<Hop>, node: Json)
    requires At(v, t, path).Some?
    requires Similar(At(v, t, path).value.0, node, At(v, t, path).value.1)
    ensures Similar(v, Put(v, t, path, node), t)
    decreases t
  {
    match t {
      case Pointer(elem) => PutIsSimilar(v, elem, path, node);
      case Slice(elem) =>
        if path != [] {
          PutIsSimilar(v.items[path[0].index], elem, path[1..], node);
          forall i | 0 <= i < |v.items| { SimilarReflexive(v.items[i], elem); }
        }
      case MapOf(_, elem) =>
        if path != [] {
          if path[0].KeyHop? {
            SimilarReflexive(v, t);
          } else {
            PutInMap(v, t, path, node);
          }
        }
      case Struct(_, fields) => if path != [] { PutInStruct(v, t, path, node); }
      case _ =>
    }
  }

  lemma {:induction false} PutInMap(v: Json, t: Schema, path: seq<Hop>, node: Json)
    requires t.MapOf? && At(v, t, path).Some? && path != [] && path[0].ValueHop?
    requires Similar(At(v, t, path).value.0, node, At(v, t, path).value.1)
    ensures Similar(v, Put(v, t, path, node), t)
    decreases t, 0
  {
    var old', name := ToMap(v.members), path[0].name;
    PutIsSimilar(old'[name], t.elem, path[1..], node);
    SetMemberMap(v.members, name, Put(old'[name], t.elem, path[1..], node));
    forall other | other in old' { SimilarReflexive(old'[other], t.elem); }
  }

  lemma {:induction false} PutInStruct(v: Json, t: Schema, path: seq<Hop>, node: Json)
    requires t.Struct? && At(v, t, path).Some? && path != []
    requires Similar(At(v, t, path).value.0, node, At(v, t, path).value.1)
    ensures Similar(v, Put(v, t, path, node), t)
    decreases t, 0
  {
    var found, key := ToMap(v.members), path[0].key;
    var i := FieldIndex(t.fields, key);
    var part := Put(found[key], t.fields[i].type', path[1..], node);
    PutIsSimilar(found[key], t.fields[i].type', path[1..], node);
    SetMemberMap(v.members, key, part);
    FieldReplaced(v.members, SetMember(v.members, key, part), t, i, part);
  }

  /** Two objects that differ in the value of one field, and there only similarly, are similar. */
  lemma {:induction false} FieldReplaced(members: seq<Member>, edited: seq<Member>, t: Schema, i: nat, part: Json)
    requires t.Struct? && i < |t.fields| && Given(ToMap(members), t.fields, i)
    requires ToMap(edited) == ToMap(members)[t.fields[i].key := part]
    requires Similar(ToMap(members)[t.fields[i].key], part, t.fields[i].type')
    ensures Similar(Obj(members), Obj(edited), t)
  {
    var f, g := ToMap(members), ToMap(edited);
    SimilarView(f[t.fields[i].key], part, t.fields[i].type');
    forall j | 0 <= j < |t.fields| && KeyIsNew(t.fields, j)
      ensures Present(f, t.fields[j].key) <==> Present(g, t.fields[j].key)
      ensures Present(f, t.fields[j].key) ==> Similar(f[t.fields[j].key], g[t.fields[j].key], t.fields[j].type')
    {
      if j != i {
        assert t.fields[j].key != t.fields[i].key;
        if Present(f, t.fields[j].key) { SimilarReflexive(f[t.fields[j].key], t.fields[j].type'); }
      }
    }
  }

  /** Such a member may be added to any object of a response, at any depth, without changing the verdict. */
  lemma {:induction false} AddedMemberAnywhere(v: Json, t: Schema, path: seq<Hop>, members: seq<Member>, i: nat, m: Member, rule: Rule,
      fields: seq<Field>)
    requires At(v, t, path) == Some((Obj(members), Struct(rule, fields))) && i <= |members|
    requires || (FieldIndex(fields, m.name) == |fields| && m.name !in Reads(rule))
             || (m.value == Null && m.name !in ToMap(members))
    ensures Validate(v, t) <==> Validate(Put(v, t, path, Obj(Inserted(members, i, m))), t)
  {
    AddedMemberIsSimilar(members, i, m, rule, fields);
    PutIsSimilar(v, t, path, Obj(Inserted(members, i, m)));
    SimilarSameVerdict(v, Put(v, t, path, Obj(Inserted(members, i, m))), t);
  }
}
