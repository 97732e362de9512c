/** The strict reading of resolved permission keys and of a role snapshot (client.go). */
module Snapshot {
  import opened Text
  import opened Permission

  datatype SnapshotError =
    | PermissionsRequired
    | MalformedKey(key: string)
    | DuplicateKey(key: string)
    | HeaderRequired
    | RoleRequired
    | DuplicateRole(role: string)

  // ----- Permission lists

  function FirstFault(keys: seq<string>, from: nat): Option<SnapshotError>
    requires from <= |keys|
    decreases |keys| - from
  {
    if from == |keys| then None
    else if !IsGrantKey(keys[from]) then Some(MalformedKey(keys[from]))
    else if keys[from] in keys[..from] then Some(DuplicateKey(keys[from]))
    else FirstFault(keys, from + 1)
  }

  function StrictKeys(values: Option<seq<string>>): Result<seq<string>, SnapshotError> {
    match values
    case None => Err(PermissionsRequired)
    case Some(keys) =>
      match FirstFault(keys, 0)
      case Some(fault) => Err(fault)
      case None => Ok(keys)
  }

  method StrictResolvedPermissionKeys(values: Option<seq<string>>) returns (r: Result<seq<string>, SnapshotError>)
    ensures r == StrictKeys(values)
  {
    if values.None? {
      return Err(PermissionsRequired);
    }
    var keys := values.value;
    var seen: set<string> := {};
    var out: seq<string> := [];
    for i := 0 to |keys|
      invariant seen == set k | k in keys[..i]
      invariant out == keys[..i]
      invariant FirstFault(keys, 0) == FirstFault(keys, i)
    {
      var key := keys[i];
      var parts := Split(key, ':');
      var valid :=
        && |parts| == 2
        && ((parts[0] == "*" && parts[1] == "*") ||
            (parts[0] != "*" && IsSegment(parts[0]) && (parts[1] == "*" || IsSegment(parts[1]))));
      if !valid {
        return Err(MalformedKey(key));
      }
      if key in seen {
        return Err(DuplicateKey(key));
      }
      seen := seen + {key};
      out := out + [key];
      assert keys[..i + 1] == keys[..i] + [key];
    }
    assert keys[..|keys|] == keys;
    return Ok(out);
  }

  lemma {:induction false} FirstFaultNone(keys: seq<string>, from: nat)
    requires from <= |keys|
    ensures FirstFault(keys, from) == None <==>
            forall i | from <= i < |keys| :: IsGrantKey(keys[i]) && keys[i] !in keys[..i]
    decreases |keys| - from
  {
    if from < |keys| { FirstFaultNone(keys, from + 1); }
  }

  /** A list is accepted, unchanged, exactly when every key is a grant and no key is repeated. */
  lemma StrictKeysExactly(values: Option<seq<string>>)
    ensures StrictKeys(values).Ok? <==>
            && values.Some?
            && (forall k | k in values.value :: IsGrantKey(k))
            && Distinct(values.value)
    ensures StrictKeys(values).Ok? ==> StrictKeys(values).value == values.value
  {
    if values.Some? {
      var keys := values.value;
      FirstFaultNone(keys, 0);
      if Distinct(keys) {
        forall i | 0 <= i < |keys| ensures keys[i] !in keys[..i] {
          assert forall j | 0 <= j < i :: keys[..i][j] == keys[j];
        }
      }
      if forall i | 0 <= i < |keys| :: keys[i] !in keys[..i] {
        forall i, j | 0 <= i < j < |keys| ensures keys[i] != keys[j] {
          assert keys[..j][i] == keys[i];
        }
      }
    }
  }

  // ----- De-duplication

  /** Every element once, where it first occurs. */
  function FirstOccurrences(s: seq<string>): seq<string> {
    if s == [] then []
    else
      var before := FirstOccurrences(s[..|s| - 1]);
      if s[|s| - 1] in s[..|s| - 1] then before else before + [s[|s| - 1]]
  }

  function PositionOf(s: seq<string>, x: string): (i: nat)
    requires x in s
    ensures i < |s| && s[i] == x && forall k | 0 <= k < i :: s[k] != x
  {
    if s[0] == x then 0 else 1 + PositionOf(s[1..], x)
  }

  lemma PositionStable(s: seq<string>, x: string, last: string)
    requires x in s
    ensures PositionOf(s + [last], x) == PositionOf(s, x)
  {
    var i, j := PositionOf(s, x), PositionOf(s + [last], x);
    assert (s + [last])[i] == x;
    assert forall k | 0 <= k < i :: (s + [last])[k] == s[k];
  }

  /** What the flattening keeps: the same elements, each once, in order of first occurrence. */
  lemma {:induction false} FirstOccurrencesCorrect(s: seq<string>)
    ensures forall x :: x in FirstOccurrences(s) <==> x in s
    ensures Distinct(FirstOccurrences(s))
    ensures forall i, j | 0 <= i < j < |FirstOccurrences(s)| ::
              PositionOf(s, FirstOccurrences(s)[i]) < PositionOf(s, FirstOccurrences(s)[j])
  {
    if s != [] {
      var init, last := s[..|s| - 1], s[|s| - 1];
      var before, all := FirstOccurrences(init), FirstOccurrences(s);
      assert s == init + [last];
      FirstOccurrencesCorrect(init);
      forall i, j | 0 <= i < j < |all|
        ensures PositionOf(s, all[i]) < PositionOf(s, all[j])
      {
        assert all[i] == before[i] && before[i] in init;
        PositionStable(init, before[i], last);
        if j < |before| {
          assert before[j] in init;
          PositionStable(init, before[j], last);
        } else {
          assert last !in init;
          assert forall k | 0 <= k < |init| :: s[k] != last;
        }
      }
    }
  }

  // ----- Role snapshots

  datatype SnapshotRole = SnapshotRole(
    key: Option<string>, name: Option<string>, permissions: Option<seq<string>>)

  datatype SnapshotWire = SnapshotWire(
    applicationId: Option<string>, clientId: Option<string>, roles: Option<seq<SnapshotRole>>)

  predicate HeaderPresent(wire: SnapshotWire, clientID: string) {
    && wire.applicationId.Some? && IsUuid(wire.applicationId.value)
    && wire.clientId == Some(clientID)
    && wire.roles.Some?
  }

  predicate RolePresent(role: SnapshotRole) {
    && role.key.Some? && IsSegment(role.key.value)
    && role.name.Some? && !Blank(role.name.value)
    && role.permissions.Some?
  }

  function Grants(role: SnapshotRole): seq<string> {
    if role.permissions.Some? then role.permissions.value else []
  }

  /** The grants of all roles, one role after the other. */
  function AllGrants(roles: seq<SnapshotRole>): seq<string> {
    if roles == [] then [] else AllGrants(roles[..|roles| - 1]) + Grants(roles[|roles| - 1])
  }

  /** strings.SplitN(key, ":", 2) as a resource and an action. */
  function Definition(key: string): PermissionKey {
    var i := IndexOf(key, ':');
    if i < |key| then PermissionKey(key[..i], key[i + 1..]) else PermissionKey(key, "")
  }

  function Definitions(keys: seq<string>): (ds: seq<PermissionKey>)
    ensures |ds| == |keys|
    ensures forall i | 0 <= i < |keys| :: ds[i] == Definition(keys[i])
  {
    seq(|keys|, i requires 0 <= i < |keys| => Definition(keys[i]))
  }

  function Authorities(ds: seq<PermissionKey>): (keys: seq<string>)
    ensures |keys| == |ds|
    ensures forall i | 0 <= i < |ds| :: keys[i] == ds[i].Authority()
  {
    seq(|ds|, i requires 0 <= i < |ds| => ds[i].Authority())
  }

  function RoleFault(roles: seq<SnapshotRole>, i: nat): Option<SnapshotError>
    requires i < |roles|
  {
    if !RolePresent(roles[i]) then Some(RoleRequired)
    else if exists j | 0 <= j < i :: roles[j].key == roles[i].key then Some(DuplicateRole(roles[i].key.value))
    else
      match StrictKeys(roles[i].permissions)
      case Err(fault) => Some(fault)
      case Ok(_) => None
  }

  function FirstRoleFault(roles: seq<SnapshotRole>, from: nat): Option<SnapshotError>
    requires from <= |roles|
    decreases |roles| - from
  {
    if from == |roles| then None
    else if RoleFault(roles, from).Some? then RoleFault(roles, from)
    else FirstRoleFault(roles, from + 1)
  }

  function Snapshot(wire: SnapshotWire, clientID: string): Result<seq<PermissionKey>, SnapshotError> {
    if !HeaderPresent(wire, clientID) then Err(HeaderRequired)
    else
      match FirstRoleFault(wire.roles.value, 0)
      case Some(fault) => Err(fault)
      case None => Ok(Definitions(FirstOccurrences(AllGrants(wire.roles.value))))
  }

  /** What the loops have in hand after the grants `sofar`: the set of their keys, and each one once. */
  ghost predicate Collected(sofar: seq<string>, permissionKeys: set<string>, out: seq<PermissionKey>) {
    && (forall k :: k in permissionKeys <==> k in sofar)
    && out == Definitions(FirstOccurrences(sofar))
  }

  lemma CollectNext(sofar: seq<string>, key: string, permissionKeys: set<string>, out: seq<PermissionKey>)
    requires Collected(sofar, permissionKeys, out)
    ensures key in permissionKeys ==> Collected(sofar + [key], permissionKeys, out)
    ensures key !in permissionKeys ==> Collected(sofar + [key], permissionKeys + {key}, out + [Definition(key)])
  {
    OccurrencesAppend(sofar, key);
    DefinitionsAppend(FirstOccurrences(sofar), key);
  }

  lemma OccurrencesAppend(keys: seq<string>, key: string)
    ensures FirstOccurrences(keys + [key]) ==
            if key in keys then FirstOccurrences(keys) else FirstOccurrences(keys) + [key]
  {
    var next := keys + [key];
    assert next[..|next| - 1] == keys && next[|next| - 1] == key;
  }

  lemma DefinitionsAppend(keys: seq<string>, key: string)
    ensures Definitions(keys + [key]) == Definitions(keys) + [Definition(key)]
  {
  }

  /** The inner loop over one role's permissions, which skips what an earlier role already brought. */
  method AppendUnseen(ghost earlier: seq<string>, rolePermissions: seq<string>,
      permissionKeys: set<string>, out: seq<PermissionKey>)
    returns (permissionKeys': set<string>, out': seq<PermissionKey>)
    requires Collected(earlier, permissionKeys, out)
    ensures Collected(earlier + rolePermissions, permissionKeys', out')
  {
    permissionKeys', out' := permissionKeys, out;
    ghost var sofar := earlier;
    for j := 0 to |rolePermissions|
      invariant sofar == earlier + rolePermissions[..j]
      invariant Collected(sofar, permissionKeys', out')
    {
      var key := rolePermissions[j];
      CollectNext(sofar, key, permissionKeys', out');
      if key !in permissionKeys' {
        permissionKeys' := permissionKeys' + {key};
        out' := out' + [Definition(key)];
      }
      sofar := sofar + [key];
      assert rolePermissions[..j + 1] == rolePermissions[..j] + [key];
    }
    assert rolePermissions[..|rolePermissions|] == rolePermissions;
  }

  /** One turn of the outer loop up to the inner one: the checks on a role, which yield its grants. */
  method CheckRole(roles: seq<SnapshotRole>, i: nat, roleKeys: set<string>)
    returns (r: Result<seq<string>, SnapshotError>)
    requires i < |roles| && forall j | 0 <= j < i :: roles[j].key.Some?
    requires roleKeys == set j | 0 <= j < i :: roles[j].key.value
    ensures r.Err? ==> RoleFault(roles, i) == Some(r.error)
    ensures r.Ok? ==> RoleFault(roles, i) == None && roles[i].key.Some? && r.value == Grants(roles[i])
  {
    var role := roles[i];
    if !RolePresent(role) {
      return Err(RoleRequired);
    }
    if role.key.value in roleKeys {
      return Err(DuplicateRole(role.key.value));
    }
    r := StrictResolvedPermissionKeys(role.permissions);
    StrictKeysExactly(role.permissions);
  }

  lemma AllGrantsNext(roles: seq<SnapshotRole>, i: nat)
    requires i < |roles|
    ensures AllGrants(roles[..i + 1]) == AllGrants(roles[..i]) + Grants(roles[i])
  {
    assert roles[..i + 1][..i] == roles[..i];
  }

  method ParsePermissionSnapshot(wire: SnapshotWire, clientID: string)
    returns (r: Result<seq<PermissionKey>, SnapshotError>)
    ensures r == Snapshot(wire, clientID)
  {
    if !HeaderPresent(wire, clientID) {
      return Err(HeaderRequired);
    }
    var roles := wire.roles.value;
    var roleKeys: set<string> := {};
    var permissionKeys: set<string> := {};
    var out: seq<PermissionKey> := [];
    for i := 0 to |roles|
      invariant forall j | 0 <= j < i :: roles[j].key.Some?
      invariant roleKeys == set j | 0 <= j < i :: roles[j].key.value
      invariant Collected(AllGrants(roles[..i]), permissionKeys, out)
      invariant FirstRoleFault(roles, 0) == FirstRoleFault(roles, i)
    {
      var strict := CheckRole(roles, i, roleKeys);
      if strict.Err? {
        return Err(strict.error);
      }
      roleKeys := roleKeys + {roles[i].key.value};
      AllGrantsNext(roles, i);
      permissionKeys, out := AppendUnseen(AllGrants(roles[..i]), strict.value, permissionKeys, out);
    }
    assert roles[..|roles|] == roles;
    return Ok(out);
  }

  lemma {:induction false} FirstRoleFaultNone(roles: seq<SnapshotRole>, from: nat)
    requires from <= |roles|
    ensures FirstRoleFault(roles, from) == None <==>
            forall i | from <= i < |roles| :: RoleFault(roles, i) == None
    decreases |roles| - from
  {
    if from < |roles| { FirstRoleFaultNone(roles, from + 1); }
  }

  /** Exactly which snapshots are accepted. */
  lemma SnapshotAccepts(wire: SnapshotWire, clientID: string)
    ensures Snapshot(wire, clientID).Ok? <==>
            && wire.applicationId.Some? && IsUuid(wire.applicationId.value)
            && wire.clientId.Some? && wire.clientId.value == clientID && wire.roles.Some?
            && (forall role | role in wire.roles.value ::
                  && role.key.Some? && IsSegment(role.key.value)
                  && role.name.Some? && (exists c | c in role.name.value :: !IsSpace(c))
                  && role.permissions.Some?
                  && (forall k | k in role.permissions.value :: IsGrantKey(k))
                  && Distinct(role.permissions.value))
            && (forall i, j | 0 <= i < j < |wire.roles.value| :: wire.roles.value[i].key != wire.roles.value[j].key)
  {
    if HeaderPresent(wire, clientID) {
      var roles := wire.roles.value;
      FirstRoleFaultNone(roles, 0);
      forall i | 0 <= i < |roles|
        ensures RoleFault(roles, i) == None <==>
          && RolePresent(roles[i])
          && (forall k | k in Grants(roles[i]) :: IsGrantKey(k))
          && Distinct(Grants(roles[i]))
          && forall j | 0 <= j < i :: roles[j].key != roles[i].key
      {
        StrictKeysExactly(roles[i].permissions);
      }
      forall i, j | Snapshot(wire, clientID).Ok? && 0 <= i < j < |roles|
        ensures roles[i].key != roles[j].key
      {
        assert RoleFault(roles, j) == None;
      }
    }
  }

  /** Role `i` has this fault. */
  ghost predicate Refuses(roles: seq<SnapshotRole>, i: nat, fault: SnapshotError)
    requires i < |roles|
  {
    var role := roles[i];
    match fault
    case RoleRequired =>
      || role.key.None? || !IsSegment(role.key.value)
      || role.name.None? || Blank(role.name.value) || role.permissions.None?
    case DuplicateRole(key) => role.key == Some(key) && exists j | 0 <= j < i :: roles[j].key == Some(key)
    case MalformedKey(key) => role.permissions.Some? && key in role.permissions.value && !IsGrantKey(key)
    case DuplicateKey(key) =>
      role.permissions.Some?
      && exists m, n | 0 <= m < n < |role.permissions.value| :: role.permissions.value[m] == role.permissions.value[n] == key
    case _ => false
  }

  lemma {:induction false} FirstFaultReal(keys: seq<string>, from: nat) returns (n: nat)
    requires from <= |keys| && FirstFault(keys, from).Some?
    ensures n < |keys| && FirstFault(keys, from).value ==
              if !IsGrantKey(keys[n]) then MalformedKey(keys[n]) else DuplicateKey(keys[n])
    ensures IsGrantKey(keys[n]) ==> exists m | 0 <= m < n :: keys[m] == keys[n]
    decreases |keys| - from
  {
    n := from;
    if IsGrantKey(keys[from]) && keys[from] !in keys[..from] { n := FirstFaultReal(keys, from + 1); }
  }

  lemma {:induction false} FirstRoleFaultAt(roles: seq<SnapshotRole>, from: nat) returns (i: nat)
    requires from <= |roles| && FirstRoleFault(roles, from).Some?
    ensures i < |roles| && RoleFault(roles, i) == FirstRoleFault(roles, from)
    ensures forall j | from <= j < i :: RoleFault(roles, j) == None
    decreases |roles| - from
  {
    i := from;
    if RoleFault(roles, from).None? { i := FirstRoleFaultAt(roles, from + 1); }
  }

  /** A refused snapshot has a fault in its header, or in a role that the snapshot would be accepted up to. */
  lemma SnapshotRefuses(wire: SnapshotWire, clientID: string, fault: SnapshotError)
    requires Snapshot(wire, clientID) == Err(fault)
    ensures fault == HeaderRequired <==>
            || wire.applicationId.None? || !IsUuid(wire.applicationId.value)
            || wire.clientId.None? || wire.clientId.value != clientID || wire.roles.None?
    ensures fault != HeaderRequired ==>
              exists i | 0 <= i < |wire.roles.value| ::
                && Refuses(wire.roles.value, i, fault)
                && Snapshot(wire.(roles := Some(wire.roles.value[..i])), clientID).Ok?
  {
    if HeaderPresent(wire, clientID) {
      var roles := wire.roles.value;
      var i := FirstRoleFaultAt(roles, 0);
      if RolePresent(roles[i]) && FirstFault(Grants(roles[i]), 0).Some? {
        var n := FirstFaultReal(Grants(roles[i]), 0);
      }
      forall j | 0 <= j < i ensures RoleFault(roles[..i], j) == None {
        assert RoleFault(roles, j) == None && forall k | 0 <= k <= j :: roles[..i][k] == roles[k];
      }
      FirstRoleFaultNone(roles[..i], 0);
      assert Refuses(roles, i, fault);
    }
  }

  lemma {:induction false} InAllGrants(roles: seq<SnapshotRole>, key: string)
    ensures key in AllGrants(roles) <==> exists role | role in roles :: key in Grants(role)
  {
    if roles != [] {
      var n := |roles| - 1;
      InAllGrants(roles[..n], key);
      assert roles == roles[..n] + [roles[n]];
    }
  }

  lemma RejoinDefinition(key: string)
    requires IsGrantKey(key)
    ensures Definition(key).Authority() == key
  {
    SplitInTwo(key, ':');
    var i := IndexOf(key, ':');
    assert key == key[..i] + [':'] + key[i + 1..];
  }

  /** Flattening preserves authorization: a permission holds on the flattened, re-joined list exactly
      when it holds on the list of some role. */
  lemma FlatteningPreservesAuthorization(wire: SnapshotWire, clientID: string, target: PermissionKey)
    requires Snapshot(wire, clientID).Ok?
    ensures HasPermission(target, Authorities(Snapshot(wire, clientID).value)) <==>
            exists role | role in wire.roles.value :: HasPermission(target, Grants(role))
  {
    SnapshotAccepts(wire, clientID);
    var roles := wire.roles.value;
    var keys := FirstOccurrences(AllGrants(roles));
    FirstOccurrencesCorrect(AllGrants(roles));
    forall i | 0 <= i < |keys| ensures Authorities(Definitions(keys))[i] == keys[i] {
      assert keys[i] in keys;
      InAllGrants(roles, keys[i]);
      RejoinDefinition(keys[i]);
    }
    assert Authorities(Definitions(keys)) == keys;
    HasPermissionExactly(target, keys);
    forall role | role in roles
      ensures HasPermission(target, Grants(role)) <==> exists g | g in Grants(role) :: Matches(target, g)
    {
      HasPermissionExactly(target, Grants(role));
    }
    forall g | Matches(target, g)
      ensures g in keys <==> exists role | role in roles :: g in Grants(role)
    {
      InAllGrants(roles, g);
    }
  }
}
