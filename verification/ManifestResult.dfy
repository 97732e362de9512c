/** The check of a synchronization result against the manifest that was sent (permission_manifest.go). */
module ManifestResult {
  import opened Text
  import opened Json
  import opened Permission
  import opened Manifest

  datatype Item = Item(key: string, operation: string, reason: string)

  datatype Drift = Drift(key: string, kind: string, source: string)

  datatype Counts = Counts(created: int, updated: int, unaltered: int, resurrected: int, conflict: int, drift: int)

  datatype SyncResult = SyncResult(
    mode: string, manifestId: string, revision: string, fingerprint: string, applied: bool,
    results: seq<Item>, drift: seq<Drift>, counts: Counts)

  datatype ResultFault = IdentityMismatch | InvalidItem | UnknownOperation | InvalidDrift | CountsMismatch

  const OPERATIONS := {"CREATE", "UPDATE", "UNCHANGED", "RESURRECT", "CONFLICT"}
  const REASONS := {"DECLARATION_ACCEPTED", "MANUAL_COLLISION", "LEGACY_CODE_UNATTRIBUTED", "CODE_OWNER_COLLISION"}
  const DRIFT_KINDS := {"MANUAL_COLLISION", "LEGACY_CODE_UNATTRIBUTED", "CODE_OWNER_COLLISION", "ABSENT_DECLARATION"}
  const SOURCES := {"CODE", "MANUAL"}

  predicate IsFingerprint(s: string) {
    |s| == 64 && forall c | c in s :: IsLowerHex(c)
  }

  predicate ValidManifestKey(value: string) {
    var parts := Split(value, ':');
    |parts| == 2 && IsSegment(parts[0]) && IsSegment(parts[1])
  }

  predicate SameIdentity(result: SyncResult, request: Prepared) {
    && result.mode == request.mode && result.manifestId == request.manifestId
    && result.revision == request.revision && result.fingerprint == request.fingerprint
    && IsFingerprint(result.fingerprint)
    && result.applied == (request.mode == "upsert")
  }

  predicate ValidItem(item: Item, operations: set<string>) {
    ValidManifestKey(item.key) && item.reason in REASONS && item.operation in operations
  }

  predicate ValidDrift(d: Drift) {
    ValidManifestKey(d.key) && d.kind in DRIFT_KINDS && d.source in SOURCES
  }

  /** How many items carry an operation. */
  function Tally(items: seq<Item>, operation: string): nat {
    if items == [] then 0
    else Tally(items[..|items| - 1], operation) + (if items[|items| - 1].operation == operation then 1 else 0)
  }

  ghost predicate ItemsOrdered(items: seq<Item>) {
    forall i, j | 0 <= i < j < |items| :: Less(items[i].key, items[j].key)
  }

  ghost predicate DriftOrdered(drift: seq<Drift>) {
    forall i, j | 0 <= i < j < |drift| :: Less(drift[i].key, drift[j].key)
  }

  ghost predicate CountsAgree(result: SyncResult) {
    result.counts == Counts(
      Tally(result.results, "CREATE"), Tally(result.results, "UPDATE"), Tally(result.results, "UNCHANGED"),
      Tally(result.results, "RESURRECT"), Tally(result.results, "CONFLICT"), |result.drift|)
  }

  ghost predicate ResultAccepted(result: SyncResult, request: Prepared) {
    && SameIdentity(result, request)
    && (forall i | i in result.results :: ValidItem(i, OPERATIONS)) && ItemsOrdered(result.results)
    && (forall d | d in result.drift :: ValidDrift(d)) && DriftOrdered(result.drift)
    && CountsAgree(result)
  }

  /** The loops' test `key <= last` fails exactly when the key is larger than the one before. */
  lemma NotAtMost(a: string, b: string)
    ensures !AtMost(b, a) <==> Less(a, b)
  {
    AtMostTotal(a, b);
    AtMostReflexive(a);
    if AtMost(a, b) && AtMost(b, a) { AtMostAntisymmetric(a, b); }
  }

  lemma ItemNeighbours(items: seq<Item>)
    ensures ItemsOrdered(items) <==> forall i | 0 < i < |items| :: Less(items[i - 1].key, items[i].key)
  {
    if forall i | 0 < i < |items| :: Less(items[i - 1].key, items[i].key) {
      var keys := seq(|items|, i requires 0 <= i < |items| => items[i].key);
      NeighboursSuffice(keys);
      forall i, j | 0 <= i < j < |items| ensures Less(items[i].key, items[j].key) { assert Less(keys[i], keys[j]); }
    }
  }

  lemma DriftNeighbours(drift: seq<Drift>)
    ensures DriftOrdered(drift) <==> forall i | 0 < i < |drift| :: Less(drift[i - 1].key, drift[i].key)
  {
    if forall i | 0 < i < |drift| :: Less(drift[i - 1].key, drift[i].key) {
      var keys := seq(|drift|, i requires 0 <= i < |drift| => drift[i].key);
      NeighboursSuffice(keys);
      forall i, j | 0 <= i < j < |drift| ensures Less(drift[i].key, drift[j].key) { assert Less(keys[i], keys[j]); }
    }
  }

  lemma TallyAppend(items: seq<Item>, i: nat, operation: string)
    requires i < |items|
    ensures Tally(items[..i + 1], operation) ==
            Tally(items[..i], operation) + if items[i].operation == operation then 1 else 0
  {
    assert items[..i + 1][..i] == items[..i];
  }

  function NoOperations(): (m: map<string, int>)
    ensures m.Keys == OPERATIONS && forall op | op in m :: m[op] == 0
  {
    map["CREATE" := 0, "UPDATE" := 0, "UNCHANGED" := 0, "RESURRECT" := 0, "CONFLICT" := 0]
  }

  ghost predicate Tallied(operations: map<string, int>, items: seq<Item>) {
    forall op | op in operations :: operations[op] == Tally(items, op)
  }

  method CountItem(operations: map<string, int>, items: seq<Item>, i: nat) returns (operations': map<string, int>)
    requires i < |items| && items[i].operation in operations && Tallied(operations, items[..i])
    ensures operations'.Keys == operations.Keys && Tallied(operations', items[..i + 1])
  {
    forall op { TallyAppend(items, i, op); }
    var op := items[i].operation;
    operations' := operations[op := operations[op] + 1];
  }

  /** The loop over the results, which counts operations as it goes, starting from zeros. */
  method ValidateItems(items: seq<Item>, zeros: map<string, int>)
    returns (fault: Option<ResultFault>, operations: map<string, int>)
    requires forall op | op in zeros :: zeros[op] == 0
    ensures fault.None? <==> (forall i | i in items :: ValidItem(i, zeros.Keys)) && ItemsOrdered(items)
    ensures fault.None? ==> operations.Keys == zeros.Keys && Tallied(operations, items)
    ensures fault.Some? ==> fault.value != IdentityMismatch
  {
    fault := None;
    operations := zeros;
    var last := "";
    ItemNeighbours(items);
    for i := 0 to |items|
      invariant operations.Keys == zeros.Keys
      invariant Tallied(operations, items[..i])
      invariant last == if i == 0 then "" else items[i - 1].key
      invariant forall j | 0 <= j < i :: ValidItem(items[j], zeros.Keys)
      invariant forall j | 0 < j < i :: Less(items[j - 1].key, items[j].key)
    {
      var item := items[i];
      assert item in items && (i > 0 ==> items[i - 1].key == last);
      NotAtMost(last, item.key);
      if !ValidManifestKey(item.key) || AtMost(item.key, last) || item.reason !in REASONS {
        return Some(InvalidItem), operations;
      }
      if item.operation !in operations {
        return Some(UnknownOperation), operations;
      }
      operations := CountItem(operations, items, i);
      last := item.key;
    }
    assert items[..|items|] == items;
  }

  /** The loop over the drift. */
  method ValidateDrift(drift: seq<Drift>) returns (ok: bool)
    ensures ok <==> (forall d | d in drift :: ValidDrift(d)) && DriftOrdered(drift)
  {
    var last := "";
    DriftNeighbours(drift);
    for i := 0 to |drift|
      invariant last == if i == 0 then "" else drift[i - 1].key
      invariant forall j | 0 <= j < i :: ValidDrift(drift[j])
      invariant forall j | 0 < j < i :: Less(drift[j - 1].key, drift[j].key)
    {
      var item := drift[i];
      assert item in drift && (i > 0 ==> drift[i - 1].key == last);
      NotAtMost(last, item.key);
      if !ValidManifestKey(item.key) || AtMost(item.key, last) || item.kind !in DRIFT_KINDS || item.source !in SOURCES {
        return false;
      }
      last := item.key;
    }
    return true;
  }

  method ValidateManifestResult(result: SyncResult, request: Prepared) returns (fault: Option<ResultFault>)
    ensures fault.None? <==> ResultAccepted(result, request)
    ensures fault == Some(IdentityMismatch) <==> !SameIdentity(result, request)
  {
    if !SameIdentity(result, request) {
      return Some(IdentityMismatch);
    }
    var itemFault, operations := ValidateItems(result.results, NoOperations());
    if itemFault.Some? {
      return itemFault;
    }
    var driftOk := ValidateDrift(result.drift);
    if !driftOk {
      return Some(InvalidDrift);
    }
    var counts := result.counts;
    if counts.created != operations["CREATE"] || counts.updated != operations["UPDATE"]
      || counts.unaltered != operations["UNCHANGED"] || counts.resurrected != operations["RESURRECT"]
      || counts.conflict != operations["CONFLICT"] || counts.drift != |result.drift|
    {
      return Some(CountsMismatch);
    }
    return None;
  }

  /** A manifest key is the wire form of one concrete permission. */
  lemma ManifestKeysAreConcrete(value: string)
    ensures ValidManifestKey(value) <==> exists key: PermissionKey | key.IsConcrete() :: value == key.Authority()
  {
    JoinSplit(value, ':');
    if ValidManifestKey(value) {
      var parts := Split(value, ':');
      var key := PermissionKey(parts[0], parts[1]);
      assert key.IsConcrete() && value == key.Authority();
    }
    forall key: PermissionKey | key.IsConcrete() && value == key.Authority() ensures ValidManifestKey(value) {
      assert value == key.resource + [':'] + key.action;
      SplitPrefix(key.resource, ':', key.action);
      SplitWhole(key.action, ':');
    }
  }

  lemma {:induction false} TalliesCoverItems(items: seq<Item>)
    requires forall i | i in items :: i.operation in OPERATIONS
    ensures Tally(items, "CREATE") + Tally(items, "UPDATE") + Tally(items, "UNCHANGED")
            + Tally(items, "RESURRECT") + Tally(items, "CONFLICT") == |items|
  {
    if items != [] {
      TalliesCoverItems(items[..|items| - 1]);
      assert items[|items| - 1] in items;
    }
  }

  /** In an accepted result the counts add up: every item is counted exactly once, and no key is
      reported twice. */
  lemma AcceptedCountsAddUp(result: SyncResult, request: Prepared)
    requires ResultAccepted(result, request)
    ensures var c := result.counts;
            && c.created + c.updated + c.unaltered + c.resurrected + c.conflict == |result.results|
            && c.drift == |result.drift|
    ensures forall i, j | 0 <= i < j < |result.results| :: result.results[i].key != result.results[j].key
    ensures forall i, j | 0 <= i < j < |result.drift| :: result.drift[i].key != result.drift[j].key
  {
    TalliesCoverItems(result.results);
    assert forall i, j | 0 <= i < j < |result.results| :: Less(result.results[i].key, result.results[j].key);
    assert forall i, j | 0 <= i < j < |result.drift| :: Less(result.drift[i].key, result.drift[j].key);
  }

  /** An accepted result answers the manifest that was sent: its mode, identity and revision, a fingerprint of
      64 lower-case hexadecimal digits that is the hash of the canonical text of the sorted declarations, and
      it is applied exactly when that was asked for. */
  lemma AcceptedResultAnswers(q: Request, hash: string -> string, result: SyncResult)
    requires q.permissions.Some? && ResultAccepted(result, Canonical(q, hash))
    ensures result.mode == q.mode && result.manifestId == q.manifestId && result.revision == q.revision
    ensures result.fingerprint == hash(Jcs(ManifestJson(SortBy(q.permissions.value, ByKey))))
    ensures |result.fingerprint| == 64 && forall c | c in result.fingerprint :: '0' <= c <= '9' || 'a' <= c <= 'f'
    ensures result.applied <==> q.mode == "upsert"
  {
    assert SameIdentity(result, Canonical(q, hash));
  }
}
