/** Permission keys, the matcher (authz/permission.go), and the three grammars for a grant. */
module Permission {
  import opened Text

  /** The character class of every segment pattern in the SDK. */
  predicate SegmentChar(c: char) {
    'a' <= c <= 'z' || '0' <= c <= '9' || c == '_' || c == '-'
  }

  predicate IsSegment(s: string) {
    1 <= |s| <= 128 && forall c | c in s :: SegmentChar(c)
  }

  datatype PermissionKey = PermissionKey(resource: string, action: string) {
    function Authority(): string {
      resource + ":" + action
    }

    predicate IsConcrete() {
      IsSegment(resource) && IsSegment(action)
    }
  }

  datatype InvalidPermission = InvalidPermission(raw: string)

  function ParsePermission(s: string): Result<PermissionKey, InvalidPermission> {
    if Count(s, ':') != 1 then Err(InvalidPermission(s))
    else
      var idx := IndexOf(s, ':');
      if idx <= 0 || idx >= |s| - 1 then Err(InvalidPermission(s))
      else Ok(PermissionKey(s[..idx], s[idx + 1..]))
  }

  predicate Matches(target: PermissionKey, granted: string) {
    && target.IsConcrete()
    && match ParsePermission(granted)
       case Err(_) => false
       case Ok(key) =>
         if key.resource == "*" then key.action == "*"
         else if !IsSegment(key.resource) then false
         else if key.action == "*" then key.resource == target.resource
         else IsSegment(key.action) && key == target
  }

  predicate HasPermission(target: PermissionKey, granted: seq<string>) {
    granted != [] && (Matches(target, granted[0]) || HasPermission(target, granted[1..]))
  }

  predicate HasAllPermissions(targets: seq<PermissionKey>, granted: seq<string>) {
    (forall t | t in targets :: HasPermission(t, granted)) && |targets| > 0
  }

  predicate HasAnyPermission(targets: seq<PermissionKey>, granted: seq<string>) {
    exists t | t in targets :: HasPermission(t, granted)
  }

  // ----- Parsing

  /** Parsing succeeds on exactly the strings with two nonempty parts around one colon, and
      Authority undoes it. */
  lemma ParseExactly(s: string, key: PermissionKey)
    ensures ParsePermission(s) == Ok(key) <==>
            && s == key.Authority()
            && key.resource != "" && key.action != ""
            && ':' !in key.resource && ':' !in key.action
  {
    SplitInTwo(s, ':');
    JoinSplit(s, ':');
    if ParsePermission(s) == Ok(key) {
      var idx := IndexOf(s, ':');
      assert s == s[..idx] + [':'] + s[idx + 1..];
      assert Split(s, ':') == [key.resource, key.action];
      assert key.resource in Split(s, ':') && key.action in Split(s, ':');
    }
    if s == key.Authority() && ':' !in key.resource && ':' !in key.action {
      assert s == key.resource + [':'] + key.action;
      SplitPrefix(key.resource, ':', key.action);
      SplitWhole(key.action, ':');
      IndexOfPrefix(key.resource, ':', key.action);
      assert s[..|key.resource|] == key.resource;
      assert s[|key.resource| + 1..] == key.action;
    }
  }

  /** Concrete keys survive the trip through their wire form. */
  lemma ParseInvertsAuthority(key: PermissionKey)
    requires key.IsConcrete()
    ensures ParsePermission(key.Authority()) == Ok(key)
  {
    ParseExactly(key.Authority(), key);
  }

  // ----- Matching

  /** A concrete target is granted by its own key, by its resource with an action wildcard, and by
      the full wildcard; nothing else grants anything. */
  lemma MatchesExactly(target: PermissionKey, granted: string)
    ensures Matches(target, granted) <==>
            && target.IsConcrete()
            && granted in {target.Authority(), target.resource + ":*", "*:*"}
  {
    if target.IsConcrete() {
      assert ':' !in "*" && "*" != "";
      ParseExactly(granted, target);
      ParseExactly(granted, PermissionKey(target.resource, "*"));
      ParseExactly(granted, PermissionKey("*", "*"));
      assert target.resource + ":" + "*" == target.resource + ":*";
      assert "*" + ":" + "*" == "*:*";
      if ParsePermission(granted).Ok? {
        ParseExactly(granted, ParsePermission(granted).value);
      }
      assert !IsSegment("*") by { assert '*' in "*"; }
    }
  }

  lemma {:induction false} HasPermissionExactly(target: PermissionKey, granted: seq<string>)
    ensures HasPermission(target, granted) <==> exists g | g in granted :: Matches(target, g)
  {
    if granted != [] {
      HasPermissionExactly(target, granted[1..]);
      assert granted == [granted[0]] + granted[1..];
    }
  }

  /** All of some targets are held, and there are some, exactly when each has a grant that matches it. */
  lemma HasAllPermissionsExactly(targets: seq<PermissionKey>, granted: seq<string>)
    ensures HasAllPermissions(targets, granted) <==>
            targets != [] && forall i | 0 <= i < |targets| :: exists g | g in granted :: Matches(targets[i], g)
  {
    forall i | 0 <= i < |targets|
      ensures HasPermission(targets[i], granted) <==> exists g | g in granted :: Matches(targets[i], g)
    {
      HasPermissionExactly(targets[i], granted);
    }
    assert (forall t | t in targets :: HasPermission(t, granted))
           <==> forall i | 0 <= i < |targets| :: HasPermission(targets[i], granted);
  }

  /** Any of some targets is held exactly when one of them has a grant that matches it. */
  lemma HasAnyPermissionExactly(targets: seq<PermissionKey>, granted: seq<string>)
    ensures HasAnyPermission(targets, granted) <==>
            exists i, g | 0 <= i < |targets| && g in granted :: Matches(targets[i], g)
  {
    forall i | 0 <= i < |targets| { HasPermissionExactly(targets[i], granted); }
    if HasAnyPermission(targets, granted) {
      var t :| t in targets && HasPermission(t, granted);
      var i :| 0 <= i < |targets| && targets[i] == t;
      var g :| g in granted && Matches(targets[i], g);
    }
  }

  /** More grants never take a permission away. */
  lemma HasPermissionMonotone(target: PermissionKey, fewer: seq<string>, more: seq<string>)
    requires forall g | g in fewer :: g in more
    ensures HasPermission(target, fewer) ==> HasPermission(target, more)
  {
    HasPermissionExactly(target, fewer);
    HasPermissionExactly(target, more);
  }

  lemma HasPermissionConcat(target: PermissionKey, left: seq<string>, right: seq<string>)
    ensures HasPermission(target, left + right) <==>
            HasPermission(target, left) || HasPermission(target, right)
  {
    HasPermissionExactly(target, left);
    HasPermissionExactly(target, right);
    HasPermissionExactly(target, left + right);
    HasPermissionMonotone(target, left, left + right);
    HasPermissionMonotone(target, right, left + right);
  }

  /** README.md line 115 promises that "*:action" matches; the code rejects it for every target. */
  lemma ActionOnlyWildcardNeverMatches(target: PermissionKey, action: string)
    ensures Matches(target, "*:" + action) ==> action == "*"
  {
    MatchesExactly(target, "*:" + action);
    if Matches(target, "*:" + action) {
      var g := "*:" + action;
      assert g[0] == '*' && g[2..] == action;
      assert target.Authority()[0] == target.resource[0] == (target.resource + ":*")[0];
      assert target.resource[0] in target.resource;
      assert "*:*"[2..] == "*";
    }
  }

  // ----- The grammars of a grant

  /** client.go's grammar, on the split wire key. */
  predicate IsGrantKey(key: string) {
    var parts := Split(key, ':');
    && |parts| == 2
    && ((parts[0] == "*" && parts[1] == "*") ||
        (parts[0] != "*" && IsSegment(parts[0]) && (parts[1] == "*" || IsSegment(parts[1]))))
  }

  predicate IsGrantSegment(s: string) {
    s == "*" || IsSegment(s)
  }

  /** authorization_management_client.go's grammar, on a resource and an action. */
  predicate ValidPermissionGrant(resource: string, action: string) {
    IsGrantSegment(resource) && IsGrantSegment(action) && !(resource == "*" && action != "*")
  }

  lemma GrantPairAgrees(resource: string, action: string)
    ensures ValidPermissionGrant(resource, action) <==> IsGrantKey(resource + ":" + action)
  {
    var key := resource + ":" + action;
    assert key == resource + [':'] + action;
    JoinSplit(key, ':');
    if ':' !in resource && ':' !in action {
      SplitPrefix(resource, ':', action);
      SplitWhole(action, ':');
    }
    if IsGrantKey(key) {
      var parts := Split(key, ':');
      assert key == parts[0] + [':'] + parts[1];
      OnlyColon(parts[0], parts[1], |resource|);
      assert key[..|resource|] == resource && key[..|resource|] == parts[0];
      assert key[|resource| + 1..] == action && key[|resource| + 1..] == parts[1];
    }
  }

  /** In two colon-free parts around a colon, that colon is the only one. */
  lemma OnlyColon(left: string, right: string, i: nat)
    requires ':' !in left && ':' !in right
    requires i < |left + ":" + right| && (left + ":" + right)[i] == ':'
    ensures i == |left|
  {
    assert forall k | 0 <= k < |left| :: left[k] != ':';
    assert forall k | 0 <= k < |right| :: right[k] != ':';
  }

  lemma MatchedIsGrant(target: PermissionKey, key: string)
    requires Matches(target, key)
    ensures IsGrantKey(key)
  {
    MatchesExactly(target, key);
    if key == target.Authority() {
      GrantPairAgrees(target.resource, target.action);
    } else if key == target.resource + ":*" {
      assert key == target.resource + ":" + "*";
      GrantPairAgrees(target.resource, "*");
    } else {
      assert key == "*" + ":" + "*";
      GrantPairAgrees("*", "*");
    }
  }

  /** All three grammars describe the same keys: the resolve response, the management API and the
      matcher accept a grant or refuse it together. */
  lemma GrammarsAgree(key: string)
    ensures IsGrantKey(key) <==>
            exists resource, action | ValidPermissionGrant(resource, action) :: key == resource + ":" + action
    ensures IsGrantKey(key) <==> exists target :: Matches(target, key)
  {
    if IsGrantKey(key) {
      var parts := Split(key, ':');
      JoinSplit(key, ':');
      assert key == parts[0] + ":" + parts[1];
      assert IsSegment("a");
      var target := PermissionKey(if parts[0] == "*" then "a" else parts[0], if parts[1] == "*" then "a" else parts[1]);
      MatchesExactly(target, key);
      assert parts[0] + ":" + "*" == parts[0] + ":*";
      assert "*" + ":" + "*" == "*:*";
    }
    forall resource, action | ValidPermissionGrant(resource, action) && key == resource + ":" + action
      ensures IsGrantKey(key)
    {
      GrantPairAgrees(resource, action);
    }
    forall target | Matches(target, key) ensures IsGrantKey(key) {
      MatchedIsGrant(target, key);
    }
  }

  /** With no grants every question is answered no; asking for all of nothing is answered no as well. */
  lemma NothingGrantsNothing(target: PermissionKey, targets: seq<PermissionKey>)
    ensures !HasPermission(target, []) && !HasAllPermissions(targets, []) && !HasAnyPermission(targets, [])
  {
    assert |targets| > 0 ==> targets[0] in targets;
  }
}
