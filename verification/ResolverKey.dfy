/** The key under which the permission resolver caches and shares answers (authz/http_resolver.go). */
module ResolverKey {
  import opened Text

  const Itself: string -> string := (s: string) => s

  function SortStrings(s: seq<string>): seq<string> {
    SortBy(s, Itself)
  }

  function KeyOf(clientID: string, roles: seq<string>): string {
    clientID + "|" + Join(SortStrings(roles), ',')
  }

  method CacheKey(clientID: string, roles: seq<string>) returns (key: string)
    ensures key == KeyOf(clientID, roles)
  {
    var cp := new string[|roles|](i requires 0 <= i < |roles| => roles[i]);
    assert cp[..] == roles;
    Sort(cp, Itself);
    SortByCorrect(roles, Itself);
    SortedUnique(cp[..], SortStrings(roles), Itself);
    key := clientID + "|";
    ghost var sorted := cp[..];
    for i := 0 to cp.Length
      invariant cp[..] == sorted
      invariant key + Remaining(sorted, i) == clientID + "|" + Join(sorted, ',')
    {
      RoleWritten(key, sorted, i);
      if i > 0 {
        key := key + ",";
      }
      key := key + cp[i];
    }
  }

  /** What is still to be written after `i` roles, with its leading comma. */
  ghost function Remaining(sorted: seq<string>, i: nat): string
    requires i <= |sorted|
  {
    (if 0 < i < |sorted| then "," else "") + Join(sorted[i..], ',')
  }

  lemma RemainingStep(sorted: seq<string>, i: nat)
    requires i < |sorted|
    ensures Remaining(sorted, i) == (if i > 0 then "," else "") + sorted[i] + Remaining(sorted, i + 1)
  {
    assert sorted[i..][1..] == sorted[i + 1..];
    if i + 1 < |sorted| {
      Append2(sorted[i], ",", Join(sorted[i + 1..], ','));
      Append2(if i > 0 then "," else "", sorted[i], Remaining(sorted, i + 1));
    }
  }

  /** One turn of the loop moves a role from what remains into the key. */
  lemma RoleWritten(key: string, sorted: seq<string>, i: nat)
    requires i < |sorted|
    ensures var started := if i > 0 then key + "," else key;
            started + sorted[i] + Remaining(sorted, i + 1) == key + Remaining(sorted, i)
  {
    RemainingStep(sorted, i);
    if i > 0 {
      Append3(key, ",", sorted[i], Remaining(sorted, i + 1));
    } else {
      assert "" + sorted[i] == sorted[i];
      Append2(key, sorted[i], Remaining(sorted, i + 1));
    }
  }

  // ----- What a key identifies

  /** Role names without the two separators. The client identifier is unrestricted. */
  ghost predicate CleanRoles(roles: seq<string>) {
    forall r | r in roles :: ',' !in r && '|' !in r
  }

  lemma {:induction false} JoinClean(parts: seq<string>, c: char)
    requires c != ','
    requires forall p | p in parts :: c !in p
    ensures c !in Join(parts, ',')
  {
    if |parts| > 1 { JoinClean(parts[1..], c); }
  }

  /** Two texts around a bar agree when what follows the last bar is free of bars. */
  lemma LastBar(a: string, b: string, s: string, t: string)
    requires '|' !in s && '|' !in t
    requires a + "|" + s == b + "|" + t
    ensures a == b && s == t
  {
    var u := a + "|" + s;
    assert |a| == |b| by {
      assert forall i | |a| < i < |u| :: u[i] == s[i - |a| - 1];
      assert forall i | |b| < i < |u| :: u[i] == t[i - |b| - 1];
      assert u[|a|] == '|' && u[|b|] == '|';
    }
    assert u[..|a|] == a && u[..|b|] == b;
    assert u[|a| + 1..] == s && u[|b| + 1..] == t;
  }

  /** The key identifies the client and the roles up to order, whatever the client identifier contains. */
  lemma KeyIdentifies(c1: string, r1: seq<string>, c2: string, r2: seq<string>)
    requires r1 != [] && r2 != [] && CleanRoles(r1) && CleanRoles(r2)
    ensures KeyOf(c1, r1) == KeyOf(c2, r2) <==> c1 == c2 && multiset(r1) == multiset(r2)
  {
    var s1, s2 := SortStrings(r1), SortStrings(r2);
    SortByCorrect(r1, Itself);
    SortByCorrect(r2, Itself);
    forall r | r in s1 ensures r in r1 { assert r in multiset(s1); }
    forall r | r in s2 ensures r in r2 { assert r in multiset(s2); }
    JoinClean(s1, '|');
    JoinClean(s2, '|');
    if KeyOf(c1, r1) == KeyOf(c2, r2) {
      LastBar(c1, c2, Join(s1, ','), Join(s2, ','));
      SplitJoin(s1, ',');
      SplitJoin(s2, ',');
    }
    if multiset(r1) == multiset(r2) {
      SortedUnique(s1, s2, Itself);
    }
  }

  /** Without the assumption the key is ambiguous: a comma, or a bar, in a role lets two requests that
      differ share a key, and so an answer. */
  lemma SeparatorsCollide()
    ensures KeyOf("app", ["a,b"]) == KeyOf("app", ["a", "b"])
    ensures KeyOf("app", ["x|a"]) == KeyOf("app|x", ["a"])
  {
    assert AtMost("a", "b");
    assert SortStrings(["b"]) == ["b"];
    assert SortStrings(["a", "b"]) == ["a", "b"];
    assert SortStrings(["a,b"]) == ["a,b"];
    assert ["a", "b"][1..] == ["b"];
    assert SortStrings(["x|a"]) == ["x|a"] && SortStrings(["a"]) == ["a"];
    assert "app" + "|" + "x|a" == "app|x" + "|" + "a";
  }

  /** A nonempty request asks for the same thing as another. */
  ghost predicate SameRequest(c1: string, r1: seq<string>, c2: string, r2: seq<string>) {
    c1 == c2 && multiset(r1) == multiset(r2)
  }

  /** The order of the roles never shows in the key, separators or not. */
  lemma SameRequestSameKey(c1: string, r1: seq<string>, c2: string, r2: seq<string>)
    requires SameRequest(c1, r1, c2, r2)
    ensures KeyOf(c1, r1) == KeyOf(c2, r2)
  {
    SortByCorrect(r1, Itself);
    SortByCorrect(r2, Itself);
    SortedUnique(SortStrings(r1), SortStrings(r2), Itself);
  }

  /** A comma at which a role splits into two parts in sorted order. */
  ghost predicate SplitsSorted(role: string, i: nat) {
    i < |role| && role[i] == ',' && AtMost(role[..i], role[i + 1..])
  }

  ghost predicate OwnsKey(clientID: string, roles: seq<string>) {
    forall c, r | r != [] && KeyOf(c, r) == KeyOf(clientID, roles) :: SameRequest(c, r, clientID, roles)
  }

  lemma SortOne(role: string)
    ensures SortStrings([role]) == [role]
  {
    assert [role][1..] == [];
    assert SortBy([], Itself) == [];
  }

  lemma SortTwo(a: string, b: string)
    requires AtMost(a, b)
    ensures SortStrings([a, b]) == [a, b]
    ensures Join([a, b], ',') == a + "," + b
  {
    assert [a, b][1..] == [b];
    SortOne(b);
  }

  /** With two roles or more the key is always shared: the joined text could be a single role. */
  lemma SeveralRolesShare(clientID: string, roles: seq<string>)
    requires |roles| >= 2
    ensures !OwnsKey(clientID, roles)
  {
    var joined := Join(SortStrings(roles), ',');
    SortOne(joined);
    assert KeyOf(clientID, [joined]) == KeyOf(clientID, roles);
    if multiset([joined]) == multiset(roles) {
      SameSize([joined], roles);
      assert false;
    }
  }

  /** Exactly which nonempty requests have a key of their own among all requests, role names included
      that hold separators: a single role, no bar on either side, and no comma at which the role could
      have been two sorted ones. This is why the vocabulary of roles must be free of both separators. */
  lemma OwnsKeyExactly(clientID: string, roles: seq<string>)
    requires roles != []
    ensures OwnsKey(clientID, roles) <==>
            && |roles| == 1
            && '|' !in clientID && '|' !in roles[0]
            && forall i: nat :: !SplitsSorted(roles[0], i)
  {
    if |roles| >= 2 {
      SeveralRolesShare(clientID, roles);
    } else {
      var role := roles[0];
      assert roles == [role];
      SortOne(role);
      if '|' in clientID {
        BarInClientShares(clientID, role);
      } else if '|' in role {
        BarInRoleShares(clientID, role);
      } else if i: nat :| SplitsSorted(role, i) {
        CommaShares(clientID, role, i);
      } else {
        SingleRoleOwns(clientID, role);
      }
    }
  }

  lemma BarInClientShares(clientID: string, role: string)
    requires '|' in clientID
    ensures !OwnsKey(clientID, [role])
  {
    var i :| 0 <= i < |clientID| && clientID[i] == '|';
    var c, r := clientID[..i], clientID[i + 1..] + "|" + role;
    assert clientID == c + "|" + clientID[i + 1..];
    SortOne(role);
    SortOne(r);
    assert KeyOf(c, [r]) == KeyOf(clientID, [role]);
    assert c != clientID;
  }

  lemma BarInRoleShares(clientID: string, role: string)
    requires '|' in role
    ensures !OwnsKey(clientID, [role])
  {
    var i :| 0 <= i < |role| && role[i] == '|';
    var c, r := clientID + "|" + role[..i], role[i + 1..];
    assert role == role[..i] + "|" + r;
    SortOne(role);
    SortOne(r);
    assert KeyOf(c, [r]) == KeyOf(clientID, [role]);
    assert |c| > |clientID|;
  }

  lemma CommaShares(clientID: string, role: string, i: nat)
    requires SplitsSorted(role, i)
    ensures !OwnsKey(clientID, [role])
  {
    var r := [role[..i], role[i + 1..]];
    assert role == role[..i] + "," + role[i + 1..];
    SortOne(role);
    SortTwo(role[..i], role[i + 1..]);
    assert KeyOf(clientID, r) == KeyOf(clientID, [role]);
    if multiset(r) == multiset([role]) {
      SameSize(r, [role]);
      assert false;
    }
  }

  lemma {:induction false} HeadOfJoin(parts: seq<string>)
    requires |parts| >= 2
    requires AtMost(parts[0], parts[1])
    ensures AtMost(parts[0], Join(parts[1..], ','))
  {
    if |parts| > 2 {
      PrefixAtMost(parts[1], [','] + Join(parts[1..][1..], ','));
      assert Join(parts[1..], ',') == parts[1] + ([','] + Join(parts[1..][1..], ','));
      AtMostTransitive(parts[0], parts[1], Join(parts[1..], ','));
    }
  }

  lemma {:induction false} PrefixAtMost(a: string, b: string)
    ensures AtMost(a, a + b)
  {
    if a != [] {
      assert (a + b)[1..] == a[1..] + b;
      PrefixAtMost(a[1..], b);
    }
  }

  lemma SingleRoleOwns(clientID: string, role: string)
    requires '|' !in clientID && '|' !in role
    requires forall i: nat :: !SplitsSorted(role, i)
    ensures OwnsKey(clientID, [role])
  {
    SortOne(role);
    forall c, r | r != [] && KeyOf(c, r) == KeyOf(clientID, [role])
      ensures SameRequest(c, r, clientID, [role])
    {
      var s := SortStrings(r);
      SortByCorrect(r, Itself);
      var joined := Join(s, ',');
      OneBar(clientID, role, c, joined);
      if |s| >= 2 {
        HeadOfJoin(s);
        assert role == s[0] + [','] + Join(s[1..], ',');
        var i := |s[0]|;
        assert role[..i] == s[0] && role[i + 1..] == Join(s[1..], ',');
        assert SplitsSorted(role, i);
        assert false;
      }
      assert s == [role];
      assert |r| == 1 && r == [r[0]];
      SortOne(r[0]);
    }
  }

  /** With a single bar in the whole text there is only one way to cut it. */
  lemma OneBar(a: string, s: string, b: string, t: string)
    requires '|' !in a && '|' !in s
    requires b + "|" + t == a + "|" + s
    ensures a == b && s == t
  {
    var u := a + "|" + s;
    assert forall i | 0 <= i < |u| && u[i] == '|' :: i == |a| by {
      assert forall i | 0 <= i < |a| :: u[i] == a[i];
      assert forall i | |a| < i < |u| :: u[i] == s[i - |a| - 1];
    }
    assert u[|b|] == '|';
    assert u[..|a|] == a && u[..|b|] == b && u[|a| + 1..] == s && u[|b| + 1..] == t;
  }
}
