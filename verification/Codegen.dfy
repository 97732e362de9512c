/** The entries that the permission code generator renders, and their constant names
    (cmd/iam-codegen/generator/generate.go). */
module Codegen {
  import opened Text
  import opened Permission

  datatype Definition = Definition(resource: string, action: string, description: string)

  datatype Entry = Entry(constName: string, resource: string, action: string, description: string)

  datatype RenderError =
    | EmptyPackage
    | InvalidKey(wireKey: string)
    | NotNormalized(wireKey: string)
    | DuplicateKey(wireKey: string)
    | NameCollision(previous: string, wireKey: string, name: string)

  // ----- Names

  predicate IsSeparator(c: char) {
    c == '-' || c == '_' || c == '.' || c == ' ' || c == '/'
  }

  /** Words start in upper case; separators disappear. */
  function PascalFrom(s: string, upper: bool): string {
    if s == [] then []
    else if IsSeparator(s[0]) then PascalFrom(s[1..], true)
    else if upper then [ToUpper(s[0])] + PascalFrom(s[1..], false)
    else [s[0]] + PascalFrom(s[1..], false)
  }

  function Pascal(s: string): string {
    if s == "*" then "Wildcard" else PascalFrom(s, true)
  }

  function ConstName(resource: string, action: string): string {
    var name := Pascal(resource) + Pascal(action);
    if name == "" then "Permission"
    else if '0' <= name[0] <= '9' then "P" + name
    else name
  }

  method PascalCase(s: string) returns (r: string)
    ensures r == Pascal(s)
  {
    if s == "*" {
      return "Wildcard";
    }
    r := "";
    var upper := true;
    for i := 0 to |s|
      invariant r + PascalFrom(s[i..], upper) == PascalFrom(s, true)
    {
      assert s[i..][0] == s[i] && s[i..][1..] == s[i + 1..];
      ghost var rest := PascalFrom(s[i + 1..], false);
      if IsSeparator(s[i]) {
        upper := true;
      } else if upper {
        Append2(r, [ToUpper(s[i])], rest);
        r := r + [ToUpper(s[i])];
        upper := false;
      } else {
        Append2(r, [s[i]], rest);
        r := r + [s[i]];
      }
    }
    assert s[|s|..] == [];
  }

  predicate IsUpperLetter(c: char) {
    'A' <= c <= 'Z'
  }

  predicate IsAlphanumeric(c: char) {
    IsUpperLetter(c) || 'a' <= c <= 'z' || '0' <= c <= '9'
  }

  /** An exported Go identifier made of ASCII letters and digits. */
  predicate IsExportedName(s: string) {
    s != "" && IsUpperLetter(s[0]) && forall i | 0 <= i < |s| :: IsAlphanumeric(s[i])
  }

  predicate SegmentText(s: string) {
    forall i | 0 <= i < |s| :: SegmentChar(s[i])
  }

  lemma StarIsNoSegment()
    ensures !SegmentText("*")
  {
    assert !SegmentChar("*"[0]);
  }

  lemma {:induction false} PascalShape(s: string, upper: bool)
    requires SegmentText(s)
    ensures forall i | 0 <= i < |PascalFrom(s, upper)| :: IsAlphanumeric(PascalFrom(s, upper)[i])
    ensures upper && PascalFrom(s, upper) != "" ==>
              IsUpperLetter(PascalFrom(s, upper)[0]) || '0' <= PascalFrom(s, upper)[0] <= '9'
  {
    if s != [] {
      PascalShape(s[1..], if IsSeparator(s[0]) then true else false);
    }
  }

  /** Every concrete key gets a valid exported name. */
  lemma ConstNamesAreExported(resource: string, action: string)
    requires IsSegment(resource) && IsSegment(action)
    ensures IsExportedName(ConstName(resource, action))
  {
    assert SegmentText(resource) && SegmentText(action);
    assert resource != "*" && action != "*" by { StarIsNoSegment(); }
    PascalShape(resource, true);
    PascalShape(action, true);
  }

  // ----- Names, word by word

  /** Words with a separator between each and the next. */
  function Written(words: seq<string>, separators: seq<char>): string
    requires |words| == |separators| + 1
  {
    if separators == [] then words[0] else words[0] + [separators[0]] + Written(words[1..], separators[1..])
  }

  predicate SeparatorFree(word: string) {
    forall i | 0 <= i < |word| :: !IsSeparator(word[i])
  }

  /** Words that are written apart by separators, and hold none themselves. */
  predicate Apart(words: seq<string>, separators: seq<char>) {
    && |words| == |separators| + 1
    && (forall i | 0 <= i < |words| :: SeparatorFree(words[i]))
    && (forall i | 0 <= i < |separators| :: separators[i] in {'-', '_', '.', ' ', '/'})
  }

  /** The words next to each other, each with its first letter in upper case. */
  function Capitalized(words: seq<string>): string {
    if words == [] then ""
    else (if words[0] == "" then "" else [ToUpper(words[0][0])] + words[0][1..]) + Capitalized(words[1..])
  }

  lemma {:induction false} PascalWord(word: string, rest: string)
    requires SeparatorFree(word) && (rest != "" ==> IsSeparator(rest[0]))
    ensures PascalFrom(word + rest, false) == word + PascalFrom(rest, true)
  {
    if word == "" {
      assert word + rest == rest;
    } else {
      assert (word + rest)[1..] == word[1..] + rest;
      PascalWord(word[1..], rest);
      assert word == [word[0]] + word[1..];
    }
  }

  lemma {:induction false} PascalWords(words: seq<string>, separators: seq<char>)
    requires Apart(words, separators)
    ensures PascalFrom(Written(words, separators), true) == Capitalized(words)
  {
    var word := words[0];
    var rest := if separators == [] then "" else [separators[0]] + Written(words[1..], separators[1..]);
    assert Written(words, separators) == word + rest;
    if separators != [] {
      PascalWords(words[1..], separators[1..]);
      assert rest[1..] == Written(words[1..], separators[1..]);
    } else {
      assert words[1..] == [];
    }
    assert PascalFrom(rest, true) == Capitalized(words[1..]);
    if word == "" {
      assert word + rest == rest;
    } else {
      assert (word + rest)[1..] == word[1..] + rest;
      PascalWord(word[1..], rest);
    }
  }

  /** A constant is named by the words of the resource and then those of the action, each with its first
      letter in upper case; behind a P if that starts with a digit, and Permission if there are none. */
  lemma ConstNameReadsAsWords(resource: seq<string>, action: seq<string>, rs: seq<char>, acts: seq<char>)
    requires Apart(resource, rs) && Written(resource, rs) != "*"
    requires Apart(action, acts) && Written(action, acts) != "*"
    ensures var name := Capitalized(resource) + Capitalized(action);
            ConstName(Written(resource, rs), Written(action, acts)) ==
              if name == "" then "Permission" else if '0' <= name[0] <= '9' then "P" + name else name
  {
    PascalWords(resource, rs);
    PascalWords(action, acts);
  }

  // ----- Rendering

  /** Sorting by resource and then by action, as one string: every character of the resource is preceded
      by a one, and the resource is followed by a zero. */
  function Marked(s: string): string {
    if s == [] then [] else ['\U{1}', s[0]] + Marked(s[1..])
  }

  function PairKey(d: Definition): string {
    Marked(d.resource) + ['\U{0}'] + d.action
  }

  lemma {:induction false} PairKeyOrders(r1: string, a1: string, r2: string, a2: string)
    ensures AtMost(Marked(r1) + ['\U{0}'] + a1, Marked(r2) + ['\U{0}'] + a2) <==>
            Less(r1, r2) || (r1 == r2 && AtMost(a1, a2))
  {
    var k1, k2 := Marked(r1) + ['\U{0}'] + a1, Marked(r2) + ['\U{0}'] + a2;
    if r1 == [] && r2 == [] {
      assert k1[1..] == a1 && k2[1..] == a2;
    } else if r1 != [] && r2 != [] {
      assert k1[1..][1..] == Marked(r1[1..]) + ['\U{0}'] + a1;
      assert k2[1..][1..] == Marked(r2[1..]) + ['\U{0}'] + a2;
      assert k1[0] == k2[0] == '\U{1}' && k1[1..][0] == r1[0] && k2[1..][0] == r2[0];
      PairKeyOrders(r1[1..], a1, r2[1..], a2);
      assert r1 == [r1[0]] + r1[1..] && r2 == [r2[0]] + r2[1..];
    } else if r1 == [] {
      assert k1[0] == '\U{0}' && k2[0] == '\U{1}';
    } else {
      assert k1[0] == '\U{1}' && k2[0] == '\U{0}';
    }
  }

  /** The order is the generator's: resources first, actions to break ties. */
  lemma SortOrder(d: Definition, e: Definition)
    ensures AtMost(PairKey(d), PairKey(e)) <==>
            if d.resource != e.resource then AtMost(d.resource, e.resource) else AtMost(d.action, e.action)
  {
    PairKeyOrders(d.resource, d.action, e.resource, e.action);
  }

  const ByPair: Definition -> string := (d: Definition) => PairKey(d)
  const ByWireKey: Definition -> string := (d: Definition) => d.resource + ":" + d.action
  const ByName: Definition -> string := (d: Definition) => ConstName(d.resource, d.action)

  predicate Concrete(d: Definition) {
    IsSegment(d.resource) && IsSegment(d.action)
  }

  function EntryOf(d: Definition): Entry {
    Entry(ConstName(d.resource, d.action), d.resource, d.action, d.description)
  }

  function Entries(ds: seq<Definition>): (es: seq<Entry>)
    ensures |es| == |ds| && forall i | 0 <= i < |ds| :: es[i] == EntryOf(ds[i])
  {
    seq(|ds|, i requires 0 <= i < |ds| => EntryOf(ds[i]))
  }

  /** When a list of definitions can be rendered. */
  ghost predicate Renderable(ds: seq<Definition>, nfc: string -> bool) {
    && (forall d | d in ds :: Concrete(d) && nfc(d.description))
    && KeysDistinct(ds, ByWireKey)
    && KeysDistinct(ds, ByName)
  }

  lemma WireKeysIdentify(d: Definition, e: Definition)
    requires Concrete(d) && Concrete(e)
    ensures ByWireKey(d) == ByWireKey(e) <==> d.resource == e.resource && d.action == e.action
  {
    ParseInvertsAuthority(PermissionKey(d.resource, d.action));
    ParseInvertsAuthority(PermissionKey(e.resource, e.action));
  }

  /** The pair of definitions differ in resource or action, and in their names. */
  predicate ToldApart(d: Definition, e: Definition) {
    (d.resource != e.resource || d.action != e.action) && ConstName(d.resource, d.action) != ConstName(e.resource, e.action)
  }

  /** Said of the definitions themselves: all are concrete and normal, and no two share resource and action
      or get one name. */
  lemma RenderableExactly(ds: seq<Definition>, nfc: string -> bool)
    ensures Renderable(ds, nfc) <==>
            && (forall i | 0 <= i < |ds| :: IsSegment(ds[i].resource) && IsSegment(ds[i].action) && nfc(ds[i].description))
            && (forall i, j | 0 <= i < j < |ds| :: ToldApart(ds[i], ds[j]))
  {
    if Renderable(ds, nfc) {
      assert forall i | 0 <= i < |ds| :: ds[i] in ds;
      forall i, j | 0 <= i < j < |ds| ensures ToldApart(ds[i], ds[j]) {
        WireKeysIdentify(ds[i], ds[j]);
        assert KeysDiffer(ds, ByWireKey, i, j) && KeysDiffer(ds, ByName, i, j);
      }
    } else if forall i | 0 <= i < |ds| :: Concrete(ds[i]) {
      forall i, j | 0 <= i < j < |ds| && ToldApart(ds[i], ds[j])
        ensures KeysDiffer(ds, ByWireKey, i, j) && KeysDiffer(ds, ByName, i, j)
      {
        WireKeysIdentify(ds[i], ds[j]);
      }
    }
  }

  /** What keeps definition `i` from being rendered after the ones before it. */
  ghost predicate Faulty(ds: seq<Definition>, i: nat, nfc: string -> bool, error: RenderError)
    requires i < |ds|
  {
    var wireKey := ByWireKey(ds[i]);
    match error
    case InvalidKey(k) => k == wireKey && !Concrete(ds[i])
    case NotNormalized(k) => k == wireKey && Concrete(ds[i]) && !nfc(ds[i].description)
    case DuplicateKey(k) => k == wireKey && exists j | 0 <= j < i :: ByWireKey(ds[j]) == wireKey
    case NameCollision(previous, k, name) =>
      && k == wireKey && name == ByName(ds[i]) && previous != k
      && exists j | 0 <= j < i :: ByName(ds[j]) == name && ByWireKey(ds[j]) == previous
    case EmptyPackage => false
  }

  /** The definitions render up to one that has this fault. */
  ghost predicate StopsWith(ds: seq<Definition>, nfc: string -> bool, error: RenderError) {
    exists i | 0 <= i < |ds| :: StopsAt(ds, i, nfc, error)
  }

  ghost predicate StopsAt(ds: seq<Definition>, i: nat, nfc: string -> bool, error: RenderError)
    requires i < |ds|
  {
    Renderable(ds[..i], nfc) && Faulty(ds, i, nfc, error)
  }

  lemma FaultyIsNotRenderable(ds: seq<Definition>, i: nat, nfc: string -> bool, error: RenderError)
    requires i < |ds| && Faulty(ds, i, nfc, error)
    ensures !Renderable(ds, nfc)
  {
    assert ds[i] in ds;
    if error.DuplicateKey? {
      var j :| 0 <= j < i && ByWireKey(ds[j]) == error.wireKey;
      assert !KeysDiffer(ds, ByWireKey, j, i);
    } else if error.NameCollision? {
      var j :| 0 <= j < i && ByName(ds[j]) == error.name;
      assert !KeysDiffer(ds, ByName, j, i);
    }
  }

  /** Some definitions of the list, in whatever order, have this fault. */
  ghost predicate FaultIn(ds: seq<Definition>, nfc: string -> bool, error: RenderError) {
    match error
    case InvalidKey(k) => exists d | d in ds :: ByWireKey(d) == k && !Concrete(d)
    case NotNormalized(k) => exists d | d in ds :: ByWireKey(d) == k && Concrete(d) && !nfc(d.description)
    case DuplicateKey(k) => exists i, j | 0 <= i < j < |ds| :: ByWireKey(ds[i]) == k && ByWireKey(ds[j]) == k
    case NameCollision(previous, k, name) =>
      && previous != k
      && (exists d | d in ds :: ByWireKey(d) == previous && ByName(d) == name)
      && (exists d | d in ds :: ByWireKey(d) == k && ByName(d) == name)
    case EmptyPackage => false
  }

  /** A fault of a list is a fault of its rearrangements. */
  lemma {:induction false} FaultInPermuted(ds: seq<Definition>, es: seq<Definition>, nfc: string -> bool, error: RenderError)
    requires multiset(ds) == multiset(es) && FaultIn(ds, nfc, error)
    ensures FaultIn(es, nfc, error)
  {
    forall d | d in ds ensures d in es { assert d in multiset(ds); }
    if error.DuplicateKey? {
      var i, j :| 0 <= i < j < |ds| && ByWireKey(ds[i]) == error.wireKey && ByWireKey(ds[j]) == error.wireKey;
      if ds[i] == ds[j] {
        TwiceInMultiset(ds, i, j);
        TwicePositions(es, ds[i]);
      } else {
        assert ds[i] in es && ds[j] in es;
        var k :| 0 <= k < |es| && es[k] == ds[i];
        var l :| 0 <= l < |es| && es[l] == ds[j];
        assert k < l || l < k;
      }
    }
  }

  /** What the loop has in hand after `i` definitions, in terms of their wire keys and names. */
  ghost predicate Seen(ds: seq<Definition>, i: nat, names: map<string, string>, keys: set<string>,
      wireKey: Definition -> string := ByWireKey, name: Definition -> string := ByName)
    requires i <= |ds|
  {
    && (forall k :: k in keys <==> exists j | 0 <= j < i :: wireKey(ds[j]) == k)
    && (forall j | 0 <= j < i :: name(ds[j]) in names)
    && (forall n | n in names :: exists j | 0 <= j < i :: name(ds[j]) == n && wireKey(ds[j]) == names[n])
    && (forall j, k | 0 <= j < k < i :: wireKey(ds[j]) != wireKey(ds[k]) && name(ds[j]) != name(ds[k]))
  }

  lemma SeenNext(ds: seq<Definition>, i: nat, names: map<string, string>, keys: set<string>,
      wireKey: Definition -> string, name: Definition -> string)
    requires i < |ds| && Seen(ds, i, names, keys, wireKey, name)
    requires wireKey(ds[i]) !in keys && name(ds[i]) !in names
    ensures Seen(ds, i + 1, names[name(ds[i]) := wireKey(ds[i])], keys + {wireKey(ds[i])}, wireKey, name)
  {
  }

  lemma EntriesAppend(ds: seq<Definition>, i: nat)
    requires i < |ds|
    ensures Entries(ds[..i + 1]) == Entries(ds[..i]) + [EntryOf(ds[i])]
  {
  }

  lemma SeenRenderable(ds: seq<Definition>, i: nat, names: map<string, string>, keys: set<string>, nfc: string -> bool)
    requires i <= |ds| && Seen(ds, i, names, keys)
    requires forall j | 0 <= j < i :: Concrete(ds[j]) && nfc(ds[j].description)
    ensures Renderable(ds[..i], nfc)
  {
    assert forall j | 0 <= j < i :: ds[..i][j] == ds[j];
  }

  lemma AllSeen(ds: seq<Definition>, names: map<string, string>, keys: set<string>)
    requires Seen(ds, |ds|, names, keys)
    ensures KeysDistinct(ds, ByWireKey) && KeysDistinct(ds, ByName)
  {
  }

  /** The checks on one definition, in order. */
  method RenderOne(sorted: seq<Definition>, i: nat, names: map<string, string>, keys: set<string>, nfc: string -> bool)
    returns (r: Result<Entry, RenderError>)
    requires i < |sorted| && Seen(sorted, i, names, keys)
    ensures r.Ok? ==>
      && r.value == EntryOf(sorted[i])
      && Concrete(sorted[i]) && nfc(sorted[i].description)
      && ByWireKey(sorted[i]) !in keys && ByName(sorted[i]) !in names
    ensures r.Err? ==> Faulty(sorted, i, nfc, r.error)
  {
    var d := sorted[i];
    var wireKey := d.resource + ":" + d.action;
    if !Concrete(d) {
      return Err(InvalidKey(wireKey));
    }
    if !nfc(d.description) {
      return Err(NotNormalized(wireKey));
    }
    if wireKey in keys {
      return Err(DuplicateKey(wireKey));
    }
    var constName := ConstNameOf(d.resource, d.action);
    if constName in names {
      return Err(NameCollision(names[constName], wireKey, constName));
    }
    return Ok(Entry(constName, d.resource, d.action, d.description));
  }

  /** The loop over the sorted definitions. */
  method RenderSorted(sorted: seq<Definition>, nfc: string -> bool) returns (r: Result<seq<Entry>, RenderError>)
    ensures r.Ok? <==> Renderable(sorted, nfc)
    ensures r.Ok? ==> r.value == Entries(sorted)
    ensures r.Err? ==> StopsWith(sorted, nfc, r.error)
  {
    var rendered: seq<Entry> := [];
    var names: map<string, string> := map[];
    var keys: set<string> := {};
    for i := 0 to |sorted|
      invariant rendered == Entries(sorted[..i])
      invariant forall j | 0 <= j < i :: Concrete(sorted[j]) && nfc(sorted[j].description)
      invariant Seen(sorted, i, names, keys)
    {
      var entry := RenderOne(sorted, i, names, keys, nfc);
      if entry.Err? {
        FaultyIsNotRenderable(sorted, i, nfc, entry.error);
        SeenRenderable(sorted, i, names, keys, nfc);
        assert StopsAt(sorted, i, nfc, entry.error);
        return Err(entry.error);
      }
      SeenNext(sorted, i, names, keys, ByWireKey, ByName);
      keys := keys + {ByWireKey(sorted[i])};
      names := names[entry.value.constName := ByWireKey(sorted[i])];
      rendered := rendered + [entry.value];
      EntriesAppend(sorted, i);
    }
    AllSeen(sorted, names, keys);
    assert sorted[..|sorted|] == sorted;
    return Ok(rendered);
  }

  method ConstNameOf(resource: string, action: string) returns (name: string)
    ensures name == ConstName(resource, action)
  {
    var left := PascalCase(resource);
    var right := PascalCase(action);
    name := left + right;
    if name == "" {
      return "Permission";
    }
    if '0' <= name[0] <= '9' {
      return "P" + name;
    }
  }

  /** Render, up to the template: a copy is sorted in place and turned into entries. */
  method Render(package: string, permissions: seq<Definition>, nfc: string -> bool)
    returns (r: Result<seq<Entry>, RenderError>)
    ensures r == Err(EmptyPackage) <==> package == ""
    ensures r.Ok? <==> package != "" && Renderable(permissions, nfc)
    ensures r.Ok? ==> r.value == Entries(SortBy(permissions, ByPair))
    ensures r.Err? && package != "" ==>
              && FaultIn(permissions, nfc, r.error)
              && exists sorted :: Arranges(permissions, sorted) && StopsWith(sorted, nfc, r.error)
  {
    if package == "" {
      return Err(EmptyPackage);
    }
    var sorted := new Definition[|permissions|](i requires 0 <= i < |permissions| => permissions[i]);
    assert sorted[..] == permissions;
    Sort(sorted, ByPair);
    r := RenderSorted(sorted[..], nfc);
    if r.Ok? {
      RenderablePermuted(sorted[..], permissions, nfc);
      SortedRenderable(permissions, sorted[..], nfc);
    } else {
      if Renderable(permissions, nfc) {
        RenderablePermuted(permissions, sorted[..], nfc);
      }
      assert FaultIn(sorted[..], nfc, r.error);
      FaultInPermuted(sorted[..], permissions, nfc, r.error);
      assert Arranges(permissions, sorted[..]) && StopsWith(sorted[..], nfc, r.error);
    }
  }

  /** Some sorted arrangement; it is the only one unless definitions share resource and action. */
  ghost predicate Arranges(ds: seq<Definition>, sorted: seq<Definition>) {
    multiset(sorted) == multiset(ds) && SortedBy(sorted, ByPair)
  }

  lemma {:induction false} RenderablePermuted(ds: seq<Definition>, es: seq<Definition>, nfc: string -> bool)
    requires multiset(ds) == multiset(es) && Renderable(ds, nfc)
    ensures Renderable(es, nfc)
  {
    KeysDistinctPermuted(ds, es, ByWireKey);
    KeysDistinctPermuted(ds, es, ByName);
    forall d | d in es ensures Concrete(d) && nfc(d.description) {
      assert d in multiset(ds);
    }
  }

  /** Of a renderable list there is only one sorted arrangement. */
  lemma {:induction false} SortedRenderable(ds: seq<Definition>, es: seq<Definition>, nfc: string -> bool)
    requires multiset(ds) == multiset(es) && Renderable(ds, nfc) && SortedBy(es, ByPair)
    ensures es == SortBy(ds, ByPair)
  {
    SortByCorrect(ds, ByPair);
    KeysDistinctPermuted(ds, es, ByWireKey);
    forall d, e | d in es && e in es && ByPair(d) == ByPair(e) ensures d == e {
      AtMostReflexive(ByPair(d));
      PairKeyOrders(d.resource, d.action, e.resource, e.action);
      PairKeyOrders(e.resource, e.action, d.resource, d.action);
      if d.resource != e.resource {
        AtMostAntisymmetric(d.resource, e.resource);
      } else {
        AtMostAntisymmetric(d.action, e.action);
      }
      assert ByWireKey(d) == ByWireKey(e);
    }
    SortedUnique(es, SortBy(ds, ByPair), ByPair);
  }

  /** The order in which permissions are declared does not show in what is generated. */
  lemma {:induction false} RenderingIsPermutationInvariant(ds: seq<Definition>, es: seq<Definition>,
      nfc: string -> bool)
    requires multiset(ds) == multiset(es)
    ensures Renderable(ds, nfc) <==> Renderable(es, nfc)
    ensures Renderable(ds, nfc) ==> Entries(SortBy(ds, ByPair)) == Entries(SortBy(es, ByPair))
  {
    if Renderable(ds, nfc) {
      RenderablePermuted(ds, es, nfc);
      SortByCorrect(es, ByPair);
      SortedRenderable(ds, SortBy(es, ByPair), nfc);
    }
    if Renderable(es, nfc) {
      RenderablePermuted(es, ds, nfc);
    }
  }

  /** A rendered file has one entry for each definition, with its resource, action and description. The
      constants have pairwise distinct, valid, exported names. */
  lemma RenderedNamesAreSound(ds: seq<Definition>, nfc: string -> bool)
    requires Renderable(ds, nfc)
    ensures var es := Entries(SortBy(ds, ByPair));
            && multiset(seq(|es|, i requires 0 <= i < |es| => Definition(es[i].resource, es[i].action, es[i].description)))
               == multiset(ds)
            && (forall i | 0 <= i < |es| :: es[i].constName == ConstName(es[i].resource, es[i].action))
            && (forall i, j | 0 <= i < j < |es| :: es[i].constName != es[j].constName)
            && (forall i | 0 <= i < |es| :: IsExportedName(es[i].constName))
  {
    var sorted := SortBy(ds, ByPair);
    SortByCorrect(ds, ByPair);
    RenderablePermuted(ds, sorted, nfc);
    var es := Entries(sorted);
    assert seq(|es|, i requires 0 <= i < |es| => Definition(es[i].resource, es[i].action, es[i].description)) == sorted;
    forall i | 0 <= i < |sorted| ensures IsExportedName(EntryOf(sorted[i]).constName) {
      assert sorted[i] in sorted;
      ConstNamesAreExported(sorted[i].resource, sorted[i].action);
    }
    forall i, j | 0 <= i < j < |sorted| ensures EntryOf(sorted[i]).constName != EntryOf(sorted[j]).constName {
      assert KeysDiffer(sorted, ByName, i, j);
    }
  }

  // ----- The fixed name of the generated file

  /** A segment without the separators at its start. */
  function Core(s: string): string {
    if s != [] && IsSeparator(s[0]) then Core(s[1..]) else s
  }

  predicate OnlySeparators(s: string) {
    forall i | 0 <= i < |s| :: IsSeparator(s[i])
  }

  /** "all", perhaps between separators. */
  predicate SpellsAll(s: string) {
    "all" <= Core(s) && OnlySeparators(Core(s)[3..])
  }

  lemma {:induction false} PascalEmpty(s: string, upper: bool)
    ensures PascalFrom(s, upper) == "" <==> OnlySeparators(s)
  {
    if s != [] {
      PascalEmpty(s[1..], if IsSeparator(s[0]) then true else false);
    }
  }

  lemma {:induction false} PascalCore(s: string)
    ensures PascalFrom(s, true) == PascalFrom(Core(s), true)
  {
    if s != [] && IsSeparator(s[0]) { PascalCore(s[1..]); }
  }

  /** After a letter, a lower-case letter can only come from itself. */
  lemma PascalLower(s: string, c: char, rest: string)
    requires SegmentText(s) && 'a' <= c <= 'z'
    ensures PascalFrom(s, false) == [c] + rest <==> s != [] && s[0] == c && PascalFrom(s[1..], false) == rest
  {
    assert ([c] + rest)[0] == c && ([c] + rest)[1..] == rest;
    if s == [] {
    } else if IsSeparator(s[0]) {
      PascalShape(s[1..], true);
      assert PascalFrom(s, false) == PascalFrom(s[1..], true);
    } else {
      var tail := PascalFrom(s[1..], false);
      assert ([s[0]] + tail)[0] == s[0] && ([s[0]] + tail)[1..] == tail;
    }
  }

  lemma PascalAll(s: string)
    requires SegmentText(s)
    ensures PascalFrom(s, true) == "All" <==> SpellsAll(s)
  {
    PascalCore(s);
    CoreSuffix(s);
    var t := Core(s);
    if t != [] {
      var tail := PascalFrom(t[1..], false);
      assert PascalFrom(t, true) == [ToUpper(t[0])] + tail;
      assert ([ToUpper(t[0])] + tail)[0] == ToUpper(t[0]) && ([ToUpper(t[0])] + tail)[1..] == tail;
      assert "All"[0] == 'A' && "All"[1..] == "ll";
      assert PascalFrom(t, true) == "All" <==> t[0] == 'a' && tail == "ll";
      LowerAll(t[1..]);
      assert "all" <= t <==> |t| >= 3 && t[0] == 'a' && t[1..][0] == 'l' && t[1..][1] == 'l';
      if |t| >= 3 { assert t[1..][2..] == t[3..]; }
    }
  }

  lemma {:induction false} LowerAll(s: string)
    requires SegmentText(s)
    ensures PascalFrom(s, false) == "ll" <==> |s| >= 2 && s[0] == 'l' && s[1] == 'l' && OnlySeparators(s[2..])
  {
    assert "ll" == ['l'] + "l" && "l" == ['l'] + "";
    PascalLower(s, 'l', "l");
    if s != [] {
      PascalLower(s[1..], 'l', "");
      if |s| >= 2 {
        assert s[1..][1..] == s[2..];
        PascalEmpty(s[2..], false);
      }
    }
  }

  lemma {:induction false} CoreSuffix(s: string)
    requires SegmentText(s)
    ensures SegmentText(Core(s))
    ensures Core(s) != [] ==> !IsSeparator(Core(s)[0])
  {
    if s != [] && IsSeparator(s[0]) { CoreSuffix(s[1..]); }
  }

  lemma NoWordInsideAll(left: string, right: string)
    requires right != "" ==> IsUpperLetter(right[0]) || '0' <= right[0] <= '9'
    ensures left + right == "All" ==> left == "" || right == ""
  {
    if left != "" && right != "" {
      assert (left + right)[|left|] == right[0];
    }
  }

  /** Render checks its names against each other but not against the fixed list `All` of the generated
      file. A concrete key clashes with it exactly when one side spells "all" and the other is made of
      separators only, as in resource "all" with action "_". */
  lemma ClashesWithAllExactly(resource: string, action: string)
    requires IsSegment(resource) && IsSegment(action)
    ensures ConstName(resource, action) == "All" <==>
            || (SpellsAll(resource) && OnlySeparators(action))
            || (OnlySeparators(resource) && SpellsAll(action))
  {
    assert SegmentText(resource) && SegmentText(action);
    assert resource != "*" && action != "*" by { StarIsNoSegment(); }
    PascalAll(resource);
    PascalAll(action);
    PascalEmpty(resource, true);
    PascalEmpty(action, true);
    PascalShape(resource, true);
    PascalShape(action, true);
    var left, right := PascalFrom(resource, true), PascalFrom(action, true);
    NoWordInsideAll(left, right);
    assert left == "" ==> left + right == right;
    assert right == "" ==> left + right == left;
    assert "P" + (left + right) != "All" by { assert ("P" + (left + right))[0] == 'P'; }
  }

  lemma AllClash()
    ensures ConstName("all", "_") == "All"
  {
    assert IsSegment("all") && IsSegment("_");
    assert SpellsAll("all") && OnlySeparators("_");
    ClashesWithAllExactly("all", "_");
  }
}
