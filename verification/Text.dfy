/** Results, and the string operations of Go's `strings` and `sort` packages that the SDK uses. */
module Text {

  datatype Option<+T> = None | Some(value: T)

  datatype Result<+T, +E> = Ok(value: T) | Err(error: E)

  // ----- Splitting and joining

  /** The number of occurrences of `c`, as strings.Count. */
  function Count(s: string, c: char): nat {
    if s == [] then 0 else (if s[0] == c then 1 else 0) + Count(s[1..], c)
  }

  /** The position of the first `c`; the length of `s` when there is none. */
  function IndexOf(s: string, c: char): (i: nat)
    ensures i <= |s| && c !in s[..i]
    ensures i < |s| ==> s[i] == c
  {
    if s == [] || s[0] == c then 0 else 1 + IndexOf(s[1..], c)
  }

  /** The pieces between occurrences of `sep`, as strings.Split. */
  function Split(s: string, sep: char): (parts: seq<string>)
    ensures |parts| >= 1
  {
    if s == [] then [[]]
    else
      var rest := Split(s[1..], sep);
      if s[0] == sep then [[]] + rest else [[s[0]] + rest[0]] + rest[1..]
  }

  function Join(parts: seq<string>, sep: char): string {
    if |parts| == 0 then []
    else if |parts| == 1 then parts[0]
    else parts[0] + [sep] + Join(parts[1..], sep)
  }

  lemma {:induction false} SplitPrefix(p: string, sep: char, rest: string)
    requires sep !in p
    ensures Split(p + [sep] + rest, sep) == [p] + Split(rest, sep)
  {
    var s := p + [sep] + rest;
    if p == [] {
      assert s[1..] == rest;
    } else {
      assert s[1..] == p[1..] + [sep] + rest;
      SplitPrefix(p[1..], sep, rest);
      assert [p[0]] + p[1..] == p;
    }
  }

  lemma {:induction false} SplitWhole(p: string, sep: char)
    requires sep !in p
    ensures Split(p, sep) == [p]
  {
    if p != [] {
      SplitWhole(p[1..], sep);
      assert [p[0]] + p[1..] == p;
    }
  }

  /** Joining pieces that are free of the separator loses nothing. */
  lemma {:induction false} SplitJoin(parts: seq<string>, sep: char)
    requires |parts| >= 1
    requires forall p | p in parts :: sep !in p
    ensures Split(Join(parts, sep), sep) == parts
  {
    if |parts| == 1 {
      SplitWhole(parts[0], sep);
    } else {
      SplitPrefix(parts[0], sep, Join(parts[1..], sep));
      SplitJoin(parts[1..], sep);
    }
  }

  lemma {:induction false} JoinSplit(s: string, sep: char)
    ensures Join(Split(s, sep), sep) == s
    ensures forall p | p in Split(s, sep) :: sep !in p
    ensures |Split(s, sep)| == Count(s, sep) + 1
  {
    if s != [] {
      JoinSplit(s[1..], sep);
      var rest := Split(s[1..], sep);
      if s[0] == sep {
        assert ([[]] + rest)[1..] == rest;
      } else if |rest| > 1 {
        var parts := [[s[0]] + rest[0]] + rest[1..];
        assert parts[1..] == rest[1..];
      }
    }
  }

  lemma {:induction false} IndexOfPrefix(p: string, sep: char, rest: string)
    requires sep !in p
    ensures IndexOf(p + [sep] + rest, sep) == |p|
    ensures Count(p + [sep] + rest, sep) == 1 + Count(rest, sep)
  {
    var s := p + [sep] + rest;
    if p == [] {
      assert s[1..] == rest;
    } else {
      assert s[1..] == p[1..] + [sep] + rest;
      IndexOfPrefix(p[1..], sep, rest);
    }
  }

  /** Two pieces: exactly one separator, and the pieces are what lies on either side of it. */
  lemma SplitInTwo(s: string, sep: char)
    ensures |Split(s, sep)| == 2 <==> Count(s, sep) == 1
    ensures Count(s, sep) == 1 ==>
      && IndexOf(s, sep) < |s|
      && Split(s, sep) == [s[..IndexOf(s, sep)], s[IndexOf(s, sep) + 1..]]
  {
    JoinSplit(s, sep);
    if Count(s, sep) == 1 {
      var parts := Split(s, sep);
      assert s == parts[0] + [sep] + parts[1];
      IndexOfPrefix(parts[0], sep, parts[1]);
      assert s[..|parts[0]|] == parts[0] && s[|parts[0]| + 1..] == parts[1];
    }
  }

  /** Regrouping, stated once so that proofs about printed text need not redo it. */
  lemma Append3(a: string, b: string, c: string, d: string)
    ensures a + b + c + d == a + (b + c + d)
  {
  }

  lemma Append2(a: string, b: string, c: string)
    ensures (a + b) + c == a + (b + c)
  {
  }

  // ----- White space

  /** unicode.IsSpace. */
  predicate IsSpace(c: char) {
    || '\t' <= c <= '\r' || c == ' ' || c == '\U{85}' || c == '\U{a0}' || c == '\U{1680}'
    || '\U{2000}' <= c <= '\U{200a}' || c in {'\U{2028}', '\U{2029}', '\U{202f}', '\U{205f}', '\U{3000}'}
  }

  /** strings.TrimSpace leaves nothing. */
  predicate Blank(s: string) {
    forall c | c in s :: IsSpace(c)
  }

  /** strings.TrimSpace changes nothing. */
  predicate Trimmed(s: string) {
    s != [] ==> !IsSpace(s[0]) && !IsSpace(s[|s| - 1])
  }

  // ----- Letters

  /** unicode.ToUpper, as far as it yields ASCII letters: the dotless i and the long s are the only
      characters outside ASCII that do. */
  function ToUpper(c: char): char {
    if 'a' <= c <= 'z' then (c as int - 32) as char
    else if c == '\U{131}' then 'I'
    else if c == '\U{17f}' then 'S'
    else c
  }

  function Lower(c: char): char {
    if 'A' <= c <= 'Z' then (c as int + 32) as char else c
  }

  /** strings.EqualFold against "bearer", whose letters have no other case variants. */
  predicate IsBearer(s: string) {
    |s| == 6 && forall i | 0 <= i < 6 :: Lower(s[i]) == "bearer"[i]
  }

  /** Each letter in lower or upper case. */
  lemma BearerExactly(s: string)
    ensures IsBearer(s) <==> |s| == 6 && forall i | 0 <= i < 6 :: s[i] in {"bearer"[i], "BEARER"[i]}
  {
    if |s| == 6 {
      forall i | 0 <= i < 6 ensures Lower(s[i]) == "bearer"[i] <==> s[i] in {"bearer"[i], "BEARER"[i]} {
        assert "bearer"[i] as int == "BEARER"[i] as int + 32;
      }
    }
  }

  // ----- Digits

  predicate IsLowerHex(c: char) {
    '0' <= c <= '9' || 'a' <= c <= 'f'
  }

  /** The lower-case form of a UUID. */
  predicate IsUuid(s: string) {
    && |s| == 36
    && forall i | 0 <= i < 36 :: if i == 8 || i == 13 || i == 18 || i == 23 then s[i] == '-' else IsLowerHex(s[i])
  }

  /** So many lower-case hexadecimal digits. */
  predicate HexRun(s: string, n: nat) {
    |s| == n && forall i | 0 <= i < n :: s[i] in "0123456789abcdef"
  }

  function Dashed(a: string, b: string, c: string, d: string, e: string): string {
    a + "-" + b + "-" + c + "-" + d + "-" + e
  }

  /** A UUID is made of runs of 8, 4, 4, 4 and 12 hexadecimal digits between dashes. */
  lemma UuidGroups(s: string)
    ensures IsUuid(s) <==>
            exists a, b, c, d, e | HexRun(a, 8) && HexRun(b, 4) && HexRun(c, 4) && HexRun(d, 4) && HexRun(e, 12) ::
              s == Dashed(a, b, c, d, e)
  {
    HexDigits();
    if IsUuid(s) {
      var a, b, c, d, e := s[..8], s[9..13], s[14..18], s[19..23], s[24..];
      assert HexRun(a, 8) && HexRun(b, 4) && HexRun(c, 4) && HexRun(d, 4) && HexRun(e, 12);
      assert s == Dashed(a, b, c, d, e);
    }
    forall a, b, c, d, e | HexRun(a, 8) && HexRun(b, 4) && HexRun(c, 4) && HexRun(d, 4) && HexRun(e, 12)
      ensures IsUuid(Dashed(a, b, c, d, e))
    {
      DashedIsUuid(a, b, c, d, e);
    }
  }

  lemma DashedIsUuid(a: string, b: string, c: string, d: string, e: string)
    requires HexRun(a, 8) && HexRun(b, 4) && HexRun(c, 4) && HexRun(d, 4) && HexRun(e, 12)
    ensures IsUuid(Dashed(a, b, c, d, e))
  {
    HexDigits();
    var s := Dashed(a, b, c, d, e);
    assert s[..8] == a && s[9..13] == b && s[14..18] == c && s[19..23] == d && s[24..] == e;
    assert s[8] == s[13] == s[18] == s[23] == '-';
    forall i | 0 <= i < 36 && i != 8 && i != 13 && i != 18 && i != 23 ensures IsLowerHex(s[i]) {
      if i < 8 { assert s[i] == a[i]; }
      else if i < 13 { assert s[i] == b[i - 9]; }
      else if i < 18 { assert s[i] == c[i - 14]; }
      else if i < 23 { assert s[i] == d[i - 19]; }
      else { assert s[i] == e[i - 24]; }
    }
  }

  lemma HexDigits()
    ensures forall c: char :: IsLowerHex(c) <==> c in "0123456789abcdef"
  {
    forall c: char | IsLowerHex(c) ensures c in "0123456789abcdef" {
      var hex := "0123456789abcdef";
      assert c == hex[if c <= '9' then c as int - '0' as int else c as int - 'a' as int + 10];
    }
  }

  predicate IsDigit(c: char) {
    '0' <= c <= '9'
  }

  predicate AllDigits(s: string) {
    forall i | 0 <= i < |s| :: IsDigit(s[i])
  }

  function DecimalValue(s: string): nat
    requires AllDigits(s)
  {
    if s == [] then 0 else DecimalValue(s[..|s| - 1]) * 10 + (s[|s| - 1] as int - '0' as int)
  }

  // ----- Order

  /** Go's `<=` on strings. */
  predicate AtMost(a: string, b: string) {
    a == [] || (b != [] && (a[0] < b[0] || (a[0] == b[0] && AtMost(a[1..], b[1..]))))
  }

  /** Go's `<` on strings. */
  predicate Less(a: string, b: string) {
    AtMost(a, b) && a != b
  }

  /** The strings first differ at `i`, where `a` has the smaller character. */
  predicate SmallerAt(a: string, b: string, i: nat) {
    i < |a| && i < |b| && a[i] < b[i] && forall j | 0 <= j < i :: a[j] == b[j]
  }

  lemma SmallerAtNext(a: string, b: string, i: nat)
    requires a != [] && b != [] && a[0] == b[0]
    ensures SmallerAt(a, b, i + 1) <==> SmallerAt(a[1..], b[1..], i)
  {
    if SmallerAt(a, b, i + 1) { assert forall j | 0 <= j < i :: a[1..][j] == a[j + 1] && b[1..][j] == b[j + 1]; }
    if SmallerAt(a[1..], b[1..], i) { assert forall j | 1 <= j < i + 1 :: a[j] == a[1..][j - 1] && b[j] == b[1..][j - 1]; }
  }

  /** One string comes before another exactly when it is a proper prefix of it or has the smaller character
      where they first differ. */
  lemma {:induction false} LessExactly(a: string, b: string)
    ensures Less(a, b) <==> a < b || exists i: nat :: SmallerAt(a, b, i)
  {
    if a != [] && b != [] {
      assert a == [a[0]] + a[1..] && b == [b[0]] + b[1..];
      if a[0] == b[0] {
        LessExactly(a[1..], b[1..]);
        assert a < b <==> a[1..] < b[1..];
        if i: nat :| SmallerAt(a[1..], b[1..], i) { SmallerAtNext(a, b, i); }
        if i: nat :| SmallerAt(a, b, i) { SmallerAtNext(a, b, i - 1); }
      } else if a[0] < b[0] {
        assert SmallerAt(a, b, 0);
      }
    }
  }

  lemma {:induction false} AtMostReflexive(a: string)
    ensures AtMost(a, a)
  {
    if a != [] { AtMostReflexive(a[1..]); }
  }

  lemma {:induction false} AtMostTotal(a: string, b: string)
    ensures AtMost(a, b) || AtMost(b, a)
  {
    if a != [] && b != [] { AtMostTotal(a[1..], b[1..]); }
  }

  lemma {:induction false} AtMostAntisymmetric(a: string, b: string)
    requires AtMost(a, b) && AtMost(b, a)
    ensures a == b
  {
    if a != [] {
      AtMostAntisymmetric(a[1..], b[1..]);
      assert a == [a[0]] + a[1..] && b == [b[0]] + b[1..];
    }
  }

  lemma {:induction false} AtMostTransitive(a: string, b: string, c: string)
    requires AtMost(a, b) && AtMost(b, c)
    ensures AtMost(a, c)
  {
    if a != [] && a[0] == b[0] == c[0] { AtMostTransitive(a[1..], b[1..], c[1..]); }
  }

  lemma LessTransitive(a: string, b: string, c: string)
    requires Less(a, b) && Less(b, c)
    ensures Less(a, c)
  {
    AtMostTransitive(a, b, c);
    if a == c { AtMostAntisymmetric(a, b); }
  }

  // ----- Sorting by a key

  ghost predicate SortedBy<T>(s: seq<T>, key: T -> string) {
    forall i, j | 0 <= i < j < |s| :: AtMost(key(s[i]), key(s[j]))
  }

  function Insert<T>(x: T, s: seq<T>, key: T -> string): seq<T> {
    if s == [] || AtMost(key(x), key(s[0])) then [x] + s else [s[0]] + Insert(x, s[1..], key)
  }

  function SortBy<T>(s: seq<T>, key: T -> string): seq<T> {
    if s == [] then [] else Insert(s[0], SortBy(s[1..], key), key)
  }

  lemma {:induction false} InsertCorrect<T>(x: T, s: seq<T>, key: T -> string)
    requires SortedBy(s, key)
    ensures SortedBy(Insert(x, s, key), key)
    ensures multiset(Insert(x, s, key)) == multiset{x} + multiset(s)
  {
    if s == [] {
    } else if AtMost(key(x), key(s[0])) {
      forall j | 0 <= j < |s| ensures AtMost(key(x), key(s[j])) {
        if j > 0 { AtMostTransitive(key(x), key(s[0]), key(s[j])); }
      }
    } else {
      AtMostTotal(key(x), key(s[0]));
      var rest := Insert(x, s[1..], key);
      InsertCorrect(x, s[1..], key);
      assert s == [s[0]] + s[1..];
      forall j | 0 <= j < |rest| ensures AtMost(key(s[0]), key(rest[j])) {
        assert rest[j] in multiset(rest);
        assert rest[j] == x || rest[j] in s[1..];
      }
    }
  }

  lemma {:induction false} SortByCorrect<T>(s: seq<T>, key: T -> string)
    ensures SortedBy(SortBy(s, key), key)
    ensures multiset(SortBy(s, key)) == multiset(s)
    ensures |SortBy(s, key)| == |s|
  {
    if s != [] {
      SortByCorrect(s[1..], key);
      InsertCorrect(s[0], SortBy(s[1..], key), key);
      assert s == [s[0]] + s[1..];
    }
    SameSize(SortBy(s, key), s);
  }

  lemma SameSize<T>(s: seq<T>, t: seq<T>)
    requires multiset(s) == multiset(t)
    ensures |s| == |t|
  {
    assert |multiset(s)| == |s| && |multiset(t)| == |t|;
  }

  /** No two of the given elements share a key. */
  ghost predicate KeyedApart<T(!new)>(s: seq<T>, key: T -> string) {
    forall x, y | x in s && y in s && key(x) == key(y) :: x == y
  }

  lemma SameFirst<T(!new)>(s: seq<T>, t: seq<T>, key: T -> string)
    requires multiset(s) == multiset(t) && s != [] && t != []
    requires SortedBy(s, key) && SortedBy(t, key) && KeyedApart(s, key)
    ensures s[0] == t[0]
  {
    assert s[0] in multiset(t) && t[0] in multiset(s);
    FirstIsLeast(s, key, t[0]);
    FirstIsLeast(t, key, s[0]);
    AtMostAntisymmetric(key(s[0]), key(t[0]));
    assert s[0] in s && t[0] in s;
  }

  lemma SameRest<T>(s: seq<T>, t: seq<T>)
    requires multiset(s) == multiset(t) && s != [] && t != [] && s[0] == t[0]
    ensures multiset(s[1..]) == multiset(t[1..])
  {
    assert s == [s[0]] + s[1..] && t == [t[0]] + t[1..];
    assert multiset(s[1..]) == multiset(s) - multiset{s[0]};
    assert multiset(t[1..]) == multiset(t) - multiset{t[0]};
  }

  /** What holds of a sorted sequence with distinct keys holds of its rest. */
  lemma RestSorted<T(!new)>(s: seq<T>, key: T -> string)
    requires SortedBy(s, key) && s != []
    ensures SortedBy(s[1..], key)
    ensures KeyedApart(s, key) ==> KeyedApart(s[1..], key)
  {
    assert forall x | x in s[1..] :: x in s;
  }

  /** Whatever order an unstable sort leaves equal keys in, the outcome is unique when equal keys
      mean equal elements. */
  lemma {:induction false} SortedUnique<T(!new)>(s: seq<T>, t: seq<T>, key: T -> string)
    requires multiset(s) == multiset(t)
    requires SortedBy(s, key) && SortedBy(t, key)
    requires KeyedApart(s, key)
    ensures s == t
  {
    SameSize(s, t);
    if s != [] {
      SameFirst(s, t, key);
      SameRest(s, t);
      RestSorted(s, key);
      RestSorted(t, key);
      SortedUnique(s[1..], t[1..], key);
      assert s == [s[0]] + s[1..] && t == [t[0]] + t[1..];
    }
  }

  /** A strictly increasing arrangement is what sorting yields. */
  lemma SortYields<T(!new)>(s: seq<T>, t: seq<T>, key: T -> string)
    requires multiset(s) == multiset(t)
    requires forall i | 0 < i < |t| :: Less(key(t[i - 1]), key(t[i]))
    ensures SortBy(s, key) == t
  {
    var keys := seq(|t|, i requires 0 <= i < |t| => key(t[i]));
    NeighboursSuffice(keys);
    forall i, j | 0 <= i < j < |t| ensures Less(key(t[i]), key(t[j])) {
      assert Less(keys[i], keys[j]);
    }
    SortByCorrect(s, key);
    KeysDistinctPermuted(t, t, key);
    SortedUnique(t, SortBy(s, key), key);
  }

  /** Four declared elements whose sorted order is second, fourth, third, first. */
  lemma SortYieldsFour<T(!new)>(r: T, a: T, n: T, x: T, key: T -> string)
    requires Less(key(a), key(x)) && Less(key(x), key(n)) && Less(key(n), key(r))
    ensures SortBy([r, a, n, x], key) == [a, x, n, r]
  {
    FourRearranged(r, a, n, x);
    SortYields([r, a, n, x], [a, x, n, r], key);
  }

  lemma FourRearranged<T>(r: T, a: T, n: T, x: T)
    ensures multiset([r, a, n, x]) == multiset([a, x, n, r])
  {
    AsMultiset(r, a, n, x);
    AsMultiset(a, x, n, r);
  }

  lemma AsMultiset<T>(r: T, a: T, n: T, x: T)
    ensures multiset([r, a, n, x]) == multiset{r, a, n, x}
  {
  }

  lemma FirstIsLeast<T>(s: seq<T>, key: T -> string, x: T)
    requires SortedBy(s, key) && x in s
    ensures AtMost(key(s[0]), key(x))
  {
    AtMostReflexive(key(x));
  }

  /** sort.Slice and sort.Strings: the array becomes some sorted arrangement of what it held. The
      library does not say where elements with equal keys end up, and neither does this contract. */
  method Sort<T>(a: array<T>, key: T -> string)
    modifies a
    ensures SortedBy(a[..], key)
    ensures multiset(a[..]) == multiset(old(a[..]))
  {
    var s := SortBy(a[..], key);
    SortByCorrect(a[..], key);
    forall i | 0 <= i < a.Length {
      a[i] := s[i];
    }
    assert a[..] == s;
  }

  /** No element occurs twice. */
  ghost predicate Distinct<T>(s: seq<T>) {
    forall i, j | 0 <= i < j < |s| :: s[i] != s[j]
  }

  /** No two positions share a key. */
  ghost predicate KeysDistinct<T>(s: seq<T>, key: T -> string) {
    forall i, j | 0 <= i < j < |s| :: KeysDiffer(s, key, i, j)
  }

  ghost predicate KeysDiffer<T>(s: seq<T>, key: T -> string, i: nat, j: nat)
    requires i < j < |s|
  {
    key(s[i]) != key(s[j])
  }

  lemma TwiceInMultiset<T>(s: seq<T>, i: nat, j: nat)
    requires i < j < |s| && s[i] == s[j]
    ensures multiset(s)[s[i]] >= 2
  {
    assert s == s[..j] + s[j..];
    assert s[..j][i] in s[..j] && s[j..][0] in s[j..];
  }

  lemma {:induction false} TwicePositions<T>(s: seq<T>, x: T)
    requires multiset(s)[x] >= 2
    ensures exists i, j :: 0 <= i < j < |s| && s[i] == x && s[j] == x
  {
    assert s == [s[0]] + s[1..];
    if s[0] == x {
      assert x in s[1..];
      var j :| 0 <= j < |s[1..]| && s[1..][j] == x;
      assert s[0] == x && s[j + 1] == x;
    } else {
      TwicePositions(s[1..], x);
      var i, j :| 0 <= i < j < |s[1..]| && s[1..][i] == x && s[1..][j] == x;
      assert s[i + 1] == x && s[j + 1] == x;
    }
  }

  lemma OnceInMultiset<T>(s: seq<T>, x: T)
    requires Distinct(s)
    ensures multiset(s)[x] == if x in s then 1 else 0
  {
    if multiset(s)[x] >= 2 { TwicePositions(s, x); }
  }

  /** Sequences that hold the same elements, each once, are rearrangements of each other. */
  lemma SameElementsOnce<T>(s: seq<T>, t: seq<T>)
    requires Distinct(s) && Distinct(t)
    requires forall x | x in s :: x in t
    requires forall x | x in t :: x in s
    ensures multiset(s) == multiset(t)
  {
    forall x: T | x in multiset(s) || x in multiset(t) ensures multiset(s)[x] == multiset(t)[x] {
      OnceInMultiset(s, x);
      OnceInMultiset(t, x);
    }
  }

  /** Distinctness of keys survives rearrangement. */
  lemma KeysDistinctPermuted<T(!new)>(s: seq<T>, t: seq<T>, key: T -> string)
    requires multiset(s) == multiset(t)
    requires KeysDistinct(s, key)
    ensures KeysDistinct(t, key) && KeyedApart(s, key) && KeyedApart(t, key)
  {
    forall i, j | 0 <= i < j < |t| ensures KeysDiffer(t, key, i, j) {
      assert t[i] in multiset(s) && t[j] in multiset(s);
      var k :| 0 <= k < |s| && s[k] == t[i];
      var l :| 0 <= l < |s| && s[l] == t[j];
      if t[i] == t[j] {
        TwiceInMultiset(t, i, j);
        TwicePositions(s, t[i]);
        k, l :| 0 <= k < l < |s| && s[k] == t[i] && s[l] == t[i];
      }
      assert k < l ==> KeysDiffer(s, key, k, l);
      assert l < k ==> KeysDiffer(s, key, l, k);
    }
    forall x, y | x in t && y in t && key(x) == key(y) ensures x == y {
      var i :| 0 <= i < |t| && t[i] == x;
      var j :| 0 <= j < |t| && t[j] == y;
      assert i < j ==> KeysDiffer(t, key, i, j);
      assert j < i ==> KeysDiffer(t, key, j, i);
    }
    forall x | x in s ensures x in t { assert x in multiset(s); }
  }

  /** Sorted without equal neighbours: strictly increasing. */
  ghost predicate Increasing(s: seq<string>) {
    forall i, j | 0 <= i < j < |s| :: Less(s[i], s[j])
  }

  /** Strict order between neighbours is strict order throughout. */
  lemma {:induction false} NeighboursSuffice(s: seq<string>)
    requires forall i | 0 < i < |s| :: Less(s[i - 1], s[i])
    ensures Increasing(s)
  {
    if s != [] {
      var t := s[..|s| - 1];
      NeighboursSuffice(t);
      forall i, j | 0 <= i < j < |s| ensures Less(s[i], s[j]) {
        if j < |t| {
          assert Less(t[i], t[j]);
        } else if i < j - 1 {
          assert Less(t[i], t[j - 1]);
          LessTransitive(s[i], s[j - 1], s[j]);
        }
      }
    }
  }
}
