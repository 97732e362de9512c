/** The two independent walkers that reject repeated member names in a stream of JSON tokens
    (permission_manifest.go and cmd/iam-codegen/upload.go). */
module Walkers {
  import opened Text
  import opened Json

  datatype Token =
    | OpenObject | CloseObject | OpenArray | CloseArray
    | Name(text: string)  // a string, be it a member name or a value
    | NullToken | BoolToken(truth: bool) | NumberToken(literal: string)
  {
    predicate Closes() {
      CloseObject? || CloseArray?
    }

    predicate Opens() {
      OpenObject? || OpenArray?
    }
  }

  /** The tokens of a value, as json.Decoder delivers them. */
  function Tokens(v: Json): (ts: seq<Token>)
    ensures ts != [] && !ts[0].Closes()
    decreases v, 0
  {
    match v
    case Null => [NullToken]
    case Bool(b) => [BoolToken(b)]
    case Number(literal) => [NumberToken(literal)]
    case Str(text) => [Name(text)]
    case Arr(items) => [OpenArray] + ItemTokens(items) + [CloseArray]
    case Obj(members) => [OpenObject] + MemberTokens(members) + [CloseObject]
  }

  function ItemTokens(items: seq<Json>): seq<Token>
    decreases items
  {
    if items == [] then [] else Tokens(items[0]) + ItemTokens(items[1..])
  }

  function MemberTokens(members: seq<Member>): seq<Token>
    decreases members
  {
    if members == [] then [] else [Name(members[0].name)] + Tokens(members[0].value) + MemberTokens(members[1..])
  }

  // ----- The decoder and the walkers

  /** json.Decoder on a body: tokens until the stream ends, cleanly or in a syntax error. */
  class Decoder {
    var rest: seq<Token>
    const clean: bool

    constructor (tokens: seq<Token>, clean: bool)
      ensures rest == tokens && this.clean == clean
    {
      rest := tokens;
      this.clean := clean;
    }

    /** Decoder.More: another element, as opposed to a closing delimiter or the end. */
    predicate More()
      reads this
    {
      rest != [] && !rest[0].Closes()
    }

    /** Decoder.Token; None is an error, at the end of the stream. */
    method Next() returns (token: Option<Token>)
      modifies this
      ensures old(rest) == [] ==> token == None && rest == []
      ensures old(rest) != [] ==> token == Some(old(rest)[0]) && rest == old(rest)[1..]
    {
      if rest == [] {
        return None;
      }
      token := Some(rest[0]);
      rest := rest[1..];
    }

    /** Whether the stream is over without an error: what io.EOF says. */
    predicate AtEnd()
      reads this
    {
      rest == [] && clean
    }
  }

  /** What one walk leaves of the stream, or None when it fails. A strict walk insists that a closing
      delimiter has the kind of the opening one. */
  function Walk(s: seq<Token>, strict: bool): (r: Option<seq<Token>>)
    ensures r.Some? ==> |r.value| < |s|
    decreases |s|, 1
  {
    if s == [] || s[0].Closes() then None
    else
      match s[0]
      case OpenObject => WalkMembers(s[1..], {}, strict)
      case OpenArray => WalkItems(s[1..], strict)
      case _ => Some(s[1..])
  }

  function WalkMembers(s: seq<Token>, seen: set<string>, strict: bool): (r: Option<seq<Token>>)
    ensures r.Some? ==> |r.value| < |s|
    decreases |s|, 0
  {
    if s == [] then None
    else if s[0].Closes() then if strict && !s[0].CloseObject? then None else Some(s[1..])
    else if !s[0].Name? || s[0].text in seen then None
    else
      match Walk(s[1..], strict)
      case None => None
      case Some(t) => WalkMembers(t, seen + {s[0].text}, strict)
  }

  function WalkItems(s: seq<Token>, strict: bool): (r: Option<seq<Token>>)
    ensures r.Some? ==> |r.value| < |s|
    decreases |s|, 2
  {
    if s == [] then None
    else if s[0].Closes() then if strict && !s[0].CloseArray? then None else Some(s[1..])
    else
      match Walk(s, strict)
      case None => None
      case Some(t) => WalkItems(t, strict)
  }

  /** The closure of permission_manifest.go: closing delimiters are read without being looked at. */
  method WalkManifest(decoder: Decoder) returns (ok: bool)
    modifies decoder
    ensures var r := Walk(old(decoder.rest), false); ok == r.Some? && (ok ==> decoder.rest == r.value)
    decreases |decoder.rest|
  {
    ghost var start := decoder.rest;
    var token := decoder.Next();
    if token.None? {
      return false;
    }
    if !token.value.Opens() && !token.value.Closes() {
      return true;
    }
    if token.value.OpenObject? {
      var seen: set<string> := {};
      while decoder.More()
        invariant |decoder.rest| < |start|
        invariant WalkMembers(decoder.rest, seen, false) == WalkMembers(start[1..], {}, false)
        decreases |decoder.rest|
      {
        var key := decoder.Next();
        if !key.value.Name? || key.value.text in seen {
          return false;
        }
        seen := seen + {key.value.text};
        ok := WalkManifest(decoder);
        if !ok {
          return false;
        }
      }
      var closing := decoder.Next();
      return closing.Some?;
    } else if token.value.OpenArray? {
      while decoder.More()
        invariant |decoder.rest| < |start|
        invariant WalkItems(decoder.rest, false) == WalkItems(start[1..], false)
        decreases |decoder.rest|
      {
        ok := WalkManifest(decoder);
        if !ok {
          return false;
        }
      }
      var closing := decoder.Next();
      return closing.Some?;
    } else {
      return false;
    }
  }

  /** The function of upload.go: the closing delimiter must match. */
  method WalkUpload(decoder: Decoder) returns (ok: bool)
    modifies decoder
    ensures var r := Walk(old(decoder.rest), true); ok == r.Some? && (ok ==> decoder.rest == r.value)
    decreases |decoder.rest|
  {
    ghost var start := decoder.rest;
    var token := decoder.Next();
    if token.None? {
      return false;
    }
    if !token.value.Opens() && !token.value.Closes() {
      return true;
    }
    if token.value.OpenObject? {
      var members: set<string> := {};
      while decoder.More()
        invariant |decoder.rest| < |start|
        invariant WalkMembers(decoder.rest, members, true) == WalkMembers(start[1..], {}, true)
        decreases |decoder.rest|
      {
        var name := decoder.Next();
        if !name.value.Name? {
          return false;
        }
        if name.value.text in members {
          return false;
        }
        members := members + {name.value.text};
        ok := WalkUpload(decoder);
        if !ok {
          return false;
        }
      }
    } else if token.value.OpenArray? {
      while decoder.More()
        invariant |decoder.rest| < |start|
        invariant WalkItems(decoder.rest, true) == WalkItems(start[1..], true)
        decreases |decoder.rest|
      {
        ok := WalkUpload(decoder);
        if !ok {
          return false;
        }
      }
    } else {
      return false;
    }
    var closing := decoder.Next();
    if closing.None? {
      return false;
    }
    return closing.value == if token.value.OpenObject? then CloseObject else CloseArray;
  }

  /** rejectDuplicateJSONMembers of permission_manifest.go: one value, then the end of the body. */
  method RejectDuplicatesManifest(tokens: seq<Token>, clean: bool) returns (ok: bool)
    ensures ok <==> Walk(tokens, false) == Some([]) && clean
    ensures Nested(tokens, []) ==> (ok <==> clean && exists v :: NoDuplicates(v) && tokens == Tokens(v))
  {
    if Nested(tokens, []) { BodiesAccepted(tokens); }
    var decoder := new Decoder(tokens, clean);
    ok := WalkManifest(decoder);
    if ok {
      ok := decoder.AtEnd();
    }
  }

  /** The structure check of loadPermissionManifest. */
  method RejectDuplicatesUpload(tokens: seq<Token>, clean: bool) returns (ok: bool)
    ensures ok <==> clean && exists v :: NoDuplicates(v) && tokens == Tokens(v)
  {
    StrictWalkExactly(tokens, []);
    assert forall v :: Tokens(v) + [] == Tokens(v);
    var structure := new Decoder(tokens, clean);
    ok := WalkUpload(structure);
    if ok {
      ok := structure.AtEnd();
    }
  }

  // ----- What a walk decides

  ghost predicate FreshNames(members: seq<Member>, seen: set<string>) {
    && (forall m | m in members :: m.name !in seen)
    && (forall i, j | 0 <= i < j < |members| :: members[i].name != members[j].name)
  }

  /** On the tokens of a value and any rest, a walk succeeds exactly when no object repeats a name, and
      then leaves exactly the rest: it consumes one value. */
  lemma {:induction false} WalkDecides(v: Json, rest: seq<Token>, strict: bool)
    ensures Walk(Tokens(v) + rest, strict) == if NoDuplicates(v) then Some(rest) else None
    decreases v, 0
  {
    var s := Tokens(v) + rest;
    match v {
      case Arr(items) =>
        assert s[1..] == ItemTokens(items) + [CloseArray] + rest;
        WalkItemsDecides(items, rest, strict);
      case Obj(members) =>
        assert s[1..] == MemberTokens(members) + [CloseObject] + rest;
        WalkMembersDecides(members, {}, rest, strict);
      case _ => assert s[1..] == rest;
    }
  }

  lemma {:induction false} WalkItemsDecides(items: seq<Json>, rest: seq<Token>, strict: bool)
    ensures WalkItems(ItemTokens(items) + [CloseArray] + rest, strict) ==
            if forall i | i in items :: NoDuplicates(i) then Some(rest) else None
    decreases items
  {
    var s := ItemTokens(items) + [CloseArray] + rest;
    if items == [] {
      assert s[1..] == rest;
    } else {
      var t := ItemTokens(items[1..]) + [CloseArray] + rest;
      assert s == Tokens(items[0]) + t;
      assert items == [items[0]] + items[1..];
      WalkDecides(items[0], t, strict);
      WalkItemsDecides(items[1..], rest, strict);
    }
  }

  lemma {:induction false} WalkMembersDecides(members: seq<Member>, seen: set<string>, rest: seq<Token>, strict: bool)
    ensures WalkMembers(MemberTokens(members) + [CloseObject] + rest, seen, strict) ==
            if FreshNames(members, seen) && forall m | m in members :: NoDuplicates(m.value) then Some(rest) else None
    decreases members
  {
    var s := MemberTokens(members) + [CloseObject] + rest;
    if members == [] {
      assert s[1..] == rest;
    } else {
      var name := members[0].name;
      var t := MemberTokens(members[1..]) + [CloseObject] + rest;
      assert s[0] == Name(name) && s[1..] == Tokens(members[0].value) + t;
      assert members == [members[0]] + members[1..];
      WalkDecides(members[0].value, t, strict);
      WalkMembersDecides(members[1..], seen + {name}, rest, strict);
      FreshNamesStep(members, seen);
    }
  }

  lemma FreshNamesStep(members: seq<Member>, seen: set<string>)
    requires members != []
    ensures FreshNames(members, seen) <==>
            members[0].name !in seen && FreshNames(members[1..], seen + {members[0].name})
  {
    assert members == [members[0]] + members[1..];
    if FreshNames(members[1..], seen + {members[0].name}) {
      forall j | 0 < j < |members| ensures members[0].name != members[j].name {
        assert members[j] in members[1..];
      }
    }
    if FreshNames(members, seen) {
      forall m | m in members[1..] ensures m.name != members[0].name {
        var j :| 0 <= j < |members[1..]| && members[1..][j] == m;
        assert members[j + 1] == m;
      }
    }
  }

  // ----- Nothing else is accepted

  /** Whatever a strict walk consumes is the tokens of a value without repeated names. */
  lemma {:induction false} StrictWalkReads(s: seq<Token>) returns (v: Json)
    requires Walk(s, true).Some?
    ensures NoDuplicates(v) && s == Tokens(v) + Walk(s, true).value
    decreases |s|, 1
  {
    match s[0] {
      case OpenObject =>
        var members := StrictMembersRead(s[1..], {});
        v := Obj(members);
        assert s == [s[0]] + s[1..];
      case OpenArray =>
        var items := StrictItemsRead(s[1..]);
        v := Arr(items);
        assert s == [s[0]] + s[1..];
      case Name(text) => v := Str(text);
      case NullToken => v := Null;
      case BoolToken(b) => v := Bool(b);
      case NumberToken(literal) => v := Number(literal);
    }
  }

  lemma {:induction false} StrictItemsRead(s: seq<Token>) returns (items: seq<Json>)
    requires WalkItems(s, true).Some?
    ensures forall i | i in items :: NoDuplicates(i)
    ensures s == ItemTokens(items) + [CloseArray] + WalkItems(s, true).value
    decreases |s|, 2
  {
    if s[0].Closes() {
      items := [];
    } else {
      var item := StrictWalkReads(s);
      var more := StrictItemsRead(Walk(s, true).value);
      items := [item] + more;
      assert items[1..] == more;
    }
  }

  lemma MemberTokensNext(s: seq<Token>, value: Json, more: seq<Member>, rest: seq<Token>)
    requires s != [] && s[0].Name? && s[1..] == Tokens(value) + (MemberTokens(more) + [CloseObject] + rest)
    ensures s == MemberTokens([Member(s[0].text, value)] + more) + [CloseObject] + rest
  {
    assert ([Member(s[0].text, value)] + more)[1..] == more;
    assert s == [s[0]] + s[1..];
  }

  lemma {:induction false} StrictMembersRead(s: seq<Token>, seen: set<string>) returns (members: seq<Member>)
    requires WalkMembers(s, seen, true).Some?
    ensures FreshNames(members, seen) && forall m | m in members :: NoDuplicates(m.value)
    ensures s == MemberTokens(members) + [CloseObject] + WalkMembers(s, seen, true).value
    decreases |s|, 0
  {
    if s[0].Closes() {
      members := [];
    } else {
      var value := StrictWalkReads(s[1..]);
      var more := StrictMembersRead(Walk(s[1..], true).value, seen + {s[0].text});
      members := [Member(s[0].text, value)] + more;
      assert members[1..] == more;
      FreshNamesStep(members, seen);
      MemberTokensNext(s, value, more, WalkMembers(s, seen, true).value);
    }
  }

  /** upload.go's walker over any stream whatever: it succeeds, leaving `rest`, exactly when the stream
      is the tokens of a value without repeated names followed by `rest`. */
  lemma StrictWalkExactly(s: seq<Token>, rest: seq<Token>)
    ensures Walk(s, true) == Some(rest) <==> exists v :: NoDuplicates(v) && s == Tokens(v) + rest
  {
    if Walk(s, true) == Some(rest) {
      var v := StrictWalkReads(s);
      assert NoDuplicates(v) && s == Tokens(v) + rest;
    }
    forall v | NoDuplicates(v) && s == Tokens(v) + rest ensures Walk(s, true) == Some(rest) {
      WalkDecides(v, rest, true);
    }
  }

  // ----- The two walkers agree

  /** Each closing delimiter closes the innermost open one of its kind, which json.Decoder guarantees of
      every stream it delivers, however the stream ends. */
  predicate Nested(s: seq<Token>, open: seq<Token>) {
    if s == [] then true
    else if s[0].Opens() then Nested(s[1..], open + [s[0]])
    else if s[0].Closes() then
      && open != []
      && open[|open| - 1] == (if s[0].CloseObject? then OpenObject else OpenArray)
      && Nested(s[1..], open[..|open| - 1])
    else Nested(s[1..], open)
  }

  /** The manifest walker ignores the kind of a closing delimiter; on nested streams that makes no
      difference to the verdict or to what is left. */
  lemma {:induction false} WalkersAgree(s: seq<Token>, open: seq<Token>)
    requires Nested(s, open)
    ensures Walk(s, false) == Walk(s, true)
    ensures Walk(s, true).Some? ==> Nested(Walk(s, true).value, open)
    decreases |s|, 1
  {
    if s != [] && s[0].OpenObject? {
      MembersAgree(s[1..], {}, open);
    } else if s != [] && s[0].OpenArray? {
      ItemsAgree(s[1..], open);
    }
  }

  lemma {:induction false} MembersAgree(s: seq<Token>, seen: set<string>, open: seq<Token>)
    requires Nested(s, open + [OpenObject])
    ensures WalkMembers(s, seen, false) == WalkMembers(s, seen, true)
    ensures WalkMembers(s, seen, true).Some? ==> Nested(WalkMembers(s, seen, true).value, open)
    decreases |s|, 0
  {
    if s != [] && s[0].Closes() {
      assert (open + [OpenObject])[..|open|] == open;
    } else if s != [] && s[0].Name? && s[0].text !in seen {
      WalkersAgree(s[1..], open + [OpenObject]);
      if Walk(s[1..], true).Some? {
        MembersAgree(Walk(s[1..], true).value, seen + {s[0].text}, open);
      }
    }
  }

  lemma {:induction false} ItemsAgree(s: seq<Token>, open: seq<Token>)
    requires Nested(s, open + [OpenArray])
    ensures WalkItems(s, false) == WalkItems(s, true)
    ensures WalkItems(s, true).Some? ==> Nested(WalkItems(s, true).value, open)
    decreases |s|, 2
  {
    if s != [] && s[0].Closes() {
      assert (open + [OpenArray])[..|open|] == open;
    } else if s != [] {
      WalkersAgree(s, open + [OpenArray]);
      if Walk(s, true).Some? {
        ItemsAgree(Walk(s, true).value, open);
      }
    }
  }

  /** Both walkers read a whole body exactly when it is one JSON value in which no object at any depth
      repeats a member name. */
  lemma BodiesAccepted(tokens: seq<Token>)
    requires Nested(tokens, [])
    ensures Walk(tokens, false) == Some([]) <==> exists v :: NoDuplicates(v) && tokens == Tokens(v)
    ensures Walk(tokens, true) == Some([]) <==> exists v :: NoDuplicates(v) && tokens == Tokens(v)
  {
    WalkersAgree(tokens, []);
    StrictWalkExactly(tokens, []);
    assert forall v :: Tokens(v) + [] == Tokens(v);
  }

  /** The tokens of any value are nested, whatever surrounds them. */
  lemma {:induction false} TokensNested(v: Json, rest: seq<Token>, open: seq<Token>)
    ensures Nested(Tokens(v) + rest, open) <==> Nested(rest, open)
    decreases v, 0
  {
    var s := Tokens(v) + rest;
    match v {
      case Arr(items) =>
        var closing := [CloseArray] + rest;
        assert s[1..] == ItemTokens(items) + closing;
        ItemTokensNested(items, closing, open + [OpenArray]);
        assert closing[1..] == rest && (open + [OpenArray])[..|open|] == open;
      case Obj(members) =>
        var closing := [CloseObject] + rest;
        assert s[1..] == MemberTokens(members) + closing;
        MemberTokensNested(members, closing, open + [OpenObject]);
        assert closing[1..] == rest && (open + [OpenObject])[..|open|] == open;
      case _ => assert s[1..] == rest;
    }
  }

  lemma {:induction false} ItemTokensNested(items: seq<Json>, rest: seq<Token>, open: seq<Token>)
    ensures Nested(ItemTokens(items) + rest, open) <==> Nested(rest, open)
    decreases items
  {
    if items == [] {
      assert ItemTokens(items) + rest == rest;
    } else {
      var t := ItemTokens(items[1..]) + rest;
      assert ItemTokens(items) + rest == Tokens(items[0]) + t;
      TokensNested(items[0], t, open);
      ItemTokensNested(items[1..], rest, open);
    }
  }

  lemma NameNested(name: string, s: seq<Token>, open: seq<Token>)
    ensures Nested([Name(name)] + s, open) == Nested(s, open)
  {
    assert ([Name(name)] + s)[1..] == s;
  }

  lemma {:induction false} MemberTokensNested(members: seq<Member>, rest: seq<Token>, open: seq<Token>)
    ensures Nested(MemberTokens(members) + rest, open) <==> Nested(rest, open)
    decreases members
  {
    if members == [] {
      assert MemberTokens(members) + rest == rest;
    } else {
      var t := MemberTokens(members[1..]) + rest;
      var u := Tokens(members[0].value) + t;
      assert MemberTokens(members) + rest == [Name(members[0].name)] + u;
      NameNested(members[0].name, u, open);
      TokensNested(members[0].value, t, open);
      MemberTokensNested(members[1..], rest, open);
    }
  }

  /** Off nested streams the two do differ: only the manifest walker lets a bracket close a brace. */
  lemma LooseClosing()
    ensures Walk([OpenObject, CloseArray], false) == Some([])
    ensures Walk([OpenObject, CloseArray], true) == None
  {
    assert [OpenObject, CloseArray][1..] == [CloseArray] && [CloseArray][1..] == [];
  }
}
