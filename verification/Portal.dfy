/** The machine-token cache of the Portal client: one token per scope, expiry with a skew, clears, and the
    routing of methods to scopes (portal_open_api_client.go). The client's mutex is held across a whole
    GetMachineToken, so operations are atomic; time may pass between them and while the issuer answers. */
module Portal {
  import opened Text

  const READ_SCOPE := "portal:openapi:read"
  const WRITE_SCOPE := "portal:openapi:write"

  predicate IsScope(scope: string) {
    scope in {
      READ_SCOPE, WRITE_SCOPE, "registration_grants:read", "registration_grants:write",
      "registration_grants:redemptions:read", "organizations:read", "organizations:write",
      "organization_invitations:read", "organization_invitations:write",
      "organization_members:read", "organization_members:write",
      "roles:read", "roles:write", "permissions:read", "permissions:write",
      "role_permissions:read", "role_permissions:write", "user_roles:read", "user_roles:write"}
  }

  /** Times are in nanoseconds. */
  datatype MachineToken = MachineToken(accessToken: string, scope: string, expiresAt: int)

  /** What the issuer answers; a missing or mistyped member is "" or None. */
  datatype TokenReply =
    | NoReply
    | TokenReply(status: int, accessToken: string, tokenType: string, expiresIn: Option<real>, scope: string)

  datatype TokenError =
    | UnknownScope | TransportFailed | Rejected(status: int) | MissingBearer | InvalidResponse | InvalidScope

  datatype RequestError = BadMethod | BadPath | NoToken(error: TokenError)

  // ----- Strings

  function TrimLeft(s: string): string {
    if s != [] && IsSpace(s[0]) then TrimLeft(s[1..]) else s
  }

  function TrimRight(s: string): string {
    if s != [] && IsSpace(s[|s| - 1]) then TrimRight(s[..|s| - 1]) else s
  }

  /** strings.TrimSpace. */
  function TrimSpace(s: string): string {
    TrimRight(TrimLeft(s))
  }

  function Upper(s: string): string {
    if s == [] then [] else [ToUpper(s[0])] + Upper(s[1..])
  }

  /** strings.Fields: the maximal runs of characters that are not white space. */
  function Fields(s: string): seq<string> {
    FieldsFrom(s, "")
  }

  function FieldsFrom(s: string, field: string): seq<string> {
    if s == [] then if field == "" then [] else [field]
    else if IsSpace(s[0]) then (if field == "" then [] else [field]) + FieldsFrom(s[1..], "")
    else FieldsFrom(s[1..], field + [s[0]])
  }

  // ----- Issuing

  function Max(x: real, y: real): real {
    if x < y then y else x
  }

  /** The lifetime in nanoseconds of a token that expires in so many seconds. */
  function TimeToLive(expiresIn: real, skew: nat): int {
    (Max(expiresIn - skew as real / 1_000_000_000.0, 0.0) * 1_000_000_000.0).Floor
  }

  function Issue(skew: nat, scope: string, reply: TokenReply, received: int): Result<MachineToken, TokenError> {
    match reply
    case NoReply => Err(TransportFailed)
    case TokenReply(status, accessToken, tokenType, expiresIn, responseScope) =>
      if status >= 400 then Err(Rejected(status))
      else if TrimSpace(accessToken) == "" || !IsBearer(tokenType) then Err(MissingBearer)
      else if expiresIn.None? || expiresIn.value <= 0.0 then Err(InvalidResponse)
      else if scope !in Fields(if responseScope == "" then scope else responseScope) then Err(InvalidScope)
      else Ok(MachineToken(TrimSpace(accessToken), scope, received + TimeToLive(expiresIn.value, skew)))
  }

  // ----- What the checks on an answer mean

  lemma LifetimeExceeds(expiresIn: real, skew: nat, later: nat)
    ensures TimeToLive(expiresIn, skew) > later <==> expiresIn * 1_000_000_000.0 >= skew as real + 1.0 + later as real
  {
    var ttl := Max(expiresIn - skew as real / 1_000_000_000.0, 0.0) * 1_000_000_000.0;
    assert ttl == Max(expiresIn * 1_000_000_000.0 - skew as real, 0.0);
    assert ttl.Floor > later <==> ttl >= later as real + 1.0;
  }

  /** At `i`, between white space or the ends of `s`, stands `f`, which holds none itself. */
  ghost predicate WordAt(s: string, i: nat, f: string) {
    && f != "" && i + |f| <= |s| && s[i..i + |f|] == f
    && (forall k | 0 <= k < |f| :: !IsSpace(f[k]))
    && (i == 0 || IsSpace(s[i - 1]))
    && (i + |f| == |s| || IsSpace(s[i + |f|]))
  }

  ghost predicate IsWord(s: string, f: string) {
    exists i: nat :: WordAt(s, i, f)
  }

  ghost predicate SpaceFree(s: string) {
    forall k | 0 <= k < |s| :: !IsSpace(s[k])
  }

  lemma OnlyWord(a: string, f: string)
    requires SpaceFree(a)
    ensures IsWord(a, f) <==> a != "" && f == a
  {
    if a != "" && f == a { assert WordAt(a, 0, f); }
  }

  lemma WordBefore(a: string, c: char, b: string, f: string, i: nat)
    requires SpaceFree(a) && IsSpace(c) && i <= |a| && WordAt(a + [c] + b, i, f)
    ensures f == a
  {
    var s := a + [c] + b;
    assert s[|a|] == c && forall k | 0 <= k < |a| :: s[k] == a[k];
    assert i + |f| <= |a| by { assert forall k | 0 <= k < |f| :: f[k] == s[i + k]; }
    assert s[..|a|] == a;
  }

  lemma WordAfter(a: string, c: char, b: string, f: string, j: nat)
    requires IsSpace(c) && j + |f| <= |b|
    ensures WordAt(a + [c] + b, j + |a| + 1, f) <==> WordAt(b, j, f)
  {
    var s, i := a + [c] + b, j + |a| + 1;
    assert s[i..i + |f|] == b[j..j + |f|];
    assert s[i - 1] == if j == 0 then c else b[j - 1];
  }

  lemma WordAround(a: string, c: char, b: string, f: string)
    requires SpaceFree(a) && IsSpace(c)
    ensures IsWord(a + [c] + b, f) <==> (a != "" && f == a) || IsWord(b, f)
  {
    var s := a + [c] + b;
    if i: nat :| WordAt(s, i, f) {
      if i <= |a| {
        WordBefore(a, c, b, f, i);
      } else {
        WordAfter(a, c, b, f, i - |a| - 1);
      }
    }
    if a != "" && f == a {
      assert s[0..|f|] == f;
      assert WordAt(s, 0, f);
    }
    if j: nat :| WordAt(b, j, f) {
      WordAfter(a, c, b, f, j);
    }
  }

  lemma {:induction false} FieldsFromExactly(s: string, field: string, f: string)
    requires SpaceFree(field)
    ensures f in FieldsFrom(s, field) <==> IsWord(field + s, f)
    decreases |s|
  {
    if s == [] {
      assert field + s == field;
      OnlyWord(field, f);
    } else if IsSpace(s[0]) {
      assert field + s == field + [s[0]] + s[1..];
      WordAround(field, s[0], s[1..], f);
      FieldsFromExactly(s[1..], "", f);
      assert "" + s[1..] == s[1..];
    } else {
      assert field + s == field + [s[0]] + s[1..];
      FieldsFromExactly(s[1..], field + [s[0]], f);
    }
  }

  /** strings.Fields yields exactly the words of a text. */
  lemma FieldsExactly(s: string, f: string)
    ensures f in Fields(s) <==> IsWord(s, f)
  {
    FieldsFromExactly(s, "", f);
    assert "" + s == s;
  }

  lemma {:induction false} TrimLeftMeans(s: string) returns (lead: string)
    ensures s == lead + TrimLeft(s) && Blank(lead)
    ensures TrimLeft(s) != [] ==> !IsSpace(TrimLeft(s)[0])
  {
    if s != [] && IsSpace(s[0]) {
      lead := TrimLeftMeans(s[1..]);
      lead := [s[0]] + lead;
    } else {
      lead := [];
    }
  }

  lemma {:induction false} TrimRightMeans(s: string) returns (trail: string)
    ensures s == TrimRight(s) + trail && Blank(trail)
    ensures TrimRight(s) != [] ==> !IsSpace(TrimRight(s)[|TrimRight(s)| - 1])
  {
    if s != [] && IsSpace(s[|s| - 1]) {
      trail := TrimRightMeans(s[..|s| - 1]);
      trail := trail + [s[|s| - 1]];
    } else {
      trail := [];
    }
  }

  /** What is trimmed off is white space, all of it at either end. */
  lemma TrimSpaceMeans(s: string) returns (lead: string, trail: string)
    ensures s == lead + TrimSpace(s) + trail && Blank(lead) && Blank(trail)
    ensures Trimmed(TrimSpace(s))
    ensures TrimSpace(s) == "" <==> Blank(s)
  {
    lead := TrimLeftMeans(s);
    trail := TrimRightMeans(TrimLeft(s));
    BlankAround(lead, TrimSpace(s), trail);
  }

  lemma BlankAround(lead: string, inside: string, trail: string)
    requires Blank(lead) && Blank(trail) && (inside != "" ==> !IsSpace(inside[0]))
    ensures inside == "" <==> Blank(lead + inside + trail)
  {
    if inside != "" { assert (lead + inside + trail)[|lead|] == inside[0]; }
  }

  /** Blanks at the ends do not show. */
  lemma TrimSpaceOf(lead: string, inside: string, trail: string)
    requires Blank(lead) && Blank(trail) && inside != "" && Trimmed(inside)
    ensures TrimSpace(lead + inside + trail) == inside
  {
    var s := lead + inside + trail;
    var before, after := TrimSpaceMeans(s);
    var kept := TrimSpace(s);
    assert s[|lead|] == inside[0] && s[|lead| + |inside| - 1] == inside[|inside| - 1];
    assert s[|before|] == kept[0] && s[|before| + |kept| - 1] == kept[|kept| - 1];
    assert forall i | 0 <= i < |lead| :: s[i] == lead[i];
    assert forall i | 0 <= i < |before| :: s[i] == before[i];
    assert |before| == |lead|;
    assert forall i | |s| - |trail| <= i < |s| :: s[i] == trail[i - (|s| - |trail|)];
    assert forall i | |s| - |after| <= i < |s| :: s[i] == after[i - (|s| - |after|)];
    assert |trail| == |after|;
    assert s[|lead|..|s| - |trail|] == inside == kept;
  }

  // ----- What the normalizing of a method means

  /** The character is that capital letter or has it for its upper case. */
  predicate Cased(c: char, capital: char) {
    || c == capital || c as int == capital as int + 32
    || (capital == 'I' && c == '\U{131}') || (capital == 'S' && c == '\U{17f}')
  }

  /** The text is the word in letters of either case, perhaps between white space. */
  ghost predicate Spells(text: string, word: string) {
    exists lead, inside, trail | Blank(lead) && Blank(trail) && text == lead + inside + trail ::
      |inside| == |word| && forall i | 0 <= i < |word| :: Cased(inside[i], word[i])
  }

  predicate Capitals(word: string) {
    word != "" && forall i | 0 <= i < |word| :: 'A' <= word[i] <= 'Z'
  }

  lemma {:induction false} UpperExactly(s: string, word: string)
    requires Capitals(word)
    ensures Upper(s) == word <==> |s| == |word| && forall i | 0 <= i < |s| :: Cased(s[i], word[i])
  {
    if s != "" && |word| > 1 {
      UpperExactly(s[1..], word[1..]);
      assert s == [s[0]] + s[1..] && word == [word[0]] + word[1..];
    }
  }

  lemma SpelledTrims(text: string, word: string)
    requires Capitals(word) && Spells(text, word)
    ensures Upper(TrimSpace(text)) == word
  {
    var lead, inside, trail :| Blank(lead) && Blank(trail) && text == lead + inside + trail
      && |inside| == |word| && forall i | 0 <= i < |word| :: Cased(inside[i], word[i]);
    assert Cased(inside[0], word[0]) && Cased(inside[|word| - 1], word[|word| - 1]);
    TrimSpaceOf(lead, inside, trail);
    UpperExactly(inside, word);
  }

  /** A method is taken for a verb exactly when its text spells that verb. */
  lemma NormalizeExactly(text: string, verb: string)
    ensures Normalize(text) == Some(verb) <==> verb in VERBS && Spells(text, verb)
  {
    assert verb in VERBS ==> Capitals(verb);
    if Normalize(text) == Some(verb) {
      var lead, trail := TrimSpaceMeans(text);
      UpperExactly(TrimSpace(text), verb);
    } else if verb in VERBS && Spells(text, verb) {
      SpelledTrims(text, verb);
    }
  }

  /** A token is issued exactly for an answer below 400 that brings a token that is not blank, of bearer
      type, with a positive lifetime, and whose scope, or the asked one if it gives none, has the asked scope
      among its words. The token is the one in the answer, without white space around it, and expires no earlier
      than it is received. */
  lemma IssuedExactly(skew: nat, scope: string, reply: TokenReply, received: int)
    ensures Issue(skew, scope, reply, received).Ok? <==>
            && reply.TokenReply? && reply.status < 400
            && !Blank(reply.accessToken)
            && |reply.tokenType| == 6 && (forall i | 0 <= i < 6 :: reply.tokenType[i] in {"bearer"[i], "BEARER"[i]})
            && reply.expiresIn.Some? && reply.expiresIn.value > 0.0
            && IsWord(if reply.scope == "" then scope else reply.scope, scope)
    ensures Issue(skew, scope, reply, received).Ok? ==>
              var token := Issue(skew, scope, reply, received).value;
              && token.scope == scope && token.expiresAt >= received && Trimmed(token.accessToken)
              && exists lead, trail | Blank(lead) && Blank(trail) :: reply.accessToken == lead + token.accessToken + trail
  {
    if reply.TokenReply? {
      BearerExactly(reply.tokenType);
      var lead, trail := TrimSpaceMeans(reply.accessToken);
      assert Blank(lead) && Blank(trail);
      FieldsExactly(if reply.scope == "" then scope else reply.scope, scope);
    }
  }

  // ----- Operations

  datatype Event =
    | Asked(scope: string, sent: int, received: int, reply: TokenReply)
    | Served(scope: string, token: MachineToken, at: int, cached: bool)
    | ClearedAll
    | Cleared(scope: string)
    | Called(asked: string, method': string, path: string, token: MachineToken)

  datatype State = State(now: int, cache: map<string, MachineToken>, log: seq<Event>)

  datatype Op =
    | Get(scope: string, reply: TokenReply, elapsed: nat)
    | Clear(scopes: seq<string>)
    | Request(method': string, path: string, reply: TokenReply, elapsed: nat)
    | Tick(elapsed: nat)

  predicate Usable(s: State, scope: string) {
    scope in s.cache && s.cache[scope].expiresAt > s.now
  }

  function Record(s: State, event: Event): State {
    s.(log := s.log + [event])
  }

  /** What the cache becomes when the issuer has answered. */
  function Stored(skew: nat, cache: map<string, MachineToken>, asked: Event): map<string, MachineToken>
    requires asked.Asked?
  {
    match Issue(skew, asked.scope, asked.reply, asked.received)
    case Err(_) => cache
    case Ok(token) => cache[asked.scope := token]
  }

  /** Asking the issuer, which takes a while. */
  function Ask(skew: nat, s: State, scope: string, reply: TokenReply, elapsed: nat): (State, Result<MachineToken, TokenError>) {
    var received := s.now + elapsed;
    var asked := Asked(scope, s.now, received, reply);
    var s' := Record(s.(now := received).(cache := Stored(skew, s.cache, asked)), asked);
    var r := Issue(skew, scope, reply, received);
    (if r.Ok? then Record(s', Served(scope, r.value, received, false)) else s', r)
  }

  function Obtain(skew: nat, s: State, scope: string, reply: TokenReply, elapsed: nat): (State, Result<MachineToken, TokenError>) {
    if !IsScope(scope) then (s, Err(UnknownScope))
    else if Usable(s, scope) then (Record(s, Served(scope, s.cache[scope], s.now, true)), Ok(s.cache[scope]))
    else Ask(skew, s, scope, reply, elapsed)
  }

  function ClearScopes(s: State, scopes: seq<string>): State
    decreases |scopes|
  {
    if scopes == [] then s
    else
      var n := |scopes| - 1;
      var s' := ClearScopes(s, scopes[..n]);
      Record(s'.(cache := s'.cache - {scopes[n]}), Cleared(scopes[n]))
  }

  const VERBS := {"GET", "POST", "PUT", "PATCH", "DELETE"}

  function Normalize(method': string): Option<string> {
    var normalized := Upper(TrimSpace(method'));
    if normalized in VERBS then Some(normalized) else None
  }

  function ScopeForMethod(method': string): string {
    if method' == "GET" then READ_SCOPE else WRITE_SCOPE
  }

  const PORTAL_PREFIX := "/open/v1/"

  function Call(skew: nat, s: State, method': string, path: string, reply: TokenReply,
      elapsed: nat): (State, Result<MachineToken, RequestError>) {
    match Normalize(method')
    case None => (s, Err(BadMethod))
    case Some(normalized) =>
      if !(PORTAL_PREFIX <= path) then (s, Err(BadPath))
      else
        var (s', token) := Obtain(skew, s, ScopeForMethod(normalized), reply, elapsed);
        match token
        case Err(error) => (s', Err(NoToken(error)))
        case Ok(token) => (Record(s', Called(method', normalized, path, token)), Ok(token))
  }

  function Apply(skew: nat, s: State, op: Op): State {
    match op
    case Get(scope, reply, elapsed) => Obtain(skew, s, scope, reply, elapsed).0
    case Clear(scopes) => if scopes == [] then Record(s.(cache := map[]), ClearedAll) else ClearScopes(s, scopes)
    case Request(method', path, reply, elapsed) => Call(skew, s, method', path, reply, elapsed).0
    case Tick(elapsed) => s.(now := s.now + elapsed)
  }

  function Exec(skew: nat, s: State, ops: seq<Op>): State
    decreases |ops|
  {
    if ops == [] then s else Exec(skew, Apply(skew, s, ops[0]), ops[1..])
  }

  function InitialAt(now: int): State {
    State(now, map[], [])
  }

  // ----- The cache as a function of the past

  predicate Issued(skew: nat, e: Event, scope: string) {
    e.Asked? && e.scope == scope && Issue(skew, scope, e.reply, e.received).Ok?
  }

  predicate Clears(e: Event, scope: string) {
    e.ClearedAll? || (e.Cleared? && e.scope == scope)
  }

  /** The token that stands for a scope: the last one issued for it, unless it was cleared since. */
  ghost function Standing(skew: nat, log: seq<Event>, scope: string): Option<MachineToken> {
    if log == [] then None
    else
      var last := log[|log| - 1];
      if Issued(skew, last, scope) then Some(Issue(skew, scope, last.reply, last.received).value)
      else if Clears(last, scope) then None
      else Standing(skew, log[..|log| - 1], scope)
  }

  /** Each event is justified by what was recorded before it. */
  ghost predicate Justified(skew: nat, before: seq<Event>, e: Event) {
    match e
    case Asked(scope, sent, received, _) =>
      && sent <= received
      && (Standing(skew, before, scope).Some? ==> Standing(skew, before, scope).value.expiresAt <= sent)
    case Served(scope, token, at, cached) =>
      Standing(skew, before, scope) == Some(token) && token.scope == scope && (cached ==> at < token.expiresAt)
    case Called(asked, method', path, token) =>
      && before != [] && before[|before| - 1].Served? && before[|before| - 1].token == token
      && method' in VERBS && Spells(asked, method')
      && token.scope == ScopeForMethod(method') && PORTAL_PREFIX <= path
    case _ => true
  }

  ghost predicate JustifiedAt(skew: nat, log: seq<Event>, i: nat)
    requires i < |log|
  {
    Justified(skew, log[..i], log[i])
  }

  ghost predicate LogInv(skew: nat, log: seq<Event>) {
    forall i | 0 <= i < |log| :: JustifiedAt(skew, log, i)
  }

  /** The cache holds a scope's standing token, or nothing for it. */
  ghost predicate CachedRight(skew: nat, cache: map<string, MachineToken>, log: seq<Event>, scope: string) {
    Standing(skew, log, scope) == if scope in cache then Some(cache[scope]) else None
  }

  ghost predicate CacheInv(skew: nat, cache: map<string, MachineToken>, log: seq<Event>) {
    forall scope :: CachedRight(skew, cache, log, scope)
  }

  ghost predicate Inv(skew: nat, s: State) {
    CacheInv(skew, s.cache, s.log) && LogInv(skew, s.log)
  }

  lemma RecordKeeps(skew: nat, s: State, e: Event, cache: map<string, MachineToken>)
    requires Inv(skew, s) && Justified(skew, s.log, e)
    requires forall scope :: (if scope in cache then Some(cache[scope]) else None) ==
               if Issued(skew, e, scope) then Some(Issue(skew, scope, e.reply, e.received).value)
               else if Clears(e, scope) then None
               else if scope in s.cache then Some(s.cache[scope]) else None
    ensures Inv(skew, Record(s.(cache := cache), e))
  {
    var log := s.log + [e];
    assert log[..|log| - 1] == s.log && log[|log| - 1] == e;
    forall i | 0 <= i < |log| ensures JustifiedAt(skew, log, i) {
      if i < |s.log| {
        assert log[..i] == s.log[..i] && JustifiedAt(skew, s.log, i);
      }
    }
    forall scope ensures CachedRight(skew, cache, log, scope) {
      assert CachedRight(skew, s.cache, s.log, scope);
    }
  }

  lemma ServedKeeps(skew: nat, s: State, scope: string, at: int, cached: bool)
    requires Inv(skew, s) && scope in s.cache && (cached ==> at < s.cache[scope].expiresAt)
    ensures Inv(skew, Record(s, Served(scope, s.cache[scope], at, cached)))
  {
    StandingScope(skew, s.log, scope);
    assert CachedRight(skew, s.cache, s.log, scope);
    RecordKeeps(skew, s, Served(scope, s.cache[scope], at, cached), s.cache);
  }

  lemma AskJustified(skew: nat, s: State, scope: string, reply: TokenReply, elapsed: nat)
    requires CacheInv(skew, s.cache, s.log) && !Usable(s, scope)
    ensures Justified(skew, s.log, Asked(scope, s.now, s.now + elapsed, reply))
  {
    assert CachedRight(skew, s.cache, s.log, scope);
  }

  /** Asking is one event when it fails and two when it succeeds. */
  lemma AskParts(skew: nat, s: State, scope: string, reply: TokenReply, elapsed: nat)
    ensures var received := s.now + elapsed;
            var asked := Asked(scope, s.now, received, reply);
            var after := Record(s.(now := received).(cache := Stored(skew, s.cache, asked)), asked);
            if Issue(skew, scope, reply, received).Ok?
            then
              && scope in after.cache
              && Ask(skew, s, scope, reply, elapsed).0 == Record(after, Served(scope, after.cache[scope], received, false))
            else Ask(skew, s, scope, reply, elapsed).0 == after
  {
  }

  lemma AskKeeps(skew: nat, s: State, scope: string, reply: TokenReply, elapsed: nat)
    requires Inv(skew, s) && !Usable(s, scope)
    ensures Inv(skew, Ask(skew, s, scope, reply, elapsed).0)
  {
    var received := s.now + elapsed;
    var asked := Asked(scope, s.now, received, reply);
    var moved := s.(now := received);
    AskJustified(skew, s, scope, reply, elapsed);
    RecordKeeps(skew, moved, asked, Stored(skew, s.cache, asked));
    AskParts(skew, s, scope, reply, elapsed);
    if Issue(skew, scope, reply, received).Ok? {
      ServedKeeps(skew, Record(moved.(cache := Stored(skew, s.cache, asked)), asked), scope, received, false);
    }
  }

  lemma ObtainKeeps(skew: nat, s: State, scope: string, reply: TokenReply, elapsed: nat)
    requires Inv(skew, s)
    ensures Inv(skew, Obtain(skew, s, scope, reply, elapsed).0)
    ensures var (s', r) := Obtain(skew, s, scope, reply, elapsed);
            r.Ok? ==>
              && s'.log != [] && s'.log[|s'.log| - 1].Served? && s'.log[|s'.log| - 1].token == r.value
              && r.value.scope == scope
  {
    if IsScope(scope) {
      if Usable(s, scope) {
        StandingScope(skew, s.log, scope);
        assert CachedRight(skew, s.cache, s.log, scope);
        ServedKeeps(skew, s, scope, s.now, true);
      } else {
        AskKeeps(skew, s, scope, reply, elapsed);
      }
    }
  }

  lemma {:induction false} StandingScope(skew: nat, log: seq<Event>, scope: string)
    ensures Standing(skew, log, scope).Some? ==> Standing(skew, log, scope).value.scope == scope
  {
    if log != [] { StandingScope(skew, log[..|log| - 1], scope); }
  }

  lemma {:induction false} ClearKeeps(skew: nat, s: State, scopes: seq<string>)
    requires Inv(skew, s)
    ensures Inv(skew, ClearScopes(s, scopes))
    decreases |scopes|
  {
    if scopes != [] {
      var n := |scopes| - 1;
      ClearKeeps(skew, s, scopes[..n]);
      var s' := ClearScopes(s, scopes[..n]);
      RecordKeeps(skew, s', Cleared(scopes[n]), s'.cache - {scopes[n]});
    }
  }

  lemma CallKeeps(skew: nat, s: State, method': string, path: string, reply: TokenReply, elapsed: nat)
    requires Inv(skew, s)
    ensures Inv(skew, Call(skew, s, method', path, reply, elapsed).0)
  {
    var normalized := Normalize(method');
    if normalized.Some? && PORTAL_PREFIX <= path {
      var scope := ScopeForMethod(normalized.value);
      var (s', token) := Obtain(skew, s, scope, reply, elapsed);
      ObtainKeeps(skew, s, scope, reply, elapsed);
      if token.Ok? {
        NormalizeExactly(method', normalized.value);
        RecordKeeps(skew, s', Called(method', normalized.value, path, token.value), s'.cache);
      }
    }
  }

  lemma StepKeepsInv(skew: nat, s: State, op: Op)
    requires Inv(skew, s)
    ensures Inv(skew, Apply(skew, s, op))
  {
    match op {
      case Get(scope, reply, elapsed) => ObtainKeeps(skew, s, scope, reply, elapsed);
      case Clear(scopes) =>
        if scopes == [] { RecordKeeps(skew, s, ClearedAll, map[]); } else { ClearKeeps(skew, s, scopes); }
      case Request(method', path, reply, elapsed) => CallKeeps(skew, s, method', path, reply, elapsed);
      case Tick(_) =>
    }
  }

  lemma {:induction false} RunKeepsInv(skew: nat, s: State, ops: seq<Op>)
    requires Inv(skew, s)
    ensures Inv(skew, Exec(skew, s, ops))
    decreases |ops|
  {
    if ops != [] {
      StepKeepsInv(skew, s, ops[0]);
      RunKeepsInv(skew, Apply(skew, s, ops[0]), ops[1..]);
    }
  }

  // ----- What holds of every run

  /** The token stands for a scope because of event `i`: it was issued for that very scope, and neither
      replaced nor cleared since. */
  ghost predicate StandsBy(skew: nat, log: seq<Event>, scope: string, token: MachineToken, i: nat) {
    && i < |log| && Issued(skew, log[i], scope)
    && token == Issue(skew, scope, log[i].reply, log[i].received).value
    && forall j | i < j < |log| :: !Issued(skew, log[j], scope) && !Clears(log[j], scope)
  }

  lemma {:induction false} StandingMeans(skew: nat, log: seq<Event>, scope: string)
    ensures Standing(skew, log, scope).Some? ==>
              exists i :: StandsBy(skew, log, scope, Standing(skew, log, scope).value, i)
    ensures Standing(skew, log, scope).None? ==>
              forall i | 0 <= i < |log| && Issued(skew, log[i], scope) :: exists k | i < k < |log| :: Clears(log[k], scope)
  {
    if log != [] {
      var n := |log| - 1;
      StandingMeans(skew, log[..n], scope);
      if Issued(skew, log[n], scope) {
        assert StandsBy(skew, log, scope, Standing(skew, log, scope).value, n);
      } else if Clears(log[n], scope) {
      } else if Standing(skew, log, scope).Some? {
        var i :| StandsBy(skew, log[..n], scope, Standing(skew, log[..n], scope).value, i);
        assert StandsBy(skew, log, scope, Standing(skew, log, scope).value, i);
      } else {
        forall i | 0 <= i < |log| && Issued(skew, log[i], scope) ensures exists k | i < k < |log| :: Clears(log[k], scope) {
          assert Issued(skew, log[..n][i], scope);
          var k :| i < k < n && Clears(log[..n][k], scope);
          assert Clears(log[k], scope);
        }
      }
    }
  }

  /** The state that a run ends in, from an empty cache. */
  ghost predicate Reached(skew: nat, now: int, ops: seq<Op>, s: State) {
    s == Exec(skew, InitialAt(now), ops)
  }

  /** The entry cached under a scope was issued for a request that named that scope, and is neither
      outdated nor cleared. */
  lemma CachedWasIssuedForItsScope(skew: nat, now: int, ops: seq<Op>, s: State, scope: string)
    requires Reached(skew, now, ops, s) && scope in s.cache
    ensures s.cache[scope].scope == scope && exists i :: StandsBy(skew, s.log, scope, s.cache[scope], i)
  {
    RunKeepsInv(skew, InitialAt(now), ops);
    assert CachedRight(skew, s.cache, s.log, scope);
    StandingMeans(skew, s.log, scope);
    StandingScope(skew, s.log, scope);
  }

  ghost predicate ServedLive(skew: nat, log: seq<Event>, j: nat, i: nat)
    requires i < j < |log| && log[j].Served?
  {
    && StandsBy(skew, log[..j], log[j].scope, log[j].token, i)
    && (log[j].at - log[i].received) as real
       < Max(log[i].reply.expiresIn.value * 1_000_000_000.0 - skew as real, 0.0)
  }

  ghost predicate TokenFrom(skew: nat, e: Event, token: MachineToken) {
    Issued(skew, e, token.scope) && token == Issue(skew, token.scope, e.reply, e.received).value
  }

  /** A token served from the cache was issued earlier for the same scope and is served strictly before
      its reception plus its lifetime less the skew. */
  lemma ServedFromCacheIsLive(skew: nat, now: int, ops: seq<Op>, s: State, j: nat)
    requires Reached(skew, now, ops, s) && j < |s.log| && s.log[j].Served? && s.log[j].cached
    ensures exists i | 0 <= i < j :: ServedLive(skew, s.log, j, i)
  {
    RunKeepsInv(skew, InitialAt(now), ops);
    var log := s.log;
    assert JustifiedAt(skew, log, j);
    StandingMeans(skew, log[..j], log[j].scope);
    var i: nat :| StandsBy(skew, log[..j], log[j].scope, log[j].token, i);
    var age := log[j].at - log[i].received;
    if age >= 0 { LifetimeExceeds(log[i].reply.expiresIn.value, skew, age); }
    assert ServedLive(skew, log, j, i);
  }

  /** Between two consecutive successful requests to the issuer for a scope, the first token expired or
      the scope was cleared. */
  lemma ReissueNeedsExpiryOrClear(skew: nat, now: int, ops: seq<Op>, s: State, scope: string, i: nat, j: nat)
    requires Reached(skew, now, ops, s) && i < j < |s.log|
    requires Issued(skew, s.log[i], scope) && Issued(skew, s.log[j], scope)
    requires forall k | i < k < j :: !Issued(skew, s.log[k], scope)
    ensures || Issue(skew, scope, s.log[i].reply, s.log[i].received).value.expiresAt <= s.log[j].sent
            || exists k | i < k < j :: Clears(s.log[k], scope)
  {
    RunKeepsInv(skew, InitialAt(now), ops);
    assert JustifiedAt(skew, s.log, j);
    var before := s.log[..j];
    assert forall k | 0 <= k < j :: before[k] == s.log[k];
    StandingMeans(skew, before, scope);
    if Standing(skew, before, scope).Some? {
      var h :| StandsBy(skew, before, scope, Standing(skew, before, scope).value, h);
      assert h == i;
    } else {
      assert Issued(skew, before[i], scope);
      var k :| i < k < |before| && Clears(before[k], scope);
      assert Clears(s.log[k], scope);
    }
  }

  /** A Portal call goes out with the verb that was spelled when it was asked for, and carries a token issued
      for the scope of that verb: GET a read token, every other verb a write token. */
  lemma CallsCarryTheirScope(skew: nat, now: int, ops: seq<Op>, s: State, j: nat)
    requires Reached(skew, now, ops, s) && j < |s.log| && s.log[j].Called?
    ensures s.log[j].method' in VERBS && Spells(s.log[j].asked, s.log[j].method')
    ensures s.log[j].token.scope == (if s.log[j].method' == "GET" then READ_SCOPE else WRITE_SCOPE)
    ensures exists i | 0 <= i < j :: TokenFrom(skew, s.log[i], s.log[j].token)
  {
    RunKeepsInv(skew, InitialAt(now), ops);
    var log, p := s.log, j - 1;
    assert JustifiedAt(skew, log, j);
    assert log[..j][p] == log[p] && JustifiedAt(skew, log, p);
    StandingMeans(skew, log[..p], log[p].scope);
    var i: nat :| StandsBy(skew, log[..p], log[p].scope, log[p].token, i);
    assert log[..p][i] == log[i];
  }

  /** What GetMachineToken does after any run. An unknown scope is refused; an entry that has not expired is
      returned, and only then is the issuer not asked; otherwise its answer decides, and at most the entry of the
      scope changes. A token returned is one for the scope. */
  lemma GetExactly(skew: nat, now: int, ops: seq<Op>, s: State, scope: string, reply: TokenReply, elapsed: nat)
    requires Reached(skew, now, ops, s)
    ensures var (s', r) := Obtain(skew, s, scope, reply, elapsed);
            && (r == Err(UnknownScope) <==> !IsScope(scope))
            && (IsScope(scope) ==>
                  if scope in s.cache && s.now < s.cache[scope].expiresAt
                  then r == Ok(s.cache[scope]) && s'.log == s.log + [Served(scope, s.cache[scope], s.now, true)]
                  else && s'.now == s.now + elapsed && r == Issue(skew, scope, reply, s'.now)
                       && |s'.log| > |s.log| && s'.log[|s.log|] == Asked(scope, s.now, s'.now, reply))
            && (r.Ok? ==> r.value.scope == scope)
            && s'.cache == if r.Ok? then s.cache[scope := r.value] else s.cache
  {
    assert Obtain(skew, s, scope, reply, elapsed).1.Ok? ==> Obtain(skew, s, scope, reply, elapsed).1.value.scope == scope by {
      RunKeepsInv(skew, InitialAt(now), ops);
      ObtainKeeps(skew, s, scope, reply, elapsed);
    }
  }

  /** What a request does after any run. It is refused when its method spells no verb, and then when its path
      is outside the Portal. Otherwise it goes out with the verb spelled and a token of that verb's scope, unless
      there is none to be had. */
  lemma RequestExactly(skew: nat, now: int, ops: seq<Op>, s: State, asked: string, path: string, reply: TokenReply, elapsed: nat)
    requires Reached(skew, now, ops, s)
    ensures var (s', r) := Call(skew, s, asked, path, reply, elapsed);
            && (r == Err(BadMethod) <==> forall verb | verb in VERBS :: !Spells(asked, verb))
            && (r == Err(BadPath) <==> (exists verb | verb in VERBS :: Spells(asked, verb)) && !("/open/v1/" <= path))
            && (r.Err? ==> !r.error.NoToken? ==> s' == s)
            && forall verb | r.Ok? && verb in VERBS && Spells(asked, verb) ::
                 && s'.log != [] && s'.log[|s'.log| - 1] == Called(asked, verb, path, r.value)
                 && r.value.scope == if verb == "GET" then READ_SCOPE else WRITE_SCOPE
  {
    RunKeepsInv(skew, InitialAt(now), ops);
    forall verb ensures Normalize(asked) == Some(verb) <==> verb in VERBS && Spells(asked, verb) {
      NormalizeExactly(asked, verb);
    }
    if Normalize(asked).Some? {
      assert Spells(asked, Normalize(asked).value);
      ObtainKeeps(skew, s, ScopeForMethod(Normalize(asked).value), reply, elapsed);
    }
  }

  /** A fresh token is handed out once whatever its lifetime. It can be served again from the cache, `later`
      nanoseconds after it was received, exactly when its lifetime exceeds the skew by at least one
      nanosecond more than that. */
  lemma ReusableExactly(skew: nat, s: State, scope: string, reply: TokenReply, elapsed: nat, later: nat)
    requires Ask(skew, s, scope, reply, elapsed).1.Ok?
    ensures var s' := Ask(skew, s, scope, reply, elapsed).0;
            && scope in s'.cache
            && (Usable(s'.(now := s'.now + later), scope) <==>
                  reply.expiresIn.value * 1_000_000_000.0 >= skew as real + 1.0 + later as real)
  {
    LifetimeExceeds(reply.expiresIn.value, skew, later);
  }

  /** A token that lives a second and half a nanosecond. */
  const BarelyOverASecond: TokenReply := TokenReply(200, "t", "bearer", Some(1.0000000005), "")

  /** So a token may outlive the skew and still not be served twice, as this one when the skew is a second. */
  lemma OutlivesTheSkewButIsNotReused(s: State)
    ensures BarelyOverASecond.expiresIn.value * 1_000_000_000.0 > 1_000_000_000.0
    ensures Ask(1_000_000_000, s, READ_SCOPE, BarelyOverASecond, 0).1.Ok?
    ensures !Usable(Ask(1_000_000_000, s, READ_SCOPE, BarelyOverASecond, 0).0, READ_SCOPE)
  {
    assert IsBearer("bearer");
    OnlyWord(READ_SCOPE, READ_SCOPE);
    IssuedExactly(1_000_000_000, READ_SCOPE, BarelyOverASecond, s.now);
    ReusableExactly(1_000_000_000, s, READ_SCOPE, BarelyOverASecond, 0, 0);
  }

  // ----- The client

  class PortalOpenAPIClient {
    const tokenSkew: nat
    var now: int
    var tokenCache: map<string, MachineToken>
    ghost var log: seq<Event>

    constructor (tokenSkew: nat, now: int)
      ensures this.tokenSkew == tokenSkew && Abs() == InitialAt(now)
    {
      this.tokenSkew, this.now, tokenCache, log := tokenSkew, now, map[], [];
    }

    ghost function Abs(): State
      reads this
    {
      State(now, tokenCache, log)
    }

    method GetMachineToken(scope: string, reply: TokenReply, elapsed: nat) returns (r: Result<MachineToken, TokenError>)
      modifies this
      ensures (Abs(), r) == Obtain(tokenSkew, old(Abs()), scope, reply, elapsed)
    {
      if !IsScope(scope) {
        return Err(UnknownScope);
      }
      if scope in tokenCache && tokenCache[scope].expiresAt > now {
        log := log + [Served(scope, tokenCache[scope], now, true)];
        return Ok(tokenCache[scope]);
      }
      log := log + [Asked(scope, now, now + elapsed, reply)];
      now := now + elapsed;
      r := RequestMachineToken(scope, reply);
      if r.Ok? {
        tokenCache := tokenCache[scope := r.value];
        log := log + [Served(scope, r.value, now, false)];
      }
    }

    /** The checks on the issuer's answer, in order. */
    method RequestMachineToken(scope: string, reply: TokenReply) returns (r: Result<MachineToken, TokenError>)
      ensures r == Issue(tokenSkew, scope, reply, now)
    {
      if reply.NoReply? {
        return Err(TransportFailed);
      }
      if reply.status >= 400 {
        return Err(Rejected(reply.status));
      }
      var accessToken := TrimSpace(reply.accessToken);
      if accessToken == "" || !IsBearer(reply.tokenType) {
        return Err(MissingBearer);
      }
      if reply.expiresIn.None? || reply.expiresIn.value <= 0.0 {
        return Err(InvalidResponse);
      }
      var responseScope := if reply.scope == "" then scope else reply.scope;
      var fields := Fields(responseScope);
      var found := Contains(fields, scope);
      if !found {
        return Err(InvalidScope);
      }
      return Ok(MachineToken(accessToken, scope, now + TimeToLive(reply.expiresIn.value, tokenSkew)));
    }

    method Contains(fields: seq<string>, value: string) returns (found: bool)
      ensures found <==> value in fields
    {
      for i := 0 to |fields|
        invariant value !in fields[..i]
      {
        if fields[i] == value {
          return true;
        }
        assert fields[..i + 1] == fields[..i] + [fields[i]];
      }
      assert fields[..|fields|] == fields;
      return false;
    }

    /** Time passes between calls. */
    method Tick(elapsed: nat)
      modifies this`now
      ensures Abs() == Apply(tokenSkew, old(Abs()), Op.Tick(elapsed))
    {
      now := now + elapsed;
    }

    method ClearTokenCache(scopes: seq<string>)
      modifies this
      ensures Abs() == Apply(tokenSkew, old(Abs()), Clear(scopes))
      ensures tokenCache == if scopes == [] then map[] else old(tokenCache) - (set scope | scope in scopes)
    {
      if |scopes| == 0 {
        tokenCache := map[];
        log := log + [ClearedAll];
        return;
      }
      for i := 0 to |scopes|
        invariant Abs() == ClearScopes(old(Abs()), scopes[..i])
        invariant tokenCache == old(tokenCache) - (set scope | scope in scopes[..i])
      {
        tokenCache := tokenCache - {scopes[i]};
        log := log + [Cleared(scopes[i])];
        assert scopes[..i + 1][..i] == scopes[..i];
      }
      assert scopes[..|scopes|] == scopes;
    }

    /** RequestJSON up to the resource request; the token is what it carries. */
    method RequestJSON(method': string, path: string, reply: TokenReply, elapsed: nat)
      returns (r: Result<MachineToken, RequestError>)
      modifies this
      ensures (Abs(), r) == Call(tokenSkew, old(Abs()), method', path, reply, elapsed)
    {
      var normalized := Normalize(method');
      if normalized.None? {
        return Err(BadMethod);
      }
      if !(PORTAL_PREFIX <= path) {
        return Err(BadPath);
      }
      var token := GetMachineToken(ScopeForMethod(normalized.value), reply, elapsed);
      if token.Err? {
        return Err(NoToken(token.error));
      }
      log := log + [Called(method', normalized.value, path, token.value)];
      return Ok(token.value);
    }
  }
}
